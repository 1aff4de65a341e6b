/**
 Importing a captured native history under a mount: every commit is rewritten onto its mapped
 parents with its tree moved under the mount, except where the destination already has the same
 version of it, which is then reused as a graft.
 */
module NativeImport {
  import opened Wrappers
  import opened Walks
  import opened Mounts

  type Id = nat

  datatype Meta = Meta(description: string, author: string, committer: string)

  /** A source commit. `terms` are the signed terms of its tree; one term means no conflict. */
  datatype SourceCommit = SourceCommit(
    parents: seq<Id>, terms: seq<Tree>, labels: seq<string>, change: string, meta: Meta,
    predecessors: seq<Id>, signature: Option<string>)

  /** A destination commit, identified by its content. */
  datatype DestCommit =
    | Root
    | Commit(parents: seq<DestCommit>, terms: seq<Tree>, labels: seq<string>, change: string, meta: Meta)

  type IdMap = map<Id, DestCommit>

  datatype Lookup = NotFound | Found(id: DestCommit) | Ambiguous | Obstructed

  datatype Error =
    | MissingCommit(id: Id)
    | Cyclic(id: Id)
    | NoParents(id: Id)
    | AmbiguousVersion(id: Id)
    | UnreadableVersion(id: Id)
    | MountBlocked(id: Id)
    | Collapsed(first: Id, second: Id)

  /** What an import starts from. Tree merges that can conflict are given as functions. */
  datatype Import = Import(
    commits: map<Id, SourceCommit>,
    root: Id,
    known: IdMap,
    mount: Path,
    visible: seq<DestCommit>,
    indexed: seq<DestCommit>,
    synthetic: set<Id>,
    resolve: Resolver,
    parentTree: seq<DestCommit> -> seq<Tree>,
    mergeConflicted: (seq<Tree>, seq<Tree>, seq<string>) -> (seq<Tree>, seq<string>))

  // ----- Versions that the destination already has -------------------------------------------

  predicate HasProject(c: DestCommit, mount: Path)
    requires mount != []
  {
    c.Commit? && exists t <- c.terms :: ValueAt(t, mount).Some?
  }

  /** How terms that agree are resolved, which can leave fewer terms and labels. */
  type Resolver = (seq<Tree>, seq<string>) -> (seq<Tree>, seq<string>)

  /** The terms of a commit below the mount, if the mount is a directory in all of them. */
  function Project(terms: seq<Tree>, mount: Path): Option<seq<Tree>>
    requires mount != []
  {
    if exists t <- terms :: TreeAt(t, mount).None? then None
    else Some(seq(|terms|, i requires 0 <= i < |terms| => if TreeAt(terms[i], mount).Some? then TreeAt(terms[i], mount).value else EMPTY))
  }

  /** The project of a commit: its terms below the mount, resolved. */
  function ProjectTree(resolve: Resolver, c: DestCommit, mount: Path): Option<(seq<Tree>, seq<string>)>
    requires mount != [] && c.Commit?
  {
    var terms := Project(c.terms, mount);
    if terms.None? then None else Some(resolve(terms.value, c.labels))
  }

  /** A version of the same change has a file where the project should be. */
  predicate Unreadable(c: DestCommit, mount: Path, source: SourceCommit)
    requires mount != []
  {
    c.Commit? && c.change == source.change && exists t <- c.terms :: ValueAt(t, mount).Some? && ValueAt(t, mount).value.File?
  }

  predicate SameVersion(resolve: Resolver, c: DestCommit, mount: Path, source: SourceCommit)
    requires mount != []
  {
    && c.Commit? && c.change == source.change && HasProject(c, mount)
    && c.meta == source.meta && var project := ProjectTree(resolve, c, mount); project.Some? && project.value.0 == source.terms
  }

  /** The one visible commit that is the same version, looked for in order. */
  function Existing(resolve: Resolver, visible: seq<DestCommit>, mount: Path, source: SourceCommit, matched: Option<DestCommit>): Lookup
    requires mount != []
  {
    if visible == [] then (if matched.Some? then Found(matched.value) else NotFound)
    else if Unreadable(visible[0], mount, source) then Obstructed
    else if !SameVersion(resolve, visible[0], mount, source) then Existing(resolve, visible[1..], mount, source, matched)
    else if matched.Some? && matched.value != visible[0] then Ambiguous
    else Existing(resolve, visible[1..], mount, source, Some(visible[0]))
  }

  method FindExisting(resolve: Resolver, visible: seq<DestCommit>, mount: Path, source: SourceCommit) returns (found: Lookup)
    requires mount != []
    ensures found == Existing(resolve, visible, mount, source, None)
  {
    var matched: Option<DestCommit> := None;
    var i := 0;
    while i < |visible|
      invariant 0 <= i <= |visible|
      invariant Existing(resolve, visible, mount, source, None) == Existing(resolve, visible[i..], mount, source, matched)
    {
      assert visible[i..][1..] == visible[i + 1..];
      if Unreadable(visible[i], mount, source) {
        return Obstructed;
      }
      if SameVersion(resolve, visible[i], mount, source) {
        if matched.Some? && matched.value != visible[i] {
          return Ambiguous;
        }
        matched := Some(visible[i]);
      }
      i := i + 1;
    }
    found := if matched.Some? then Found(matched.value) else NotFound;
  }

  /** A reused version is unique: it matches, and everything that matches is it. */
  lemma {:induction false} ExistingIsUnique(resolve: Resolver, visible: seq<DestCommit>, mount: Path, source: SourceCommit, matched: Option<DestCommit>)
    requires mount != [] && (matched.Some? ==> SameVersion(resolve, matched.value, mount, source))
    ensures
      match Existing(resolve, visible, mount, source, matched)
      case Found(c) =>
        && (c in visible || matched == Some(c)) && SameVersion(resolve, c, mount, source)
        && (matched.Some? ==> matched.value == c)
        && forall d <- visible :: SameVersion(resolve, d, mount, source) ==> d == c
      case NotFound => matched.None? && forall d <- visible :: !SameVersion(resolve, d, mount, source)
      case Ambiguous =>
        exists c, d :: SameVersion(resolve, c, mount, source) && SameVersion(resolve, d, mount, source) && c != d
          && (c in visible || matched == Some(c)) && d in visible
      case Obstructed => exists d <- visible :: Unreadable(d, mount, source)
    decreases |visible|
  {
    if visible != [] {
      var v, rest := visible[0], visible[1..];
      assert visible == [v] + rest;
      if Unreadable(v, mount, source) {
        assert v in visible;
      } else if !SameVersion(resolve, v, mount, source) {
        ExistingIsUnique(resolve, rest, mount, source, matched);
      } else if matched.Some? && matched.value != v {
        assert v in visible;
      } else {
        ExistingIsUnique(resolve, rest, mount, source, Some(v));
      }
    }
  }

  predicate SameContent(resolve: Resolver, c: DestCommit, mount: Path, source: SourceCommit, parents: seq<DestCommit>)
    requires mount != []
  {
    && c.Commit? && c.meta == source.meta && HasProject(c, mount)
    && ProjectTree(resolve, c, mount) == Some((source.terms, source.labels)) && c.parents == parents
  }

  function Candidates(resolve: Resolver, indexed: seq<DestCommit>, mount: Path, source: SourceCommit, parents: seq<DestCommit>): (found: seq<DestCommit>)
    requires mount != []
    ensures forall c <- found :: c in indexed && SameContent(resolve, c, mount, source, parents)
    ensures forall c <- indexed :: SameContent(resolve, c, mount, source, parents) ==> c in found
  {
    if indexed == [] then []
    else (if SameContent(resolve, indexed[0], mount, source, parents) then [indexed[0]] else [])
         + Candidates(resolve, indexed[1..], mount, source, parents)
  }

  /** A commit that lost its change id is recognised by content and mapped parents, if only one fits. */
  function ExistingContent(resolve: Resolver, indexed: seq<DestCommit>, mount: Path, source: SourceCommit, parents: seq<DestCommit>): Lookup
    requires mount != []
  {
    var found := Candidates(resolve, indexed, mount, source, parents);
    if found == [] then NotFound else if |found| == 1 then Found(found[0]) else Ambiguous
  }

  // ----- Writing one commit ------------------------------------------------------------------

  function PrefixedTerms(mount: Path, terms: seq<Tree>): (result: seq<Tree>)
    ensures |result| == |terms| && forall i | 0 <= i < |terms| :: result[i] == Prefixed(mount, terms[i])
  {
    seq(|terms|, i requires 0 <= i < |terms| => Prefixed(mount, terms[i]))
  }

  /** Once the project has history here, commits also carry the files of the other projects. */
  function Lifted(im: Import, parents: seq<DestCommit>, terms: seq<Tree>, labels: seq<string>): Option<(seq<Tree>, seq<string>)>
    requires im.mount != []
  {
    var outside := im.parentTree(parents);
    if exists t <- outside :: Without(t, im.mount).None? then None
    else if forall t <- outside :: Without(t, im.mount) == Some(EMPTY) then Some((terms, labels))
    else if |outside| == 1 && |terms| == 1 then
      var tree := Inherited(outside[0], im.mount, terms[0]);
      if tree.Some? then Some(([tree.value], [])) else None
    else Some(im.mergeConflicted(outside, terms, labels))
  }

  function Written(im: Import, source: SourceCommit, parents: seq<DestCommit>): Option<DestCommit>
    requires im.mount != []
  {
    var terms := PrefixedTerms(im.mount, source.terms);
    var placed := if im.known != map[] then Lifted(im, parents, terms, source.labels) else Some((terms, source.labels));
    if placed.None? then None
    else Some(Commit(parents, placed.value.0, placed.value.1, source.change, source.meta))
  }

  /** A commit without conflicts projects back to its source tree, whatever else the import adds. */
  lemma {:induction false} WrittenProjects(im: Import, source: SourceCommit, parents: seq<DestCommit>)
    requires im.mount != [] && |source.terms| == 1 && Written(im, source, parents).Some?
    requires im.known == map[] || |im.parentTree(parents)| == 1
    ensures
      var c := Written(im, source, parents).value;
      c.Commit? && |c.terms| == 1 && TreeAt(c.terms[0], im.mount) == Some(source.terms[0])
      && c.parents == parents && c.meta == source.meta && c.change == source.change
  {
    ProjectPrefixed(im.mount, source.terms[0]);
    if im.known != map[] {
      InheritedProject(im.parentTree(parents)[0], im.mount, source.terms[0]);
    }
  }

  /** And beside the mount it has exactly the files of its (merged) parents. */
  lemma {:induction false} WrittenInherits(im: Import, source: SourceCommit, parents: seq<DestCommit>, p: Path)
    requires im.mount != [] && p != [] && |source.terms| == 1 && Written(im, source, parents).Some?
    requires im.known != map[] && |im.parentTree(parents)| == 1 && !(im.mount <= p)
    ensures FileAt(Written(im, source, parents).value.terms[0], p) == FileAt(im.parentTree(parents)[0], p)
  {
    var outside := im.parentTree(parents)[0];
    InheritedFiles(outside, im.mount, source.terms[0], p);
  }

  // ----- The walk over the captured graph ----------------------------------------------------

  function Start(im: Import): IdMap {
    im.known[im.root := Root]
  }

  function ExistingFor(im: Import, id: Id): Lookup
    requires im.mount != [] && id in im.commits
  {
    Existing(im.resolve, im.visible, im.mount, im.commits[id], None)
  }

  /** The parents to convert first; known and reused commits need none. */
  function Next(im: Import, id: Id): seq<Id>
    requires im.mount != []
  {
    if id in Start(im) || id !in im.commits || !ExistingFor(im, id).NotFound? then [] else im.commits[id].parents
  }

  ghost function Universe(im: Import): set<Id> {
    im.commits.Keys + Start(im).Keys + set id, p | id in im.commits && p in im.commits[id].parents :: p
  }

  lemma UniverseIsClosed(im: Import, id: Id)
    requires im.mount != []
    ensures forall p <- Next(im, id) :: p in Universe(im)
  {
  }

  ghost predicate ParentsMapped(im: Import, ids: IdMap, id: Id) {
    id in im.commits && forall p <- im.commits[id].parents :: p in ids
  }

  /** `id` became the commit that its source content and mapped parents give. */
  ghost predicate IsWritten(im: Import, ids: IdMap, id: Id)
    requires im.mount != []
  {
    && id in ids && ParentsMapped(im, ids, id)
    && Written(im, im.commits[id], MapAll(ids, im.commits[id].parents)) == Some(ids[id])
  }

  /** `id` was reused: by its change id, or by its content on top of its mapped parents. */
  ghost predicate IsGraft(im: Import, ids: IdMap, id: Id)
    requires im.mount != []
  {
    && id in ids && id in im.commits
    && (ExistingFor(im, id) == Found(ids[id])
        || (id in im.synthetic && ParentsMapped(im, ids, id)
            && ExistingContent(im.resolve, im.indexed, im.mount, im.commits[id], MapAll(ids, im.commits[id].parents)) == Found(ids[id])))
  }

  /** What the loop has established for the ids mapped so far. */
  ghost predicate Imports(im: Import, ids: IdMap, written: seq<Id>, grafts: seq<Id>, commits: seq<DestCommit>)
    requires im.mount != []
  {
    && (forall id <- Start(im) :: id in ids && ids[id] == Start(im)[id])
    && (forall id <- ids :: id in Start(im) || id in written || id in grafts)
    && (forall id <- written :: id !in Start(im)) && (forall id <- grafts :: id !in Start(im))
    && |written| == |commits|
    && (forall k | 0 <= k < |written| :: IsWritten(im, ids, written[k]) && commits[k] == ids[written[k]])
    && (forall i, j | 0 <= i < j < |commits| :: commits[i] != commits[j])
    && (forall id <- grafts :: IsGraft(im, ids, id))
    && ParentsBefore(im, written, grafts)
  }

  /** Each written commit comes after its parents, unless these were known or reused. */
  ghost predicate ParentsBefore(im: Import, written: seq<Id>, grafts: seq<Id>) {
    forall k | 0 <= k < |written| && written[k] in im.commits ::
      forall p <- im.commits[written[k]].parents :: p in Start(im) || p in grafts || p in written[..k]
  }

  lemma {:induction false} StaysWritten(im: Import, ids: IdMap, more: IdMap, id: Id)
    requires im.mount != [] && Submap(ids, more) && IsWritten(im, ids, id)
    ensures IsWritten(im, more, id) && more[id] == ids[id]
  {
    var parents := im.commits[id].parents;
    assert MapAll(more, parents) == MapAll(ids, parents);
  }

  lemma {:induction false} StaysGraft(im: Import, ids: IdMap, more: IdMap, id: Id)
    requires im.mount != [] && Submap(ids, more) && IsGraft(im, ids, id)
    ensures IsGraft(im, more, id) && more[id] == ids[id]
  {
    if ParentsMapped(im, ids, id) {
      var parents := im.commits[id].parents;
      assert MapAll(more, parents) == MapAll(ids, parents);
    }
  }

  lemma {:induction false} StaysImported(im: Import, ids: IdMap, more: IdMap, written: seq<Id>, grafts: seq<Id>, commits: seq<DestCommit>)
    requires im.mount != [] && Submap(ids, more) && Imports(im, ids, written, grafts, commits)
    ensures forall k | 0 <= k < |written| :: IsWritten(im, more, written[k]) && commits[k] == more[written[k]]
    ensures forall id <- grafts :: IsGraft(im, more, id)
  {
    hide IsWritten, IsGraft;
    forall k | 0 <= k < |written|
      ensures IsWritten(im, more, written[k]) && written[k] in more && commits[k] == more[written[k]]
    {
      WrittenIsMapped(im, ids, written[k]);
      StaysWritten(im, ids, more, written[k]);
    }
    forall id | id in grafts ensures IsGraft(im, more, id) {
      StaysGraft(im, ids, more, id);
    }
  }

  lemma WrittenIsMapped(im: Import, ids: IdMap, id: Id)
    requires im.mount != [] && IsWritten(im, ids, id)
    ensures id in ids
  {
  }

  lemma {:induction false} ImportGraft(im: Import, ids: IdMap, written: seq<Id>, grafts: seq<Id>, commits: seq<DestCommit>, id: Id, existing: DestCommit)
    requires im.mount != [] && Imports(im, ids, written, grafts, commits) && id !in ids
    requires IsGraft(im, ids[id := existing], id)
    ensures Imports(im, ids[id := existing], written, grafts + [id], commits)
  {
    hide IsWritten, IsGraft;
    StaysImported(im, ids, ids[id := existing], written, grafts, commits);
    forall k, p | 0 <= k < |written| && written[k] in im.commits && p in im.commits[written[k]].parents
      ensures p in Start(im) || p in grafts + [id] || p in written[..k]
    {
    }
  }

  lemma {:induction false} ImportWritten(im: Import, ids: IdMap, written: seq<Id>, grafts: seq<Id>, commits: seq<DestCommit>, id: Id, c: DestCommit)
    requires im.mount != [] && Imports(im, ids, written, grafts, commits) && id !in ids && c !in commits
    requires ParentsMapped(im, ids, id) && Written(im, im.commits[id], MapAll(ids, im.commits[id].parents)) == Some(c)
    ensures Imports(im, ids[id := c], written + [id], grafts, commits + [c])
  {
    hide IsWritten, IsGraft, Written;
    var more := ids[id := c];
    NewIsWritten(im, ids, id, c);
    StaysImported(im, ids, more, written, grafts, commits);
    var written', commits' := written + [id], commits + [c];
    forall k, p | 0 <= k < |written'| && written'[k] in im.commits && p in im.commits[written'[k]].parents
      ensures p in Start(im) || p in grafts || p in written'[..k]
    {
      assert written'[..k] == if k < |written| then written[..k] else written;
    }
    forall i, j | 0 <= i < j < |commits'| ensures commits'[i] != commits'[j] {
      assert commits'[i] == commits[i] && commits[i] in commits;
    }
  }

  lemma {:induction false} NewIsWritten(im: Import, ids: IdMap, id: Id, c: DestCommit)
    requires im.mount != [] && id !in ids && ParentsMapped(im, ids, id)
    requires Written(im, im.commits[id], MapAll(ids, im.commits[id].parents)) == Some(c)
    ensures IsWritten(im, ids[id := c], id)
  {
    var parents := im.commits[id].parents;
    assert MapAll(ids[id := c], parents) == MapAll(ids, parents);
  }

  lemma {:induction false} NewIsGraft(im: Import, ids: IdMap, id: Id, c: DestCommit)
    requires im.mount != [] && id !in ids && id in im.commits
    requires
      || ExistingFor(im, id) == Found(c)
      || (id in im.synthetic && ParentsMapped(im, ids, id)
          && ExistingContent(im.resolve, im.indexed, im.mount, im.commits[id], MapAll(ids, im.commits[id].parents)) == Found(c))
    ensures IsGraft(im, ids[id := c], id)
  {
    if ParentsMapped(im, ids, id) {
      var parents := im.commits[id].parents;
      assert MapAll(ids[id := c], parents) == MapAll(ids, parents);
    }
  }

  ghost predicate ImportWalk(im: Import, roots: seq<Id>, pending: seq<Work<Id>>, active: set<Id>, done: set<Id>)
    requires im.mount != []
  {
    Walking((id: Id) => Next(im, id), Universe(im), roots, pending, active, done)
  }

  lemma {:induction false} ImportStarts(im: Import, roots: seq<Id>)
    requires im.mount != [] && forall r <- roots :: r in im.commits
    ensures ImportWalk(im, roots, Enters(roots), {}, Start(im).Keys) && Imports(im, Start(im), [], [], [])
  {
    Starts((id: Id) => Next(im, id), Universe(im), roots, Start(im).Keys);
  }

  lemma {:induction false} ImportTop(im: Import, roots: seq<Id>, rest: seq<Work<Id>>, top: Work<Id>, active: set<Id>, done: set<Id>)
    requires im.mount != [] && ImportWalk(im, roots, rest + [top], active, done)
    ensures top.node in Universe(im)
    ensures top.Enter? && top.node in active ==> Leads((id: Id) => Next(im, id), top.node, top.node)
    ensures top.Exit? ==> top.node in active && top.node !in done && forall p <- Next(im, top.node) :: p in done
  {
    Top((id: Id) => Next(im, id), Universe(im), roots, rest, top, active, done);
  }

  lemma {:induction false} ImportSkip(im: Import, roots: seq<Id>, rest: seq<Work<Id>>, top: Work<Id>, active: set<Id>, done: set<Id>)
    requires im.mount != [] && ImportWalk(im, roots, rest + [top], active, done) && top.Enter? && top.node !in active
    ensures ImportWalk(im, roots, rest, active, done + {top.node})
    ensures Unseen(Universe(im), active, done + {top.node}) <= Unseen(Universe(im), active, done)
  {
    Skip((id: Id) => Next(im, id), Universe(im), roots, rest, top, active, done);
  }

  lemma DoneIsNotActive(im: Import, roots: seq<Id>, pending: seq<Work<Id>>, active: set<Id>, done: set<Id>, id: Id)
    requires im.mount != [] && ImportWalk(im, roots, pending, active, done) && id in done
    ensures id !in active
  {
  }

  lemma {:induction false} ImportEnter(im: Import, roots: seq<Id>, rest: seq<Work<Id>>, top: Work<Id>, active: set<Id>, done: set<Id>)
    requires im.mount != [] && ImportWalk(im, roots, rest + [top], active, done) && top.Enter?
    requires top.node !in active && top.node !in done
    ensures ImportWalk(im, roots, rest + [Exit(top.node)] + Enters(Next(im, top.node)), active + {top.node}, done)
    ensures Unseen(Universe(im), active + {top.node}, done) < Unseen(Universe(im), active, done)
  {
    UniverseIsClosed(im, top.node);
    Push((id: Id) => Next(im, id), Universe(im), roots, rest, top, active, done);
  }

  lemma {:induction false} ImportLeave(im: Import, roots: seq<Id>, rest: seq<Work<Id>>, top: Work<Id>, active: set<Id>, done: set<Id>)
    requires im.mount != [] && ImportWalk(im, roots, rest + [top], active, done) && top.Exit?
    ensures ImportWalk(im, roots, rest, active - {top.node}, done + {top.node})
    ensures Unseen(Universe(im), active - {top.node}, done + {top.node}) == Unseen(Universe(im), active, done)
  {
    Leave((id: Id) => Next(im, id), Universe(im), roots, rest, top, active, done);
  }

  lemma {:induction false} ImportEnds(im: Import, roots: seq<Id>, active: set<Id>, done: set<Id>)
    requires im.mount != [] && ImportWalk(im, roots, [], active, done)
    ensures forall r <- roots :: r in done
  {
    Ends((id: Id) => Next(im, id), Universe(im), roots, active, done);
  }

  // ----- When an import exists ---------------------------------------------------------------

  /** Reuse by content, for commits whose change id was made up from their commit id. */
  function Reuse(im: Import, id: Id, parents: seq<DestCommit>): Lookup
    requires im.mount != [] && id in im.commits
  {
    if id in im.synthetic then ExistingContent(im.resolve, im.indexed, im.mount, im.commits[id], parents) else NotFound
  }

  /** `id` is mapped to the one commit it can become: the version that exists, or a new one. */
  ghost predicate Settled(im: Import, ids: IdMap, id: Id)
    requires im.mount != [] && id in im.commits
  {
    && id in ids
    && match ExistingFor(im, id)
       case Found(c) => ids[id] == c
       case NotFound => im.commits[id].parents != [] && ParentsMapped(im, ids, id) && SettledOn(im, id, MapAll(ids, im.commits[id].parents), ids[id])
       case _ => false
  }

  ghost predicate SettledOn(im: Import, id: Id, parents: seq<DestCommit>, c: DestCommit)
    requires im.mount != [] && id in im.commits
  {
    match Reuse(im, id, parents)
    case Found(existing) => c == existing
    case NotFound => Written(im, im.commits[id], parents) == Some(c)
    case _ => false
  }

  /** No existing version was found for `id`, so its commit is new. */
  ghost predicate IsNew(im: Import, ids: IdMap, id: Id)
    requires im.mount != [] && id in im.commits
  {
    ExistingFor(im, id).NotFound? && ParentsMapped(im, ids, id) && Reuse(im, id, MapAll(ids, im.commits[id].parents)).NotFound?
  }

  /**
   A conversion of the whole capture: every commit becomes what its content and its converted
   parents make it, and no two of them become the same new commit.
   */
  ghost predicate Converts(im: Import, ids: IdMap)
    requires im.mount != []
  {
    && ids.Keys == Start(im).Keys + im.commits.Keys
    && (forall id <- Start(im) :: ids[id] == Start(im)[id])
    && (forall id <- im.commits :: id !in Start(im) ==> Settled(im, ids, id))
    && (forall a <- im.commits, b <- im.commits | a !in Start(im) && b !in Start(im) && a != b ::
          IsNew(im, ids, a) && IsNew(im, ids, b) ==> ids[a] != ids[b])
  }

  lemma {:induction false} StaysSettled(im: Import, ids: IdMap, more: IdMap, id: Id)
    requires im.mount != [] && id in im.commits && Submap(ids, more)
    ensures Settled(im, ids, id) ==> Settled(im, more, id) && more[id] == ids[id]
    ensures IsNew(im, ids, id) ==> IsNew(im, more, id)
  {
    hide SettledOn, Reuse, Existing;
    if ParentsMapped(im, ids, id) {
      var parents := im.commits[id].parents;
      assert MapAll(more, parents) == MapAll(ids, parents);
    }
  }

  /** What a commit becomes is determined by what its parents become. */
  lemma {:induction false} SettledAlike(im: Import, ids: IdMap, more: IdMap, id: Id)
    requires im.mount != [] && id in im.commits && Settled(im, ids, id) && Settled(im, more, id)
    requires forall p <- im.commits[id].parents :: p in ids && p in more && ExistingFor(im, id).NotFound? ==> ids[p] == more[p]
    ensures ids[id] == more[id]
  {
    hide Reuse, Existing, Written;
    if ExistingFor(im, id).NotFound? {
      var parents := im.commits[id].parents;
      assert MapAll(more, parents) == MapAll(ids, parents);
    }
  }

  lemma {:induction false} SettledDescends(im: Import, ids: IdMap, id: Id, p: Id)
    requires im.mount != [] && id in im.commits && id !in Start(im) && Settled(im, ids, id) && p in Next(im, id)
    ensures p in ids && ids[p] < ids[id]
  {
    hide Existing, Written;
    var source, parents := im.commits[id], MapAll(ids, im.commits[id].parents);
    WrittenParents(im, source, parents);
    if Reuse(im, id, parents).Found? {
      assert ids[id] in Candidates(im.resolve, im.indexed, im.mount, source, parents);
    }
    var i :| 0 <= i < |source.parents| && source.parents[i] == p;
    assert ids[id].Commit? && ids[id].parents[i] == ids[p];
  }

  lemma WrittenParents(im: Import, source: SourceCommit, parents: seq<DestCommit>)
    requires im.mount != []
    ensures Written(im, source, parents).Some? ==> Written(im, source, parents).value.Commit? && Written(im, source, parents).value.parents == parents
  {
  }

  lemma {:induction false} ConversionDescends(im: Import, ids: IdMap)
    requires im.mount != [] && Converts(im, ids)
    ensures Descends(im, ids)
  {
    hide Settled, Existing, IsNew;
    forall id, p | id in ids && p in Next(im, id) ensures p in ids && ids[p] < ids[id] {
      SettledDescends(im, ids, id, p);
    }
  }

  /** There is at most one conversion. */
  lemma {:induction false} ConversionIsUnique(im: Import, a: IdMap, b: IdMap, id: Id)
    requires im.mount != [] && Converts(im, a) && Converts(im, b) && id in a
    ensures id in b && a[id] == b[id]
    decreases a[id]
  {
    hide SettledOn, Existing;
    if id !in Start(im) {
      ConversionDescends(im, a);
      if ExistingFor(im, id).NotFound? {
        forall p | p in im.commits[id].parents ensures p in a && p in b && a[p] == b[p] {
          assert p in Next(im, id);
          ConversionIsUnique(im, a, b, p);
        }
      }
      SettledAlike(im, a, b, id);
    }
  }

  // ----- The walk finds it -------------------------------------------------------------------

  /** What the loop has settled, and that it agrees with a conversion, if there is one. */
  ghost predicate Resolving(im: Import, ids: IdMap, written: seq<Id>, pending: seq<Work<Id>>, full: Option<IdMap>)
    requires im.mount != []
  {
    && (forall id <- ids :: id in Start(im) || (id in im.commits && Settled(im, ids, id)))
    && (forall id <- written :: id in im.commits && IsNew(im, ids, id))
    && (full.Some? ==> Converts(im, full.value) && Submap(ids, full.value) && forall w <- pending :: w.node in full.value)
  }

  lemma {:induction false} ResolveStarts(im: Import, roots: seq<Id>, full: Option<IdMap>)
    requires im.mount != [] && (forall r <- roots :: r in im.commits) && (full.Some? ==> Converts(im, full.value))
    ensures Resolving(im, Start(im), [], Enters(roots), full)
  {
    hide Settled, IsNew;
  }

  lemma {:induction false} ResolveRest(im: Import, ids: IdMap, written: seq<Id>, rest: seq<Work<Id>>, top: Work<Id>, full: Option<IdMap>)
    requires im.mount != [] && Resolving(im, ids, written, rest + [top], full)
    ensures Resolving(im, ids, written, rest, full)
  {
    hide Settled, IsNew, Converts;
    assert forall w <- rest :: w in rest + [top];
  }

  lemma {:induction false} ResolveOpens(im: Import, ids: IdMap, written: seq<Id>, rest: seq<Work<Id>>, id: Id, full: Option<IdMap>)
    requires im.mount != [] && Resolving(im, ids, written, rest + [Enter(id)], full)
    requires id in im.commits && id !in Start(im) && ExistingFor(im, id).NotFound?
    ensures Resolving(im, ids, written, rest + [Exit(id)] + Enters(im.commits[id].parents), full)
  {
    hide IsNew, SettledOn, Existing;
    assert Enter(id) in rest + [Enter(id)];
    assert forall w <- rest :: w in rest + [Enter(id)];
  }

  lemma {:induction false} ResolveOne(im: Import, ids: IdMap, written: seq<Id>, pending: seq<Work<Id>>, full: Option<IdMap>, id: Id, c: DestCommit)
    requires im.mount != [] && Resolving(im, ids, written, pending, full)
    requires id !in ids && id in im.commits && id !in Start(im) && Settled(im, ids[id := c], id)
    requires ExistingFor(im, id).NotFound? ==> ParentsMapped(im, ids, id)
    ensures Resolving(im, ids[id := c], written, pending, full)
    ensures IsNew(im, ids[id := c], id) ==> Resolving(im, ids[id := c], written + [id], pending, full)
  {
    hide Settled, IsNew, Existing;
    var more := ids[id := c];
    forall x | x in ids && x in im.commits
      ensures Settled(im, ids, x) ==> Settled(im, more, x)
    {
      StaysSettled(im, ids, more, x);
    }
    forall x | x in written ensures IsNew(im, more, x) {
      StaysSettled(im, ids, more, x);
    }
    if full.Some? {
      ConversionAgrees(im, ids, more, full.value, id);
    }
  }

  lemma {:induction false} ConversionAgrees(im: Import, ids: IdMap, more: IdMap, full: IdMap, id: Id)
    requires im.mount != [] && Converts(im, full) && Submap(ids, full) && id !in ids && id in more && more == ids[id := more[id]]
    requires id in im.commits && id !in Start(im) && Settled(im, more, id)
    requires ExistingFor(im, id).NotFound? ==> ParentsMapped(im, ids, id)
    ensures Submap(more, full)
  {
    hide SettledOn, Existing, IsNew;
    SettledAlike(im, more, full, id);
  }

  // ----- Every refusal is justified ------------------------------------------------------------

  lemma {:induction false} MissingIsFatal(im: Import, ids: IdMap, written: seq<Id>, rest: seq<Work<Id>>, id: Id, full: Option<IdMap>)
    requires im.mount != [] && Resolving(im, ids, written, rest + [Enter(id)], full) && id !in im.commits && id !in Start(im)
    ensures full.None?
  {
    hide Settled, IsNew;
    assert Enter(id) in rest + [Enter(id)];
  }

  lemma SameParents(im: Import, ids: IdMap, more: IdMap, id: Id)
    requires Submap(ids, more)
    ensures ParentsMapped(im, ids, id) ==>
              ParentsMapped(im, more, id) && MapAll(more, im.commits[id].parents) == MapAll(ids, im.commits[id].parents)
  {
  }

  lemma {:induction false} UnsettledIsFatal(im: Import, ids: IdMap, written: seq<Id>, pending: seq<Work<Id>>, full: Option<IdMap>, id: Id)
    requires im.mount != [] && Resolving(im, ids, written, pending, full) && id in im.commits && id !in Start(im)
    requires
      || ExistingFor(im, id).Ambiguous? || ExistingFor(im, id).Obstructed?
      || (ExistingFor(im, id).NotFound? && im.commits[id].parents == [])
      || (ExistingFor(im, id).NotFound? && ParentsMapped(im, ids, id)
          && forall c :: !SettledOn(im, id, MapAll(ids, im.commits[id].parents), c))
    ensures full.None?
  {
    hide SettledOn, Existing, IsNew;
    if full.Some? {
      SameParents(im, ids, full.value, id);
    }
  }

  lemma {:induction false} CycleIsFatal(im: Import, ids: IdMap, written: seq<Id>, rest: seq<Work<Id>>, id: Id, full: Option<IdMap>)
    requires im.mount != [] && Resolving(im, ids, written, rest + [Enter(id)], full) && Leads((id: Id) => Next(im, id), id, id)
    ensures full.None?
  {
    hide Settled, IsNew, Next, Converts, Leads;
    assert Enter(id) in rest + [Enter(id)];
    if full.Some? {
      ConversionDescends(im, full.value);
      ConvertedIsAcyclic(im, full.value, id);
    }
  }

  lemma {:induction false} CollapseIsFatal(im: Import, ids: IdMap, written: seq<Id>, pending: seq<Work<Id>>, full: Option<IdMap>, id: Id, other: Id)
    requires im.mount != [] && Resolving(im, ids, written, pending, full) && id in im.commits && id !in Start(im) && id !in ids
    requires other in written && other in ids && other !in Start(im)
    requires ParentsMapped(im, ids, id) && IsNew(im, ids, id)
    requires Written(im, im.commits[id], MapAll(ids, im.commits[id].parents)) == Some(ids[other])
    ensures full.None?
  {
    hide Existing, Written;
    if full.Some? {
      StaysSettled(im, ids, full.value, id);
      StaysSettled(im, ids, full.value, other);
      SameParents(im, ids, full.value, id);
    }
  }

  lemma {:induction false} ResolveEnds(im: Import, ids: IdMap, written: seq<Id>, grafts: seq<Id>, commits: seq<DestCommit>, full: Option<IdMap>)
    requires im.mount != [] && Resolving(im, ids, written, [], full) && Imports(im, ids, written, grafts, commits)
    requires forall id <- im.commits :: id in ids
    ensures Converts(im, ids)
  {
    hide Existing, ExistingContent, Written, IsWritten;
    forall a | a in im.commits && a !in Start(im) && IsNew(im, ids, a) ensures a in written {
      assert a in written || IsGraft(im, ids, a);
    }
    forall a, b | a in im.commits && b in im.commits && a !in Start(im) && b !in Start(im) && IsNew(im, ids, a) && IsNew(im, ids, b) && ids[a] == ids[b]
      ensures a == b
    {
      ImportIsInjective(im, ids, written, grafts, commits, a, b);
    }
  }

  datatype Imported = Imported(commits: seq<DestCommit>, written: seq<Id>, grafts: seq<Id>, ids: IdMap)

  datatype Result = Ok(value: Imported) | Err(error: Error)

  /** Rewrites the captured graph. `roots` lists the captured ids in the order they are taken up. */
  method RewriteGraph(im: Import, roots: seq<Id>) returns (result: Result)
    requires im.mount != [] && forall id: Id :: id in roots <==> id in im.commits
    ensures result.Ok? <==> exists ids :: Converts(im, ids)
    ensures result.Ok? ==> Converts(im, result.value.ids)
    ensures result.Ok? ==> Imports(im, result.value.ids, result.value.written, result.value.grafts, result.value.commits)
    ensures result.Ok? ==> forall id <- im.commits :: id in result.value.ids && !Leads((id: Id) => Next(im, id), id, id)
    ensures result.Err? && result.error.Cyclic? ==> Leads((id: Id) => Next(im, id), result.error.id, result.error.id)
    ensures result.Err? && result.error.MissingCommit? ==> result.error.id !in im.commits && result.error.id in Universe(im)
  {
    hide ImportWalk, Imports, Universe, Next, Existing, ExistingContent, Written, IsGraft, Leads, Resolving, Converts, Settled, IsNew;
    ghost var full: Option<IdMap> := None;
    if ids :| Converts(im, ids) {
      full := Some(ids);
    }
    var ids := Start(im);
    var pending := Enters(roots);
    var active: set<Id> := {};
    var written: seq<Id>, grafts: seq<Id>, commits: seq<DestCommit> := [], [], [];
    ImportStarts(im, roots);
    ResolveStarts(im, roots, full);
    while pending != []
      invariant ImportWalk(im, roots, pending, active, ids.Keys)
      invariant Resolving(im, ids, written, pending, full)
      invariant Imports(im, ids, written, grafts, commits)
      invariant forall id <- active :: id in im.commits && Next(im, id) == im.commits[id].parents != []
      decreases Unseen(Universe(im), active, ids.Keys), |pending|
    {
      var n := |pending| - 1;
      var rest, top := pending[..n], pending[n];
      SplitLast(pending);
      ImportTop(im, roots, rest, top, active, ids.Keys);
      var id := top.node;
      if top.Enter? {
        if id in ids {
          DoneIsNotActive(im, roots, pending, active, ids.Keys, id);
          ImportSkip(im, roots, rest, top, active, ids.Keys);
          assert ids.Keys + {id} == ids.Keys;
          ResolveRest(im, ids, written, rest, top, full);
          pending := rest;
          continue;
        }
        StartIsMapped(im, ids, written, grafts, commits);
        if id !in im.commits {
          MissingIsFatal(im, ids, written, rest, id, full);
          return Err(MissingCommit(id));
        }
        var existing := FindExisting(im.resolve, im.visible, im.mount, im.commits[id]);
        if existing.Ambiguous? {
          UnsettledIsFatal(im, ids, written, pending, full, id);
          return Err(AmbiguousVersion(id));
        } else if existing.Obstructed? {
          UnsettledIsFatal(im, ids, written, pending, full, id);
          return Err(UnreadableVersion(id));
        } else if existing.Found? {
          OpenIsUnmatched(im, id);
          ImportSkip(im, roots, rest, top, active, ids.Keys);
          NewIsGraft(im, ids, id, existing.id);
          ImportGraft(im, ids, written, grafts, commits, id, existing.id);
          ResolveRest(im, ids, written, rest, top, full);
          SettledByVersion(im, ids, id, existing.id);
          ResolveOne(im, ids, written, rest, full, id, existing.id);
          assert ids[id := existing.id].Keys == ids.Keys + {id};
          ids, grafts, pending := ids[id := existing.id], grafts + [id], rest;
        } else {
          if id in active {
            CycleIsFatal(im, ids, written, rest, id, full);
            return Err(Cyclic(id));
          }
          if im.commits[id].parents == [] {
            UnsettledIsFatal(im, ids, written, pending, full, id);
            return Err(NoParents(id));
          }
          NextIsParents(im, id);
          ResolveOpens(im, ids, written, rest, id, full);
          ImportEnter(im, roots, rest, top, active, ids.Keys);
          pending, active := rest + [Exit(id)] + Enters(im.commits[id].parents), active + {id};
        }
      } else {
        var source := im.commits[id];
        var parents := MapAll(ids, source.parents);
        ImportLeave(im, roots, rest, top, active, ids.Keys);
        StartIsMapped(im, ids, written, grafts, commits);
        OpenHasNoVersion(im, id);
        ResolveRest(im, ids, written, rest, top, full);
        var reused := Reuse(im, id, parents);
        if reused.Ambiguous? || reused.Obstructed? {
          UnsettledIsFatal(im, ids, written, rest, full, id);
          return Err(AmbiguousVersion(id));
        } else if reused.Found? {
          NewIsGraft(im, ids, id, reused.id);
          ImportGraft(im, ids, written, grafts, commits, id, reused.id);
          SettledByParents(im, ids, id, reused.id);
          ResolveOne(im, ids, written, rest, full, id, reused.id);
          assert ids[id := reused.id].Keys == ids.Keys + {id};
          ids, grafts := ids[id := reused.id], grafts + [id];
        } else {
          var mapped := Written(im, source, parents);
          if mapped.None? {
            UnsettledIsFatal(im, ids, written, rest, full, id);
            return Err(MountBlocked(id));
          }
          SettledByParents(im, ids, id, mapped.value);
          if mapped.value in commits {
            var k :| 0 <= k < |commits| && commits[k] == mapped.value;
            ImportsAligned(im, ids, written, grafts, commits, k);
            CollapseIsFatal(im, ids, written, rest, full, id, written[k]);
            return Err(Collapsed(written[k], id));
          }
          ImportWritten(im, ids, written, grafts, commits, id, mapped.value);
          ResolveOne(im, ids, written, rest, full, id, mapped.value);
          assert ids[id := mapped.value].Keys == ids.Keys + {id};
          ids, written, commits := ids[id := mapped.value], written + [id], commits + [mapped.value];
        }
        active, pending := active - {id}, rest;
      }
    }
    ImportEnds(im, roots, active, ids.Keys);
    ResolveEnds(im, ids, written, grafts, commits, full);
    forall id | id in im.commits ensures !Leads((id: Id) => Next(im, id), id, id) {
      ImportedIsAcyclic(im, ids, written, grafts, commits, id);
    }
    result := Ok(Imported(commits, written, grafts, ids));
  }

  // ----- What an import is -------------------------------------------------------------------

  /** Written commits keep their content, and their parents are the mapped parents in order. */
  lemma {:induction false} ImportIsGraphMap(im: Import, ids: IdMap, written: seq<Id>, grafts: seq<Id>, commits: seq<DestCommit>, id: Id)
    requires im.mount != [] && Imports(im, ids, written, grafts, commits) && id in written
    ensures ParentsMapped(im, ids, id) && id in ids && ids[id].Commit?
    ensures
      var source, c := im.commits[id], ids[id];
      && c.parents == MapAll(ids, source.parents) && c.meta == source.meta && c.change == source.change
      && (|source.terms| == 1 && (im.known == map[] || |im.parentTree(c.parents)| == 1)
          ==> |c.terms| == 1 && TreeAt(c.terms[0], im.mount) == Some(source.terms[0]))
  {
    var k :| 0 <= k < |written| && written[k] == id;
    assert IsWritten(im, ids, written[k]);
    var source, parents := im.commits[id], MapAll(ids, im.commits[id].parents);
    if |source.terms| == 1 && (im.known == map[] || |im.parentTree(parents)| == 1) {
      WrittenProjects(im, source, parents);
    }
  }

  /** Distinct source commits never share a written commit. */
  lemma {:induction false} ImportIsInjective(im: Import, ids: IdMap, written: seq<Id>, grafts: seq<Id>, commits: seq<DestCommit>, a: Id, b: Id)
    requires im.mount != [] && Imports(im, ids, written, grafts, commits)
    requires a in written && b in written && a in ids && b in ids && ids[a] == ids[b]
    ensures a == b
  {
    var i :| 0 <= i < |written| && written[i] == a;
    var j :| 0 <= j < |written| && written[j] == b;
    assert commits[i] == ids[a] && commits[j] == ids[b];
  }

  // ----- What a graft is -----------------------------------------------------------------------

  /** What a commit has at the mount, term by term; nothing where the mount is absent. */
  ghost predicate HasAt(c: DestCommit, mount: Path, terms: seq<Tree>)
    requires mount != []
  {
    c.Commit? && |terms| == |c.terms| && forall k | 0 <= k < |terms| :: TreeAt(c.terms[k], mount) == Some(terms[k])
  }

  /** Resolving a single term leaves it as it is. */
  ghost predicate KeepsSingle(resolve: Resolver) {
    forall t, labels :: resolve([t], labels).0 == [t]
  }

  /** The commit has the source's tree at the mount, once its terms there are resolved. */
  ghost predicate MountsSource(im: Import, c: DestCommit, source: SourceCommit)
    requires im.mount != []
  {
    exists terms :: HasAt(c, im.mount, terms) && im.resolve(terms, c.labels).0 == source.terms
  }

  lemma {:induction false} ProjectIsAt(resolve: Resolver, c: DestCommit, mount: Path) returns (terms: seq<Tree>)
    requires mount != [] && c.Commit? && ProjectTree(resolve, c, mount).Some?
    ensures HasAt(c, mount, terms) && ProjectTree(resolve, c, mount) == Some(resolve(terms, c.labels))
  {
    terms := Project(c.terms, mount).value;
    assert forall t <- c.terms :: TreeAt(t, mount).Some?;
  }

  lemma {:induction false} AtIsProject(resolve: Resolver, c: DestCommit, mount: Path, terms: seq<Tree>)
    requires mount != [] && HasAt(c, mount, terms)
    ensures ProjectTree(resolve, c, mount) == Some(resolve(terms, c.labels))
  {
    assert forall t <- c.terms :: TreeAt(t, mount).Some?;
    assert Project(c.terms, mount).value == terms;
  }

  /**
   A graft is the source commit under the mount: the same metadata, the same tree, and a mount that
   is there. It is a visible commit of the same change, or one that stands on the converted parents.
   */
  lemma {:induction false} GraftIsTheSource(im: Import, ids: IdMap, written: seq<Id>, grafts: seq<Id>, commits: seq<DestCommit>, id: Id)
    requires im.mount != [] && Imports(im, ids, written, grafts, commits) && id in grafts
    ensures id in ids && id in im.commits && ids[id].Commit?
    ensures
      var c, source := ids[id], im.commits[id];
      && c.meta == source.meta && MountsSource(im, c, source) && (exists t <- c.terms :: ValueAt(t, im.mount).Some?)
      && (|| (c in im.visible && c.change == source.change)
          || (c in im.indexed && id in im.synthetic && ParentsMapped(im, ids, id) && c.parents == MapAll(ids, source.parents)))
  {
    hide Existing, Written, ProjectTree;
    assert IsGraft(im, ids, id);
    var c, source := ids[id], im.commits[id];
    if ExistingFor(im, id) == Found(c) {
      GraftIsSameVersion(im, id, c);
    } else {
      assert c in Candidates(im.resolve, im.indexed, im.mount, source, MapAll(ids, source.parents));
    }
    var terms := ProjectIsAt(im.resolve, c, im.mount);
  }

  /** Where there is one term, that is simply its tree at the mount. */
  lemma {:induction false} SingleTermIsMounted(im: Import, c: DestCommit, source: SourceCommit)
    requires im.mount != [] && KeepsSingle(im.resolve) && c.Commit? && |c.terms| == 1 && |source.terms| == 1
    ensures MountsSource(im, c, source) <==> TreeAt(c.terms[0], im.mount) == Some(source.terms[0])
  {
    if TreeAt(c.terms[0], im.mount) == Some(source.terms[0]) {
      assert HasAt(c, im.mount, source.terms);
      assert source.terms == [source.terms[0]];
      assert im.resolve([source.terms[0]], c.labels).0 == [source.terms[0]];
    }
    if MountsSource(im, c, source) {
      var terms :| HasAt(c, im.mount, terms) && im.resolve(terms, c.labels).0 == source.terms;
      assert terms == [terms[0]];
      assert im.resolve([terms[0]], c.labels).0 == [terms[0]];
    }
  }

  /** Conversely, a visible commit that is the source commit under the mount is the one that is reused. */
  lemma {:induction false} VersionIsReused(im: Import, ids: IdMap, id: Id, d: DestCommit)
    requires im.mount != [] && Converts(im, ids) && id in im.commits && id !in Start(im)
    requires d in im.visible && d.Commit? && d.change == im.commits[id].change && d.meta == im.commits[id].meta
    requires MountsSource(im, d, im.commits[id]) && exists t <- d.terms :: ValueAt(t, im.mount).Some?
    ensures ids[id] == d
  {
    hide Existing, ProjectTree, SettledOn, IsNew;
    var terms :| HasAt(d, im.mount, terms) && im.resolve(terms, d.labels).0 == im.commits[id].terms;
    AtIsProject(im.resolve, d, im.mount, terms);
    ExistingIsUnique(im.resolve, im.visible, im.mount, im.commits[id], None);
    assert Settled(im, ids, id);
  }

  /** A conversion is refused where a visible commit of the same change has a file at the mount. */
  lemma {:induction false} NoFileAtTheMount(im: Import, ids: IdMap, id: Id, d: DestCommit, k: nat)
    requires im.mount != [] && Converts(im, ids) && id in im.commits && id !in Start(im)
    requires d in im.visible && d.Commit? && d.change == im.commits[id].change && k < |d.terms|
    ensures ValueAt(d.terms[k], im.mount).Some? ==> ValueAt(d.terms[k], im.mount).value.Directory?
  {
    hide SettledOn, IsNew;
    assert Settled(im, ids, id);
    SearchedIsReadable(im.resolve, im.visible, im.mount, im.commits[id], None, d);
    assert d.terms[k] in d.terms;
  }

  lemma {:induction false} SearchedIsReadable(resolve: Resolver, visible: seq<DestCommit>, mount: Path, source: SourceCommit, matched: Option<DestCommit>, d: DestCommit)
    requires mount != [] && d in visible
    requires Existing(resolve, visible, mount, source, matched).Found? || Existing(resolve, visible, mount, source, matched).NotFound?
    ensures !Unreadable(d, mount, source)
    decreases |visible|
  {
    hide Unreadable, SameVersion;
    var v, rest := visible[0], visible[1..];
    if d != v {
      assert d in rest;
      SearchedIsReadable(resolve, rest, mount, source, if SameVersion(resolve, v, mount, source) then Some(v) else matched, d);
    }
  }

  /** And so is, for a commit that lost its change id, the indexed one on the converted parents. */
  lemma {:induction false} ContentIsReused(im: Import, ids: IdMap, id: Id, d: DestCommit, terms: seq<Tree>)
    requires im.mount != [] && Converts(im, ids) && id in im.commits && id !in Start(im) && id in im.synthetic
    requires ExistingFor(im, id).NotFound? && ParentsMapped(im, ids, id)
    requires d in im.indexed && d.Commit? && d.meta == im.commits[id].meta && d.parents == MapAll(ids, im.commits[id].parents)
    requires HasAt(d, im.mount, terms) && im.resolve(terms, d.labels) == (im.commits[id].terms, im.commits[id].labels)
    requires exists t <- d.terms :: ValueAt(t, im.mount).Some?
    ensures ids[id] == d
  {
    hide Existing, ProjectTree, Written;
    AtIsProject(im.resolve, d, im.mount, terms);
    var parents := MapAll(ids, im.commits[id].parents);
    assert d in Candidates(im.resolve, im.indexed, im.mount, im.commits[id], parents);
    assert Settled(im, ids, id) && SettledOn(im, id, parents, ids[id]);
  }

  /** Terms that are not merged with others keep their number, their order and their labels. */
  lemma {:induction false} WrittenKeepsTerms(im: Import, source: SourceCommit, parents: seq<DestCommit>)
    requires im.mount != [] && (im.known == map[] || forall t <- im.parentTree(parents) :: Without(t, im.mount) == Some(EMPTY))
    ensures
      var c := Written(im, source, parents);
      c.Some? && HasAt(c.value, im.mount, source.terms) && c.value.labels == source.labels
  {
    forall k | 0 <= k < |source.terms| ensures TreeAt(Prefixed(im.mount, source.terms[k]), im.mount) == Some(source.terms[k]) {
      ProjectPrefixed(im.mount, source.terms[k]);
    }
  }

  /** A commit reused by its change id is the only visible version with the same content. */
  lemma {:induction false} GraftIsSameVersion(im: Import, id: Id, c: DestCommit)
    requires im.mount != [] && id in im.commits && ExistingFor(im, id) == Found(c)
    ensures c in im.visible && SameVersion(im.resolve, c, im.mount, im.commits[id])
    ensures forall d <- im.visible :: SameVersion(im.resolve, d, im.mount, im.commits[id]) ==> d == c
  {
    ExistingIsUnique(im.resolve, im.visible, im.mount, im.commits[id], None);
  }

  /** Conversion goes down the destination history, which has no cycles. */
  ghost predicate Descends(im: Import, ids: IdMap)
    requires im.mount != []
  {
    forall id <- ids, p <- Next(im, id) :: p in ids && ids[p] < ids[id]
  }

  lemma {:induction false} ImportDescends(im: Import, ids: IdMap, written: seq<Id>, grafts: seq<Id>, commits: seq<DestCommit>)
    requires im.mount != [] && Imports(im, ids, written, grafts, commits)
    ensures Descends(im, ids)
  {
    hide Written, Existing;
    forall id, p | id in ids && p in Next(im, id) ensures p in ids && ids[p] < ids[id] {
      assert id !in Start(im) && id in im.commits;
      if id in written {
        ImportIsGraphMap(im, ids, written, grafts, commits, id);
      } else {
        assert IsGraft(im, ids, id);
        var parents := MapAll(ids, im.commits[id].parents);
        assert ids[id] in Candidates(im.resolve, im.indexed, im.mount, im.commits[id], parents);
      }
      var i :| 0 <= i < |im.commits[id].parents| && im.commits[id].parents[i] == p;
      assert ids[id].parents[i] == ids[p];
    }
  }

  lemma {:induction false} PathDescends(im: Import, ids: IdMap, path: seq<Id>)
    requires im.mount != [] && Descends(im, ids)
    requires |path| >= 2 && path[0] in ids && IsPath((id: Id) => Next(im, id), path)
    ensures path[|path| - 1] in ids && ids[path[|path| - 1]] < ids[path[0]]
    decreases |path|
  {
    hide Next;
    var n := |path| - 1;
    var next := (id: Id) => Next(im, id);
    assert path[n] in next(path[n - 1]);
    if n >= 2 {
      assert IsPath(next, path[..n]);
      PathDescends(im, ids, path[..n]);
    }
  }

  /** So a graph that can be converted has no cycle among the commits that have to be. */
  lemma {:induction false} ConvertedIsAcyclic(im: Import, ids: IdMap, id: Id)
    requires im.mount != [] && Descends(im, ids) && id in ids
    ensures !Leads((id: Id) => Next(im, id), id, id)
  {
    hide Descends, Next;
    var next := (id: Id) => Next(im, id);
    if Leads(next, id, id) {
      var path: seq<Id> :| |path| >= 2 && path[0] == id && path[|path| - 1] == id && IsPath(next, path);
      PathDescends(im, ids, path);
    }
  }

  lemma {:induction false} ImportedIsAcyclic(im: Import, ids: IdMap, written: seq<Id>, grafts: seq<Id>, commits: seq<DestCommit>, id: Id)
    requires im.mount != [] && Imports(im, ids, written, grafts, commits) && id in ids
    ensures !Leads((id: Id) => Next(im, id), id, id)
  {
    hide Imports, Next;
    ImportDescends(im, ids, written, grafts, commits);
    ConvertedIsAcyclic(im, ids, id);
  }

  lemma ImportsAligned(im: Import, ids: IdMap, written: seq<Id>, grafts: seq<Id>, commits: seq<DestCommit>, k: nat)
    requires im.mount != [] && Imports(im, ids, written, grafts, commits) && k < |commits|
    ensures k < |written| && written[k] in ids && ids[written[k]] == commits[k] && written[k] !in Start(im)
  {
  }

  lemma SettledByVersion(im: Import, ids: IdMap, id: Id, c: DestCommit)
    requires im.mount != [] && id in im.commits && ExistingFor(im, id) == Found(c)
    ensures Settled(im, ids[id := c], id)
  {
  }

  lemma {:induction false} SettledByParents(im: Import, ids: IdMap, id: Id, c: DestCommit)
    requires im.mount != [] && id in im.commits && id !in ids && ParentsMapped(im, ids, id) && im.commits[id].parents != []
    requires ExistingFor(im, id).NotFound? && SettledOn(im, id, MapAll(ids, im.commits[id].parents), c)
    ensures Settled(im, ids[id := c], id)
    ensures Reuse(im, id, MapAll(ids, im.commits[id].parents)).NotFound? ==> IsNew(im, ids, id) && IsNew(im, ids[id := c], id)
  {
    hide SettledOn, Existing, Reuse;
    assert MapAll(ids[id := c], im.commits[id].parents) == MapAll(ids, im.commits[id].parents);
  }

  lemma OpenHasNoVersion(im: Import, id: Id)
    requires im.mount != [] && id in im.commits && Next(im, id) != []
    ensures id !in Start(im) && ExistingFor(im, id).NotFound?
  {
  }

  lemma StartIsMapped(im: Import, ids: IdMap, written: seq<Id>, grafts: seq<Id>, commits: seq<DestCommit>)
    requires im.mount != [] && Imports(im, ids, written, grafts, commits)
    ensures forall id <- Start(im) :: id in ids
  {
  }

  lemma NextIsParents(im: Import, id: Id)
    requires im.mount != [] && id in im.commits && id !in Start(im) && ExistingFor(im, id).NotFound?
    ensures Next(im, id) == im.commits[id].parents
  {
  }

  lemma OpenIsUnmatched(im: Import, id: Id)
    requires im.mount != [] && id in im.commits && ExistingFor(im, id).Found?
    ensures Next(im, id) == []
  {
  }
}
