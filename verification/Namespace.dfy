/**
 Importing projects into a namespace of names, labels, bindings and references. A batch of imports
 is first reserved against a scratch view, source by source, and only then merged into the real
 view; nothing that was there is overwritten, and no reference changes the project it belongs to.
 */
module Namespace {
  import opened Wrappers
  import Mounts

  /** A value that operations may leave unresolved: alternating added and removed terms. */
  datatype Merge<T(==)> = Merge(terms: seq<Option<T>>)
  {
    predicate Present() {
      terms != [None]
    }

    /** The values of the added terms. */
    function Adds(): set<T> {
      set i | 0 <= i < |terms| && i % 2 == 0 && terms[i].Some? :: terms[i].value
    }

    /** The values of all terms. */
    function Values(): set<T> {
      set i | 0 <= i < |terms| && terms[i].Some? :: terms[i].value
    }
  }

  function Resolved<T(==)>(x: T): Merge<T> {
    Merge([Some(x)])
  }

  type Path = seq<string>

  datatype Project = Project(name: string, path: Path)

  datatype Binding = Binding(project: nat, connection: nat)

  datatype ScopedName = ScopedName(project: nat, name: string)

  /**
   The parts of a view that imports share. `remoteRefs` names the remote references and observations,
   `gitRefs` the mirrored Git references, `remoteNames` the scoped name of each connection, and
   `remotes` the connection of each physical remote. Stored targets are present.
   */
  datatype View = View(
    bookmarks: map<string, nat>,
    tags: map<string, nat>,
    remoteRefs: set<string>,
    gitRefs: set<string>,
    projects: map<nat, Merge<Project>>,
    labels: map<string, Merge<nat>>,
    bindings: map<nat, Merge<Binding>>,
    remoteNames: map<nat, Merge<ScopedName>>,
    remotes: map<string, Merge<nat>>)

  // ----- Names and labels ----------------------------------------------------------------------

  /** What follows the last '#' of a name. */
  function Suffix(name: string): Option<string> {
    if name == "" then None
    else
      var rest := Suffix(name[1..]);
      if rest.Some? then rest else if name[0] == '#' then Some(name[1..]) else None
  }

  predicate IsLabel(s: string) {
    '#' !in s && '/' !in s
  }

  function LocalName(project: string, name: string): string {
    name + "#" + project
  }

  lemma {:induction false} SuffixNone(s: string)
    requires '#' !in s
    ensures Suffix(s) == None
  {
    if s != "" {
      SuffixNone(s[1..]);
    }
  }

  lemma {:induction false} SuffixOfLocalName(project: string, name: string)
    requires '#' !in project
    ensures Suffix(LocalName(project, name)) == Some(project)
  {
    if name == "" {
      assert LocalName(project, name)[1..] == project;
      SuffixNone(project);
    } else {
      assert LocalName(project, name)[1..] == LocalName(project, name[1..]);
      SuffixOfLocalName(project, name[1..]);
    }
  }

  lemma {:induction false} SuffixAfterPrefix(prefix: string, name: string)
    requires '#' !in prefix
    ensures Suffix(prefix + name) == Suffix(name)
  {
    if prefix == "" {
      assert prefix + name == name;
    } else {
      assert (prefix + name)[1..] == prefix[1..] + name;
      SuffixAfterPrefix(prefix[1..], name);
    }
  }

  predicate BelongsTo(tag: string, name: string) {
    var scoped := "#" + tag;
    |scoped| <= |name| && name[|name| - |scoped|..] == scoped
  }

  /** A name belongs to a label exactly when the label is its suffix. */
  lemma {:induction false} BelongsIsSuffix(tag: string, name: string)
    requires '#' !in tag
    ensures BelongsTo(tag, name) <==> Suffix(name) == Some(tag)
  {
    if BelongsTo(tag, name) {
      var head := name[..|name| - |tag| - 1];
      assert name == LocalName(tag, head);
      SuffixOfLocalName(tag, head);
    }
    if Suffix(name) == Some(tag) {
      SuffixIsTail(name);
    }
  }

  lemma {:induction false} BelongsBelow(tag: string, name: string)
    requires name != "" && BelongsTo(tag, name[1..])
    ensures BelongsTo(tag, name)
  {
    var scoped := "#" + tag;
    assert name[1..][|name| - 1 - |scoped|..] == name[|name| - |scoped|..];
  }

  lemma {:induction false} SuffixIsTail(name: string)
    requires Suffix(name).Some?
    ensures BelongsTo(Suffix(name).value, name)
  {
    var rest := Suffix(name[1..]);
    if rest.Some? {
      SuffixIsTail(name[1..]);
      BelongsBelow(rest.value, name);
    } else {
      assert name == "#" + name[1..];
    }
  }

  /** The project, if any, that a reference belongs to: the one its suffix is a live label of. */
  function Owner(labels: map<string, Merge<nat>>, name: string): Option<Merge<nat>> {
    var tag := Suffix(name);
    if tag.Some? && tag.value in labels && labels[tag.value].Present() then Some(labels[tag.value]) else None
  }

  function RefNames(v: View): set<string> {
    v.bookmarks.Keys + v.tags.Keys + v.remoteRefs + v.gitRefs
  }

  // ----- Identities ----------------------------------------------------------------------------

  function ProjectIds(v: View): set<nat> {
    v.projects.Keys
    + (set l, id | l in v.labels && id in v.labels[l].Values() :: id)
    + (set c, n | c in v.remoteNames && n in v.remoteNames[c].Values() :: n.project)
    + (set k, b | k in v.bindings && b in v.bindings[k].Values() :: b.project)
  }

  function ConnectionIds(v: View): set<nat> {
    v.remoteNames.Keys
    + (set r, c | r in v.remotes && c in v.remotes[r].Values() :: c)
    + (set k, b | k in v.bindings && b in v.bindings[k].Values() :: b.connection)
  }

  // ----- Registering a nested project -------------------------------------------------------------

  predicate NameAndPathFree(v: View, name: string, path: Path) {
    forall id <- v.projects :: forall p <- v.projects[id].Adds() :: p.name != name && p.path != path
  }

  /** A label may be claimed if it is not live and no literal reference ends in it. */
  predicate LabelFree(v: View, tag: string) {
    && (tag in v.labels ==> !v.labels[tag].Present())
    && forall r <- RefNames(v) :: !BelongsTo(tag, r)
  }

  predicate Registrable(v: View, name: string, path: Path) {
    IsLabel(name) && path != [] && NameAndPathFree(v, name, path) && LabelFree(v, name)
  }

  /** The ids that a nested import generates. */
  datatype Made = Made(project: nat, binding: nat, connection: nat)

  /** The metadata that a nested import reserves. */
  function OuterPlan(name: string, path: Path, made: Made): View {
    View(map[], map[], {}, {},
         map[made.project := Resolved(Project(name, path))],
         map[name := Resolved(made.project)],
         map[made.binding := Resolved(Binding(made.project, made.connection))],
         map[], map[])
  }

  /** The references of a nested import, scoped to its label, with rewritten targets. */
  function ScopedRefs(project: string, refs: map<string, nat>, ids: nat -> nat): map<string, nat> {
    LocalNamesDiffer(project);
    map r | r in refs :: LocalName(project, r) := ids(refs[r])
  }

  lemma {:induction false} LocalNamesDiffer(project: string)
    ensures forall a, b {:trigger LocalName(project, a), LocalName(project, b)} ::
              LocalName(project, a) == LocalName(project, b) ==> a == b
  {
    forall a, b | LocalName(project, a) == LocalName(project, b) ensures a == b {
      assert a == LocalName(project, a)[..|LocalName(project, a)| - 1 - |project|];
      assert b == LocalName(project, b)[..|LocalName(project, b)| - 1 - |project|];
    }
  }

  // ----- Preserving the projects of a source ------------------------------------------------------

  predicate Live(labels: map<string, Merge<nat>>, name: string) {
    Owner(labels, name).Some?
  }

  /** Project references keep their names; other references move under the source's name. */
  function MapName(source: View, name: string, reference: string): string {
    if Live(source.labels, reference) then reference else name + "/" + reference
  }

  lemma {:induction false} MapNameSuffix(source: View, name: string, reference: string)
    requires IsLabel(name)
    ensures Suffix(MapName(source, name, reference)) == Suffix(reference)
  {
    SuffixAfterPrefix(name + "/", reference);
  }

  /** The renaming is injective. */
  lemma {:induction false} MapNameIsInjective(source: View, name: string, a: string, b: string)
    requires IsLabel(name) && MapName(source, name, a) == MapName(source, name, b)
    ensures a == b
  {
    MapNameSuffix(source, name, a);
    MapNameSuffix(source, name, b);
    if !Live(source.labels, a) {
      assert a == (name + "/" + a)[|name| + 1..];
      assert b == (name + "/" + b)[|name| + 1..];
    }
  }

  lemma {:induction false} MapNamesDiffer(source: View, name: string)
    requires IsLabel(name)
    ensures forall a, b {:trigger MapName(source, name, a), MapName(source, name, b)} ::
              MapName(source, name, a) == MapName(source, name, b) ==> a == b
  {
    forall a, b | MapName(source, name, a) == MapName(source, name, b) ensures a == b {
      MapNameIsInjective(source, name, a, b);
    }
  }

  function Renamed(source: View, name: string, refs: map<string, nat>, ids: nat -> nat): map<string, nat>
    requires IsLabel(name)
  {
    MapNamesDiffer(source, name);
    map r | r in refs :: MapName(source, name, r) := ids(refs[r])
  }

  function Mounted(m: Merge<Project>, mount: Path): Merge<Project> {
    Merge(seq(|m.terms|, i requires 0 <= i < |m.terms| =>
      match m.terms[i]
      case None => None
      case Some(p) => Some(p.(path := mount + p.path))))
  }

  /** The fragment of a preserved import. `remotes` holds the source's remotes under their new names. */
  function PreservedPlan(source: View, name: string, mount: Path, remotes: map<string, Merge<nat>>, ids: nat -> nat): View
    requires IsLabel(name)
  {
    View(Renamed(source, name, source.bookmarks, ids), Renamed(source, name, source.tags, ids),
         set r | r in source.remoteRefs :: MapName(source, name, r), {},
         map id | id in source.projects :: Mounted(source.projects[id], mount),
         source.labels, source.bindings, source.remoteNames, remotes)
  }

  predicate IdsDisjoint(source: View, destination: View) {
    && ProjectIds(source) !! ProjectIds(destination)
    && source.bindings.Keys !! destination.bindings.Keys
    && ConnectionIds(source) !! ConnectionIds(destination)
  }

  predicate LabelsAvailable(source: View, destination: View) {
    forall l <- source.labels ::
      && l !in destination.labels
      && (source.labels[l].Present() ==> forall r <- RefNames(destination) :: Suffix(r) != Some(l))
  }

  /** No renamed literal of the source looks like a reference of a destination project. */
  predicate LiteralsStayLiteral(source: View, destination: View) {
    forall r <- source.bookmarks.Keys + source.tags.Keys + source.remoteRefs ::
      Live(source.labels, r) || !Live(destination.labels, r)
  }

  /** Everything a preserved import is checked for against the reserved namespace. */
  predicate Preservable(source: View, reserved: View, name: string, mount: Path, remotes: map<string, Merge<nat>>) {
    && IsLabel(name) && mount != []
    && IdsDisjoint(source, reserved) && LabelsAvailable(source, reserved) && LiteralsStayLiteral(source, reserved)
    && var plan := PreservedPlan(source, name, mount, remotes, x => x);
    && (forall id <- plan.projects :: forall p <- plan.projects[id].Adds() :: NameAndPathFree(reserved, p.name, p.path))
    && plan.bookmarks.Keys !! reserved.bookmarks.Keys
    && plan.tags.Keys !! reserved.tags.Keys
    && remotes.Keys !! reserved.remotes.Keys
  }

  // ----- One source of a batch ------------------------------------------------------------------

  /** A source, its generated ids or renamed remotes, and the commit ids its graph is rewritten to. */
  datatype Source =
    | Nested(name: string, path: Path, made: Made, view: View, ids: nat -> nat)
    | Preserved(name: string, path: Path, remotes: map<string, Merge<nat>>, view: View, ids: nat -> nat)

  /** Generated ids collide with nothing; everything else is checked. */
  predicate Reservable(reserved: View, s: Source) {
    match s
    case Nested(name, path, made, _, _) =>
      Registrable(reserved, name, path) && made.project !in ProjectIds(reserved) && made.binding !in reserved.bindings
    case Preserved(name, path, remotes, view, _) => Preservable(view, reserved, name, path, remotes)
  }

  /** What a source reserves: the references of a nested import are not among it. */
  function Reservation(s: Source): View
    requires IsLabel(s.name)
  {
    match s
    case Nested(name, path, made, _, _) => OuterPlan(name, path, made)
    case Preserved(name, path, remotes, view, _) => PreservedPlan(view, name, path, remotes, x => x)
  }

  /** What a source adds to the published view. */
  function Fragment(s: Source): View
    requires IsLabel(s.name)
  {
    match s
    case Nested(name, path, made, view, ids) =>
      OuterPlan(name, path, made).(bookmarks := ScopedRefs(name, view.bookmarks, ids), tags := ScopedRefs(name, view.tags, ids))
    case Preserved(name, path, remotes, view, ids) => PreservedPlan(view, name, path, remotes, ids)
  }

  function Extended(v: View, plan: View): View {
    View(v.bookmarks + plan.bookmarks, v.tags + plan.tags, v.remoteRefs + plan.remoteRefs, v.gitRefs + plan.gitRefs,
         v.projects + plan.projects, v.labels + plan.labels, v.bindings + plan.bindings,
         v.remoteNames + plan.remoteNames, v.remotes + plan.remotes)
  }

  /** The name under which a reference of a source is published. */
  function PublishedName(s: Source, reference: string): string {
    if s.Nested? then LocalName(s.name, reference) else MapName(s.view, s.name, reference)
  }

  /** The project that a published reference should belong to. */
  function IntendedOwner(s: Source, reference: string): Option<Merge<nat>> {
    if s.Nested? then Some(Resolved(s.made.project)) else Owner(s.view.labels, reference)
  }

  function SourceRefs(s: Source): set<string> {
    s.view.bookmarks.Keys + s.view.tags.Keys + if s.Nested? then {} else s.view.remoteRefs
  }

  // ----- What an extension keeps ------------------------------------------------------------------

  /** `plan` can be added to `v` without replacing anything live. */
  ghost predicate Disjoint(v: View, plan: View) {
    && v.bookmarks.Keys !! plan.bookmarks.Keys && v.tags.Keys !! plan.tags.Keys
    && v.projects.Keys !! plan.projects.Keys && v.bindings.Keys !! plan.bindings.Keys
    && v.remoteNames.Keys !! plan.remoteNames.Keys && v.remotes.Keys !! plan.remotes.Keys
    && forall l <- plan.labels :: l in v.labels ==> !v.labels[l].Present()
  }

  /** Everything live in `v` is in `later`, with the same value. */
  ghost predicate Keeps(v: View, later: View) {
    && Submap(v.bookmarks, later.bookmarks) && Submap(v.tags, later.tags)
    && v.remoteRefs <= later.remoteRefs && v.gitRefs <= later.gitRefs
    && Submap(v.projects, later.projects) && Submap(v.bindings, later.bindings)
    && Submap(v.remoteNames, later.remoteNames) && Submap(v.remotes, later.remotes)
    && forall l <- v.labels :: v.labels[l].Present() ==> l in later.labels && later.labels[l] == v.labels[l]
  }

  /** Every reference of `v` still belongs to the project it belonged to, if any. */
  ghost predicate KeepsOwners(v: View, later: View) {
    forall r <- RefNames(v) :: Owner(later.labels, r) == Owner(v.labels, r)
  }

  lemma ExtendingKeeps(v: View, plan: View)
    requires Disjoint(v, plan)
    ensures Keeps(v, Extended(v, plan)) && Keeps(plan, Extended(v, plan))
  {
  }

  lemma KeepingIsReflexive(v: View)
    ensures Keeps(v, v) && KeepsOwners(v, v)
  {
  }

  lemma {:induction false} KeepingIsTransitive(a: View, b: View, c: View)
    requires Keeps(a, b) && Keeps(b, c)
    ensures Keeps(a, c)
    ensures KeepsOwners(a, b) && KeepsOwners(b, c) ==> KeepsOwners(a, c)
  {
    assert RefNames(a) <= RefNames(b);
  }

  // ----- One step ----------------------------------------------------------------------------------

  predicate ScopedIn(name: string, scopes: set<string>) {
    Suffix(name).Some? && Suffix(name).value in scopes
  }

  function ScopesAfter(scopes: set<string>, s: Source): set<string> {
    if s.Nested? then scopes + {s.name} else scopes
  }

  /**
   The published view has the reserved names and, beyond them, only references scoped to a label of
   `scopes`. Those labels are live, and no reserved reference ends in one.
   */
  ghost predicate InStep(reserved: View, v: View, scopes: set<string>) {
    && v.projects == reserved.projects && v.labels == reserved.labels && v.bindings == reserved.bindings
    && v.remoteNames == reserved.remoteNames && v.remotes == reserved.remotes
    && v.remoteRefs == reserved.remoteRefs && v.gitRefs == reserved.gitRefs
    && (forall l <- scopes :: l in reserved.labels && reserved.labels[l].Present())
    && (forall r <- v.bookmarks.Keys - reserved.bookmarks.Keys :: ScopedIn(r, scopes))
    && (forall r <- v.tags.Keys - reserved.tags.Keys :: ScopedIn(r, scopes))
    && reserved.bookmarks.Keys <= v.bookmarks.Keys && reserved.tags.Keys <= v.tags.Keys
  }

  /** No reserved reference ends in a label that the source claims. */
  lemma {:induction false} ClaimsNothingInUse(reserved: View, s: Source, r: string)
    requires Reservable(reserved, s) && r in RefNames(reserved)
    ensures !Live(Reservation(s).labels, r)
  {
    if s.Nested? {
      BelongsIsSuffix(s.name, r);
    }
  }

  /** A label that the source claims was not live. */
  lemma ClaimsNoLiveLabel(reserved: View, s: Source, l: string)
    requires Reservable(reserved, s) && l in Reservation(s).labels && l in reserved.labels
    ensures !reserved.labels[l].Present()
  {
  }

  /** The references that a source publishes end in no label that was live before. */
  lemma {:induction false} PublishedAreNotScoped(reserved: View, s: Source, r: string)
    requires Reservable(reserved, s) && r in SourceRefs(s)
    ensures !Live(reserved.labels, PublishedName(s, r))
  {
    if s.Nested? {
      SuffixOfLocalName(s.name, r);
    } else {
      MapNameSuffix(s.view, s.name, r);
    }
  }

  /** A published reference belongs to the project it should. */
  lemma {:induction false} PublishedOwner(reserved: View, s: Source, r: string)
    requires Reservable(reserved, s) && r in SourceRefs(s)
    ensures Owner(Extended(reserved, Reservation(s)).labels, PublishedName(s, r)) == IntendedOwner(s, r)
  {
    PublishedAreNotScoped(reserved, s, r);
    if s.Nested? {
      SuffixOfLocalName(s.name, r);
    } else {
      MapNameSuffix(s.view, s.name, r);
    }
  }

  lemma FragmentRefs(s: Source)
    requires IsLabel(s.name)
    ensures forall r <- Fragment(s).bookmarks :: exists x <- s.view.bookmarks :: r == PublishedName(s, x)
    ensures forall r <- Fragment(s).tags :: exists x <- s.view.tags :: r == PublishedName(s, x)
    ensures s.Preserved? ==> Fragment(s).bookmarks.Keys == Reservation(s).bookmarks.Keys && Fragment(s).tags.Keys == Reservation(s).tags.Keys
  {
  }

  lemma {:induction false} FragmentIsUnused(reserved: View, s: Source, r: string)
    requires Reservable(reserved, s)
    ensures r in Fragment(s).bookmarks ==> r !in reserved.bookmarks && !Live(reserved.labels, r)
    ensures r in Fragment(s).tags ==> r !in reserved.tags && !Live(reserved.labels, r)
  {
    hide Suffix, MapName, NameAndPathFree, IdsDisjoint;
    FragmentRefs(s);
    if r in Fragment(s).bookmarks || r in Fragment(s).tags {
      var x :| x in SourceRefs(s) && r == PublishedName(s, x);
      PublishedAreNotScoped(reserved, s, x);
      if s.Nested? {
        SuffixOfLocalName(s.name, x);
        BelongsIsSuffix(s.name, r);
      }
    }
  }

  lemma {:induction false} ReservationIsDisjoint(reserved: View, s: Source)
    requires Reservable(reserved, s)
    ensures Disjoint(reserved, Reservation(s))
  {
    hide Suffix, MapName, NameAndPathFree, BelongsTo;
  }

  lemma {:induction false} FragmentIsReservation(s: Source)
    requires IsLabel(s.name)
    ensures Fragment(s) == Reservation(s).(bookmarks := Fragment(s).bookmarks, tags := Fragment(s).tags)
    ensures Reservation(s).bookmarks.Keys <= Fragment(s).bookmarks.Keys
    ensures Reservation(s).tags.Keys <= Fragment(s).tags.Keys
    ensures forall r <- Fragment(s).bookmarks.Keys - Reservation(s).bookmarks.Keys :: ScopedIn(r, ScopesAfter({}, s))
    ensures forall r <- Fragment(s).tags.Keys - Reservation(s).tags.Keys :: ScopedIn(r, ScopesAfter({}, s))
    ensures s.Nested? ==> s.name in Reservation(s).labels && Reservation(s).labels[s.name].Present()
  {
    hide Suffix, MapName, Mounted;
    FragmentRefs(s);
    if s.Nested? {
      forall x ensures ScopedIn(LocalName(s.name, x), ScopesAfter({}, s)) {
        SuffixOfLocalName(s.name, x);
      }
    }
  }

  lemma ReservableHasLabel(reserved: View, s: Source)
    requires Reservable(reserved, s)
    ensures IsLabel(s.name)
  {
  }

  lemma {:induction false} StepIsDisjoint(reserved: View, v: View, scopes: set<string>, s: Source)
    requires InStep(reserved, v, scopes) && Reservable(reserved, s)
    ensures Disjoint(v, Fragment(s))
  {
    hide Reservable, Reservation, Fragment, Suffix;
    ReservableHasLabel(reserved, s);
    FragmentIsReservation(s);
    ReservationIsDisjoint(reserved, s);
    forall r | r in Fragment(s).bookmarks
      ensures r !in v.bookmarks
    {
      FragmentIsUnused(reserved, s, r);
      assert r !in v.bookmarks.Keys - reserved.bookmarks.Keys;
    }
    forall r | r in Fragment(s).tags
      ensures r !in v.tags
    {
      FragmentIsUnused(reserved, s, r);
      assert r !in v.tags.Keys - reserved.tags.Keys;
    }
  }

  lemma {:induction false} StepStaysInStep(reserved: View, v: View, scopes: set<string>, s: Source)
    requires InStep(reserved, v, scopes) && Reservable(reserved, s)
    ensures InStep(Extended(reserved, Reservation(s)), Extended(v, Fragment(s)), ScopesAfter(scopes, s))
  {
    hide Reservable, Reservation, Fragment, Suffix;
    ReservableHasLabel(reserved, s);
    FragmentIsReservation(s);
    forall l | l in scopes ensures l !in Reservation(s).labels {
      if l in Reservation(s).labels {
        ClaimsNoLiveLabel(reserved, s, l);
      }
    }
    forall r | ScopedIn(r, scopes) || ScopedIn(r, ScopesAfter({}, s)) ensures ScopedIn(r, ScopesAfter(scopes, s)) {
    }
  }

  lemma {:induction false} StepKeepsOwners(reserved: View, v: View, scopes: set<string>, s: Source)
    requires InStep(reserved, v, scopes) && Reservable(reserved, s)
    ensures KeepsOwners(v, Extended(v, Fragment(s)))
  {
    hide Reservable, Reservation, Fragment, Suffix;
    ReservableHasLabel(reserved, s);
    FragmentIsReservation(s);
    var claimed := Reservation(s).labels;
    forall l | l in claimed && l in reserved.labels ensures !reserved.labels[l].Present() {
      ClaimsNoLiveLabel(reserved, s, l);
    }
    forall r | r in RefNames(reserved) ensures !Live(claimed, r) {
      ClaimsNothingInUse(reserved, s, r);
    }
    forall r | r in RefNames(v)
      ensures Owner(v.labels + claimed, r) == Owner(v.labels, r)
    {
      assert r in RefNames(reserved) || ScopedIn(r, scopes);
    }
  }

  // ----- A whole batch ---------------------------------------------------------------------------

  /** Every source is reservable after the ones before it. */
  predicate AllReservable(base: View, sources: seq<Source>)
    decreases |sources|
  {
    sources == [] || (Reservable(base, sources[0]) && AllReservable(Extended(base, Reservation(sources[0])), sources[1..]))
  }

  function Published(base: View, sources: seq<Source>): View
    requires forall s <- sources :: IsLabel(s.name)
    decreases |sources|
  {
    if sources == [] then base else Published(Extended(base, Fragment(sources[0])), sources[1..])
  }

  lemma {:induction false} ReservableHaveLabels(base: View, sources: seq<Source>)
    requires AllReservable(base, sources)
    ensures forall s <- sources :: IsLabel(s.name)
    decreases |sources|
  {
    hide Reservable;
    if sources != [] {
      ReservableHasLabel(base, sources[0]);
    }
    if sources != [] {
      ReservableHaveLabels(Extended(base, Reservation(sources[0])), sources[1..]);
    }
  }

  /** Publishing the rest of a batch that is in step with its reservations keeps everything. */
  lemma {:induction false} BatchKeeps(reserved: View, v: View, scopes: set<string>, sources: seq<Source>)
    requires InStep(reserved, v, scopes) && AllReservable(reserved, sources)
    requires forall s <- sources :: IsLabel(s.name)
    ensures Keeps(v, Published(v, sources)) && KeepsOwners(v, Published(v, sources))
    decreases |sources|
  {
    hide Keeps, KeepsOwners, InStep, Reservable, Disjoint, Extended, Fragment, Reservation, ScopesAfter, IsLabel;
    if sources == [] {
      KeepingIsReflexive(v);
    } else {
      var s := sources[0];
      var next := Extended(v, Fragment(s));
      StepIsDisjoint(reserved, v, scopes, s);
      StepStaysInStep(reserved, v, scopes, s);
      StepKeepsOwners(reserved, v, scopes, s);
      ExtendingKeeps(v, Fragment(s));
      BatchKeeps(Extended(reserved, Reservation(s)), next, ScopesAfter(scopes, s), sources[1..]);
      KeepingIsTransitive(v, next, Published(v, sources));
    }
  }

  /** Each source of the batch is published in full, each reference under its intended project. */
  lemma {:induction false} BatchPublishes(reserved: View, v: View, scopes: set<string>, sources: seq<Source>, k: nat)
    requires InStep(reserved, v, scopes) && AllReservable(reserved, sources) && k < |sources|
    requires forall s <- sources :: IsLabel(s.name)
    ensures Keeps(Fragment(sources[k]), Published(v, sources))
    ensures forall r <- SourceRefs(sources[k]) ::
              Owner(Published(v, sources).labels, PublishedName(sources[k], r)) == IntendedOwner(sources[k], r)
    decreases k
  {
    hide Keeps, KeepsOwners, InStep, Reservable, Disjoint, Owner, IntendedOwner, Extended, Fragment, Reservation,
      ScopesAfter, IsLabel, SourceRefs, PublishedName;
    var s := sources[0];
    var next := Extended(v, Fragment(s));
    var nextReserved := Extended(reserved, Reservation(s));
    StepStaysInStep(reserved, v, scopes, s);
    if k > 0 {
      BatchPublishes(nextReserved, next, ScopesAfter(scopes, s), sources[1..], k - 1);
    } else {
      StepIsDisjoint(reserved, v, scopes, s);
      ExtendingKeeps(v, Fragment(s));
      BatchKeeps(nextReserved, next, ScopesAfter(scopes, s), sources[1..]);
      KeepingIsTransitive(Fragment(s), next, Published(v, sources));
      forall r | r in SourceRefs(s)
        ensures Owner(Published(v, sources).labels, PublishedName(s, r)) == IntendedOwner(s, r)
      {
        PublishedOwner(reserved, s, r);
        OwnerLasts(nextReserved, next, ScopesAfter(scopes, s), s, r, Published(v, sources));
      }
    }
  }

  lemma {:induction false} OwnerLasts(reserved: View, next: View, scopes: set<string>, s: Source, r: string, later: View)
    requires IsLabel(s.name) && InStep(reserved, next, scopes) && Keeps(Fragment(s), next) && KeepsOwners(next, later)
    requires r in SourceRefs(s)
    ensures Owner(later.labels, PublishedName(s, r)) == Owner(reserved.labels, PublishedName(s, r))
  {
    hide Suffix, Owner, MapName;
    PublishedIsInFragment(s, r);
  }

  lemma {:induction false} PublishedIsInFragment(s: Source, r: string)
    requires IsLabel(s.name) && r in SourceRefs(s)
    ensures PublishedName(s, r) in RefNames(Fragment(s))
  {
    hide Suffix, MapName;
  }

  lemma StartsInStep(base: View)
    ensures InStep(base, base, {})
  {
  }

  /**
   A batch that reservation accepts overwrites nothing live of the destination, publishes every
   source in full, and leaves every reference, old or new, with the project it belongs to.
   */
  lemma {:induction false} ImportIsConservative(base: View, sources: seq<Source>)
    requires AllReservable(base, sources)
    ensures forall s <- sources :: IsLabel(s.name)
    ensures Keeps(base, Published(base, sources)) && KeepsOwners(base, Published(base, sources))
    ensures forall s <- sources :: Keeps(Fragment(s), Published(base, sources))
    ensures forall s <- sources :: forall r <- SourceRefs(s) ::
              Owner(Published(base, sources).labels, PublishedName(s, r)) == IntendedOwner(s, r)
  {
    hide Keeps, KeepsOwners, InStep, AllReservable, Owner, IntendedOwner;
    ReservableHaveLabels(base, sources);
    StartsInStep(base);
    BatchKeeps(base, base, {}, sources);
    forall k | 0 <= k < |sources|
      ensures Keeps(Fragment(sources[k]), Published(base, sources))
      ensures forall r <- SourceRefs(sources[k]) ::
                Owner(Published(base, sources).labels, PublishedName(sources[k], r)) == IntendedOwner(sources[k], r)
    {
      BatchPublishes(base, base, {}, sources, k);
    }
  }

  // ----- What is published, said outright -----------------------------------------------------------

  /** The records of a source are there: a new project with its binding, or the source's own, moved under the mount. */
  ghost predicate RecordsPublished(s: Source, v: View) {
    match s
    case Nested(name, path, made, _, _) =>
      && made.project in v.projects && v.projects[made.project] == Resolved(Project(name, path))
      && name in v.labels && v.labels[name] == Resolved(made.project)
      && made.binding in v.bindings && v.bindings[made.binding] == Resolved(Binding(made.project, made.connection))
    case Preserved(_, path, remotes, view, _) =>
      && (forall id <- view.projects :: id in v.projects && MovedUnder(view.projects[id], path, v.projects[id]))
      && (forall l <- view.labels :: view.labels[l].Present() ==> l in v.labels && v.labels[l] == view.labels[l])
      && Submap(view.bindings, v.bindings) && Submap(view.remoteNames, v.remoteNames) && Submap(remotes, v.remotes)
      && forall r <- view.remoteRefs :: PublishedName(s, r) in v.remoteRefs
  }

  /** Every term of a definition keeps its name, and its path is below the mount. */
  ghost predicate MovedUnder(m: Merge<Project>, mount: Path, moved: Merge<Project>) {
    && |moved.terms| == |m.terms|
    && forall k | 0 <= k < |m.terms| ::
         moved.terms[k] == if m.terms[k].None? then None else Some(Project(m.terms[k].value.name, mount + m.terms[k].value.path))
  }

  /** Every reference of the source is there, at the commit that its target was rewritten to. */
  ghost predicate TargetsPublished(s: Source, v: View) {
    && (forall r <- s.view.bookmarks :: PublishedName(s, r) in v.bookmarks && v.bookmarks[PublishedName(s, r)] == s.ids(s.view.bookmarks[r]))
    && (forall r <- s.view.tags :: PublishedName(s, r) in v.tags && v.tags[PublishedName(s, r)] == s.ids(s.view.tags[r]))
  }

  function BookmarkNames(s: Source): set<string> {
    set r | r in s.view.bookmarks :: PublishedName(s, r)
  }

  function TagNames(s: Source): set<string> {
    set r | r in s.view.tags :: PublishedName(s, r)
  }

  /** No reference is there that neither was before nor comes from a source. */
  ghost predicate NothingElse(base: View, sources: seq<Source>, v: View) {
    && (forall b <- v.bookmarks :: b in base.bookmarks || exists s <- sources :: b in BookmarkNames(s))
    && (forall b <- v.tags :: b in base.tags || exists s <- sources :: b in TagNames(s))
  }

  lemma {:induction false} ScopedTargets(project: string, refs: map<string, nat>, ids: nat -> nat, r: string)
    requires r in refs
    ensures LocalName(project, r) in ScopedRefs(project, refs, ids) && ScopedRefs(project, refs, ids)[LocalName(project, r)] == ids(refs[r])
  {
    hide LocalName;
    LocalNamesDiffer(project);
  }

  lemma {:induction false} RenamedTargets(source: View, name: string, refs: map<string, nat>, ids: nat -> nat, r: string)
    requires IsLabel(name) && r in refs
    ensures MapName(source, name, r) in Renamed(source, name, refs, ids) && Renamed(source, name, refs, ids)[MapName(source, name, r)] == ids(refs[r])
  {
    hide MapName;
    MapNamesDiffer(source, name);
  }

  lemma {:induction false} FragmentTarget(s: Source, r: string)
    requires IsLabel(s.name)
    ensures r in s.view.bookmarks ==>
              PublishedName(s, r) in Fragment(s).bookmarks && Fragment(s).bookmarks[PublishedName(s, r)] == s.ids(s.view.bookmarks[r])
    ensures r in s.view.tags ==> PublishedName(s, r) in Fragment(s).tags && Fragment(s).tags[PublishedName(s, r)] == s.ids(s.view.tags[r])
  {
    hide LocalName, MapName, Mounted, ScopedRefs, Renamed;
    if r in s.view.bookmarks {
      if s.Nested? {
        ScopedTargets(s.name, s.view.bookmarks, s.ids, r);
      } else {
        RenamedTargets(s.view, s.name, s.view.bookmarks, s.ids, r);
      }
    }
    if r in s.view.tags {
      if s.Nested? {
        ScopedTargets(s.name, s.view.tags, s.ids, r);
      } else {
        RenamedTargets(s.view, s.name, s.view.tags, s.ids, r);
      }
    }
  }

  lemma {:induction false} FragmentTargets(s: Source)
    requires IsLabel(s.name)
    ensures TargetsPublished(s, Fragment(s))
  {
    hide Fragment, PublishedName;
    forall r: string {
      FragmentTarget(s, r);
    }
  }

  lemma {:induction false} FragmentRecords(s: Source)
    requires IsLabel(s.name)
    ensures RecordsPublished(s, Fragment(s))
  {
    hide LocalName, MapName, Renamed, ScopedRefs;
  }

  lemma {:induction false} KeptIsPublished(s: Source, v: View)
    requires IsLabel(s.name) && Keeps(Fragment(s), v)
    ensures TargetsPublished(s, v) && RecordsPublished(s, v)
  {
    hide Fragment, PublishedName, Resolved, MovedUnder;
    FragmentTargets(s);
    FragmentRecords(s);
    ResolvedIsPresent(s);
  }

  lemma ResolvedIsPresent(s: Source)
    ensures s.Nested? ==> Resolved(s.made.project).Present()
  {
  }

  lemma {:induction false} FragmentNames(s: Source)
    requires IsLabel(s.name)
    ensures Fragment(s).bookmarks.Keys <= BookmarkNames(s) && Fragment(s).tags.Keys <= TagNames(s)
  {
    hide Fragment, PublishedName;
    FragmentRefs(s);
  }

  lemma {:induction false} NothingElseIsPublished(base: View, sources: seq<Source>)
    requires forall s <- sources :: IsLabel(s.name)
    ensures NothingElse(base, sources, Published(base, sources))
    decreases |sources|
  {
    hide Fragment, IsLabel, BookmarkNames, TagNames, NothingElse, Extended;
    if sources == [] {
      NothingIsAdded(base, sources);
    } else {
      FragmentNames(sources[0]);
      NothingElseIsPublished(Extended(base, Fragment(sources[0])), sources[1..]);
      NothingElseBefore(base, sources, Published(base, sources));
    }
  }

  lemma NothingIsAdded(base: View, sources: seq<Source>)
    ensures NothingElse(base, sources, base)
  {
  }

  lemma {:induction false} NothingElseBefore(base: View, sources: seq<Source>, v: View)
    requires sources != [] && IsLabel(sources[0].name) && NothingElse(Extended(base, Fragment(sources[0])), sources[1..], v)
    requires Fragment(sources[0]).bookmarks.Keys <= BookmarkNames(sources[0]) && Fragment(sources[0]).tags.Keys <= TagNames(sources[0])
    ensures NothingElse(base, sources, v)
  {
    hide Fragment, IsLabel, BookmarkNames, TagNames;
    var s := sources[0];
    assert s in sources && forall t <- sources[1..] :: t in sources;
  }

  /**
   An accepted batch publishes exactly this: each reference of each source at its rewritten commit,
   each record of each source, and no other reference.
   */
  lemma {:induction false} ImportPublishesExactly(base: View, sources: seq<Source>)
    requires AllReservable(base, sources)
    ensures forall s <- sources :: IsLabel(s.name)
    ensures forall s <- sources :: TargetsPublished(s, Published(base, sources)) && RecordsPublished(s, Published(base, sources))
    ensures NothingElse(base, sources, Published(base, sources))
  {
    hide Keeps, KeepsOwners, AllReservable, TargetsPublished, RecordsPublished, NothingElse, Published;
    ImportIsConservative(base, sources);
    forall s | s in sources ensures TargetsPublished(s, Published(base, sources)) && RecordsPublished(s, Published(base, sources)) {
      KeptIsPublished(s, Published(base, sources));
    }
    NothingElseIsPublished(base, sources);
  }

  // ----- Identities and mounts, said outright ---------------------------------------------------------

  /** Of a conflict, only the added sides are claims; all sides are identities. */
  lemma {:induction false} ConflictSides<T>(a: T, b: T, c: T)
    ensures Merge([Some(a), Some(b), Some(c)]).Adds() == {a, c} && Merge([Some(a), Some(b), Some(c)]).Values() == {a, b, c}
    ensures Merge([Some(a), Some(b), Some(c)]).Present() && Resolved(a).Present()
    ensures forall m: Merge<T> :: !m.Present() <==> |m.terms| == 1 && m.terms[0].None?
  {
    var m := Merge([Some(a), Some(b), Some(c)]);
    assert m.terms[0] == Some(a) && m.terms[1] == Some(b) && m.terms[2] == Some(c);
  }

  /** No binding of a preserved source shares its project or its connection with one that was there. */
  lemma {:induction false} BindingsStayApart(source: View, reserved: View, name: string, mount: Path, remotes: map<string, Merge<nat>>,
                                             j: nat, b: Binding, k: nat, c: Binding)
    requires Preservable(source, reserved, name, mount, remotes)
    requires j in source.bindings && b in source.bindings[j].Values() && k in reserved.bindings && c in reserved.bindings[k].Values()
    ensures j != k && b.project != c.project && b.connection != c.connection
  {
    assert b.project in ProjectIds(source) && c.project in ProjectIds(reserved);
    assert b.connection in ConnectionIds(source) && c.connection in ConnectionIds(reserved);
  }

  /** No remote of it has a connection that was there, under whatever name or binding. */
  lemma {:induction false} RemotesStayApart(source: View, reserved: View, name: string, mount: Path, remotes: map<string, Merge<nat>>, r: string, c: nat)
    requires Preservable(source, reserved, name, mount, remotes) && r in source.remotes && c in source.remotes[r].Values()
    ensures c !in reserved.remoteNames
    ensures forall q <- reserved.remotes :: c !in reserved.remotes[q].Values()
    ensures forall k <- reserved.bindings :: forall b <- reserved.bindings[k].Values() :: b.connection != c
  {
    assert c in ConnectionIds(source);
  }

  /** An importable batch hides no file of a visible tree: what stands anywhere stays. */
  lemma {:induction false} ImportHidesNothing(base: View, trees: seq<Mounts.Tree>, configured: set<string>, sources: seq<Source>,
                                              s: Source, t: Mounts.Tree, inner: Mounts.Tree, p: Path)
    requires Importable(base, trees, configured, sources) && s in sources && t in trees
    requires p != [] && Mounts.FileAt(t, p).Some?
    ensures s.path != [] && Mounts.ValueAt(t, s.path).None?
    ensures var placed := Mounts.Inherited(t, s.path, Mounts.Prefixed(s.path, inner));
            placed.Some? ==> Mounts.FileAt(placed.value, p) == Mounts.FileAt(t, p)
  {
    hide AllReservable, Mounts.Inherited, Mounts.Prefixed;
    assert Vacant(trees, s.path);
    if Mounts.Inherited(t, s.path, Mounts.Prefixed(s.path, inner)).Some? {
      Mounts.VacantMountHidesNothing(t, s.path, inner, p);
    }
  }

  // ----- Names come back -----------------------------------------------------------------------------

  /** The name of a project reference without its scope. */
  function UnscopedName(project: string, name: string): Option<string> {
    if BelongsTo(project, name) then Some(name[..|name| - |project| - 1]) else None
  }

  lemma UnscopedLocalName(project: string, name: string)
    ensures UnscopedName(project, LocalName(project, name)) == Some(name)
  {
    var scoped := LocalName(project, name);
    assert scoped[|name|..] == "#" + project && scoped[..|name|] == name;
  }

  lemma {:induction false} FirstSlash(name: string, a: string, other: string, b: string)
    requires name + "/" + a == other + "/" + b && '/' !in other
    ensures |other| <= |name|
  {
    var x, y := name + "/" + a, other + "/" + b;
    assert x[|name|] == '/' && forall k | 0 <= k < |other| :: y[k] == other[k];
  }

  /** Literal references of sources with different names never meet. */
  lemma {:induction false} LiteralsStayApart(v: View, name: string, a: string, w: View, other: string, b: string)
    requires IsLabel(name) && IsLabel(other) && !Live(v.labels, a) && !Live(w.labels, b)
    requires MapName(v, name, a) == MapName(w, other, b)
    ensures name == other && a == b
  {
    hide Live;
    FirstSlash(name, a, other, b);
    FirstSlash(other, b, name, a);
    var x, y := name + "/" + a, other + "/" + b;
    assert x[..|name|] == name && y[..|other|] == other && x[|name| + 1..] == a && y[|other| + 1..] == b;
  }

  /** No visible tree has anything at the mount. */
  predicate Vacant(trees: seq<Mounts.Tree>, mount: Path) {
    mount != [] && forall t <- trees :: Mounts.ValueAt(t, mount).None?
  }

  /**
   A batch is importable if its mounts are disjoint and vacant, its remotes are not configured yet,
   and every source can be reserved after those before it.
   */
  ghost predicate Importable(base: View, trees: seq<Mounts.Tree>, configured: set<string>, sources: seq<Source>) {
    && (forall i, j | 0 <= i < j < |sources| :: !Mounts.Overlap(sources[i].path, sources[j].path))
    && (forall s <- sources :: Vacant(trees, s.path) && (s.Preserved? ==> s.remotes.Keys !! configured))
    && AllReservable(base, sources)
  }

  /**
   The import of a batch: every source is reserved in a scratch view before any is merged into the
   published one, so it fails as a whole if one of them cannot be imported.
   */
  method ImportBatch(base: View, trees: seq<Mounts.Tree>, configured: set<string>, sources: seq<Source>) returns (r: Option<View>)
    ensures r.Some? <==> Importable(base, trees, configured, sources)
    ensures r.Some? ==> (forall s <- sources :: IsLabel(s.name)) && r.value == Published(base, sources)
  {
    hide Reservable, Reservation, Fragment, Extended, IsLabel, Vacant, Mounts.Overlap;
    var mounts := seq(|sources|, i requires 0 <= i < |sources| => sources[i].path);
    var disjoint := Mounts.CheckMountsDisjoint(mounts);
    assert disjoint <==> forall i, j | 0 <= i < j < |sources| :: !Mounts.Overlap(sources[i].path, sources[j].path) by {
      assert forall i | 0 <= i < |sources| :: mounts[i] == sources[i].path;
    }
    if !disjoint {
      return None;
    }
    var reserved := base;
    for i := 0 to |sources|
      invariant AllReservable(base, sources) <==> AllReservable(reserved, sources[i..])
      invariant forall s <- sources[..i] :: Vacant(trees, s.path) && (s.Preserved? ==> s.remotes.Keys !! configured)
    {
      var s := sources[i];
      assert sources[i..][1..] == sources[i + 1..];
      assert sources[..i + 1] == sources[..i] + [s];
      if !Vacant(trees, s.path) || (s.Preserved? && !(s.remotes.Keys !! configured)) {
        assert s in sources;
        return None;
      }
      if !Reservable(reserved, s) {
        return None;
      }
      ReservableHasLabel(reserved, s);
      reserved := Extended(reserved, Reservation(s));
    }
    assert sources[..|sources|] == sources;
    ReservableHaveLabels(base, sources);
    var view := MergeAll(base, sources);
    r := Some(view);
  }

  /** The merging loop. */
  method MergeAll(base: View, sources: seq<Source>) returns (view: View)
    requires forall s <- sources :: IsLabel(s.name)
    ensures view == Published(base, sources)
  {
    hide Fragment, Extended, IsLabel;
    view := base;
    for i := 0 to |sources|
      invariant Published(base, sources) == Published(view, sources[i..])
    {
      assert sources[i..][1..] == sources[i + 1..];
      view := Extended(view, Fragment(sources[i]));
    }
  }

  // ----- Claims on names and paths ----------------------------------------------------------------

  /** No two projects claim the same name or the same path. */
  ghost predicate ClaimsDiffer(v: View) {
    forall a <- v.projects, b <- v.projects | a != b :: Apart(v.projects[a], v.projects[b])
  }

  ghost predicate Apart(m: Merge<Project>, n: Merge<Project>) {
    forall p <- m.Adds(), q <- n.Adds() :: p.name != q.name && p.path != q.path
  }

  lemma {:induction false} MountedAdds(m: Merge<Project>, mount: Path, p: Project)
    requires p in Mounted(m, mount).Adds()
    ensures exists q <- m.Adds() :: p == Project(q.name, mount + q.path)
  {
    var terms := Mounted(m, mount).terms;
    var i :| 0 <= i < |terms| && i % 2 == 0 && terms[i] == Some(p);
    assert m.terms[i].value in m.Adds();
  }

  lemma {:induction false} MountingKeepsApart(m: Merge<Project>, n: Merge<Project>, mount: Path)
    requires Apart(m, n)
    ensures Apart(Mounted(m, mount), Mounted(n, mount))
  {
    hide Mounted;
    forall p, q | p in Mounted(m, mount).Adds() && q in Mounted(n, mount).Adds()
      ensures p.name != q.name && p.path != q.path
    {
      MountedAdds(m, mount, p);
      MountedAdds(n, mount, q);
      var a :| a in m.Adds() && p == Project(a.name, mount + a.path);
      var b :| b in n.Adds() && q == Project(b.name, mount + b.path);
      assert a.path == p.path[|mount|..] && b.path == q.path[|mount|..];
    }
  }

  lemma {:induction false} ReservationIsApart(reserved: View, s: Source, a: nat, b: nat)
    requires Reservable(reserved, s) && a in reserved.projects && b in Reservation(s).projects
    ensures Apart(reserved.projects[a], Reservation(s).projects[b]) && Apart(Reservation(s).projects[b], reserved.projects[a])
  {
    hide Suffix, MapName, Mounted, LabelsAvailable, LiteralsStayLiteral, IdsDisjoint;
  }

  lemma {:induction false} ReservationClaimsDiffer(s: Source)
    requires IsLabel(s.name) && (s.Preserved? ==> ClaimsDiffer(s.view))
    ensures ClaimsDiffer(Reservation(s))
  {
    hide Suffix, MapName, Mounted, Apart;
    if s.Preserved? {
      forall a, b | a in s.view.projects && b in s.view.projects && a != b
        ensures Apart(Mounted(s.view.projects[a], s.path), Mounted(s.view.projects[b], s.path))
      {
        MountingKeepsApart(s.view.projects[a], s.view.projects[b], s.path);
      }
    }
  }

  lemma {:induction false} ReservingKeepsClaims(reserved: View, s: Source)
    requires Reservable(reserved, s) && ClaimsDiffer(reserved) && (s.Preserved? ==> ClaimsDiffer(s.view))
    ensures ClaimsDiffer(Extended(reserved, Reservation(s)))
  {
    hide Reservable, Reservation, Apart;
    ReservableHasLabel(reserved, s);
    ReservationClaimsDiffer(s);
    forall a, b | a in reserved.projects && b in Reservation(s).projects
      ensures Apart(reserved.projects[a], Reservation(s).projects[b])
      ensures Apart(Reservation(s).projects[b], reserved.projects[a])
    {
      ReservationIsApart(reserved, s, a, b);
    }
  }

  /** Names and paths stay unambiguous, across the batch as well as against the destination. */
  lemma {:induction false} BatchKeepsClaims(reserved: View, v: View, sources: seq<Source>)
    requires AllReservable(reserved, sources) && v.projects == reserved.projects && ClaimsDiffer(reserved)
    requires forall s <- sources :: IsLabel(s.name) && (s.Preserved? ==> ClaimsDiffer(s.view))
    ensures ClaimsDiffer(Published(v, sources))
    decreases |sources|
  {
    if sources != [] {
      hide Reservable, Reservation, Fragment, Apart, Live;
      var s := sources[0];
      ReservingKeepsClaims(reserved, s);
      FragmentIsReservation(s);
      BatchKeepsClaims(Extended(reserved, Reservation(s)), Extended(v, Fragment(s)), sources[1..]);
    }
  }

  // ----- Removing a project -------------------------------------------------------------------------

  predicate Targets(b: Merge<Binding>, id: nat) {
    exists t <- b.Adds() :: t.project == id
  }

  predicate Scopes(n: Merge<ScopedName>, id: nat) {
    exists t <- n.Adds() :: t.project == id
  }

  function LabelsOf(v: View, id: nat): set<string> {
    set l | l in v.labels && id in v.labels[l].Adds()
  }

  /** Nothing live depends on the project, and its labels are resolved and out of use. */
  predicate Removable(v: View, id: nat) {
    && (forall b <- v.bindings :: !Targets(v.bindings[b], id))
    && (forall c <- v.remoteNames :: !Scopes(v.remoteNames[c], id))
    && forall l <- LabelsOf(v, id) :: |v.labels[l].terms| == 1 && forall r <- RefNames(v) :: !BelongsTo(l, r)
  }

  /** The namespace without a project and its labels. */
  function Removed(v: View, id: nat): View {
    v.(projects := v.projects - {id}, labels := v.labels - LabelsOf(v, id))
  }

  /** Removes a project and its labels, or nothing at all. */
  method RemoveProject(v: View, id: nat) returns (r: Option<View>)
    ensures r.Some? <==> Removable(v, id)
    ensures r.Some? ==> r.value == Removed(v, id)
  {
    if (exists b <- v.bindings :: Targets(v.bindings[b], id)) || exists c <- v.remoteNames :: Scopes(v.remoteNames[c], id) {
      return None;
    }
    var rest, labels := v.labels.Keys, v.labels;
    while rest != {}
      invariant rest <= v.labels.Keys && labels == v.labels - (LabelsOf(v, id) - rest)
      invariant forall l <- LabelsOf(v, id) - rest ::
                  |v.labels[l].terms| == 1 && forall r <- RefNames(v) :: !BelongsTo(l, r)
      decreases rest
    {
      var l :| l in rest;
      if id in v.labels[l].Adds() {
        if |v.labels[l].terms| != 1 || exists r <- RefNames(v) :: BelongsTo(l, r) {
          return None;
        }
        labels := labels - {l};
      }
      rest := rest - {l};
    }
    r := Some(v.(projects := v.projects - {id}, labels := labels));
  }

  /** Removal leaves no live record of the project, and no reference changes the project it belongs to. */
  lemma RemovalLeavesNothing(v: View, id: nat)
    requires Removable(v, id)
    ensures var after := Removed(v, id);
            && id !in after.projects && LabelsOf(after, id) == {}
            && (forall b <- after.bindings :: !Targets(after.bindings[b], id))
            && (forall c <- after.remoteNames :: !Scopes(after.remoteNames[c], id))
            && KeepsOwners(v, after)
  {
    forall r | r in RefNames(v) ensures Owner(Removed(v, id).labels, r) == Owner(v.labels, r) {
      if Suffix(r).Some? {
        SuffixIsTail(r);
      }
    }
  }

  lemma {:induction false} NewIdIsUnused(v: View, id: nat)
    requires id !in ProjectIds(v)
    ensures forall b <- v.bindings :: !Targets(v.bindings[b], id)
    ensures forall c <- v.remoteNames :: !Scopes(v.remoteNames[c], id)
    ensures id !in v.projects && forall l <- v.labels :: id !in v.labels[l].Adds()
  {
    forall b | b in v.bindings ensures !Targets(v.bindings[b], id) {
      assert forall t <- v.bindings[b].Adds() :: t in v.bindings[b].Values();
    }
    forall c | c in v.remoteNames ensures !Scopes(v.remoteNames[c], id) {
      assert forall t <- v.remoteNames[c].Adds() :: t in v.remoteNames[c].Values();
    }
    forall l | l in v.labels ensures id !in v.labels[l].Adds() {
      assert id in v.labels[l].Adds() ==> id in v.labels[l].Values();
    }
  }

  function Registered(v: View, name: string, path: Path, id: nat): View {
    v.(projects := v.projects[id := Resolved(Project(name, path))], labels := v.labels[name := Resolved(id)])
  }

  lemma {:induction false} ResolvedAdds(id: nat)
    ensures Resolved(id).Adds() == {id} && |Resolved(id).terms| == 1
  {
    assert Resolved(id).terms[0] == Some(id);
  }

  /** A project that was just registered can be removed again, which restores the namespace. */
  lemma {:induction false} RegistrationIsUndone(v: View, name: string, path: Path, id: nat)
    requires Registrable(v, name, path) && id !in ProjectIds(v)
    ensures Removable(Registered(v, name, path, id), id)
    ensures Removed(Registered(v, name, path, id), id) == v.(labels := v.labels - {name})
  {
    hide ProjectIds, Targets, Scopes, BelongsTo, Merge.Adds, Resolved, NameAndPathFree;
    NewIdIsUnused(v, id);
    ResolvedAdds(id);
    var registered := Registered(v, name, path, id);
    assert LabelsOf(registered, id) == {name};
    assert RefNames(registered) == RefNames(v);
    assert registered.projects - {id} == v.projects;
    assert registered.labels - {name} == v.labels - {name};
  }

  // ----- Reference edits of several sources ---------------------------------------------------------

  /** Every edit of the list is the one that `edits` has for its name. */
  ghost predicate Agrees<E>(edits: map<string, E>, incoming: seq<(string, E)>) {
    forall e <- incoming :: e.0 in edits && edits[e.0] == e.1
  }

  /**
   Edits of the same reference are collected once, and refused if they differ. The result is the
   least extension that has the incoming edits, and it exists exactly when there is any.
   */
  method CollectEdits<E(==)>(edits: map<string, E>, incoming: seq<(string, E)>) returns (r: Option<map<string, E>>)
    ensures r.Some? ==> Submap(edits, r.value) && Agrees(r.value, incoming)
    ensures r.Some? ==> forall all | Submap(edits, all) && Agrees(all, incoming) :: Submap(r.value, all)
    ensures r.None? ==> !exists all :: Submap(edits, all) && Agrees(all, incoming)
  {
    var collected := edits;
    for i := 0 to |incoming|
      invariant Submap(edits, collected) && Agrees(collected, incoming[..i])
      invariant forall all | Submap(edits, all) && Agrees(all, incoming) :: Submap(collected, all)
    {
      var e := incoming[i];
      if e.0 in collected && collected[e.0] != e.1 {
        return None;
      }
      collected := collected[e.0 := e.1];
    }
    assert incoming[..|incoming|] == incoming;
    r := Some(collected);
  }
}
