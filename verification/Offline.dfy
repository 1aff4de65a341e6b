/**
 Offline imports leave a binding of their own, with origins only. A session works with what its own
 binding determines together with what the offline bindings of its project determine.
 */
module Offline {
  import opened Wrappers
  import opened Walks
  import opened Mounts
  import opened NativeImport
  import opened Anchors

  // ----- The anchors of a session ------------------------------------------------------------------

  /** Adds correspondences, unless one contradicts what is known. */
  method MergeAnchors(known: IdMap, more: IdMap) returns (r: Option<IdMap>)
    ensures r.Some? <==> forall raw <- more :: raw in known ==> known[raw] == more[raw]
    ensures r.Some? ==> r.value == known + more && Submap(known, r.value) && Submap(more, r.value)
  {
    var all, rest := known, more.Keys;
    while rest != {}
      invariant rest <= more.Keys && all.Keys == known.Keys + (more.Keys - rest) && Submap(known, all)
      invariant forall raw <- more.Keys - rest :: all[raw] == more[raw]
      decreases rest
    {
      var raw :| raw in rest;
      if raw in all && all[raw] != more[raw] {
        return None;
      }
      all, rest := all[raw := more[raw]], rest - {raw};
    }
    assert all == known + more;
    r := Some(all);
  }

  /** The evidence that an offline import leaves beside that of `e`: no explicit boundaries. */
  ghost predicate IsOffline(e: Evidence, o: Evidence) {
    o.grafts == map[] && o.published == map[] && o.root == e.root && o.originals == e.originals
  }

  /** Part of an import's known map, as one offline binding determines it. */
  lemma {:induction false} OfflineMatches(e: Evidence, o: Evidence, ids: IdMap, known: IdMap, raw: Id)
    requires IsOffline(e, o) && Faithful(o, ids) && Recovered(o, ids, ids) && Submap(ids, known) && raw in ids
    ensures raw in Boundaries(e) || Matches(e, known, raw)
  {
    hide Covered;
    if raw !in Boundaries(o) {
      assert Matches(o, ids, raw);
      StillMatches(o, e, ids, known, raw);
    }
  }

  lemma {:induction false} MatchesMore(e: Evidence, ids: IdMap, known: IdMap)
    requires Submap(ids, known)
    ensures forall raw :: Matches(e, ids, raw) ==> Matches(e, known, raw)
  {
    forall raw | Matches(e, ids, raw) ensures Matches(e, known, raw) {
      MatchFacts(e, ids, raw);
      StillMatches(e, e, ids, known, raw);
    }
  }

  lemma {:induction false} CarriesMore(e: Evidence, known: IdMap, o: Evidence, ids: IdMap, all: IdMap)
    requires Carries(e, known) && IsOffline(e, o) && Faithful(o, ids) && Recovered(o, ids, ids)
    requires Submap(known, all) && Submap(ids, all) && forall raw <- all :: raw in known || raw in ids
    ensures Carries(e, all)
  {
    hide Boundaries, Matches, Recovered, Faithful, IsOffline;
    MatchesMore(e, known, all);
    forall raw | raw in all && raw !in known ensures raw in Boundaries(e) || Matches(e, all, raw) {
      OfflineMatches(e, o, ids, all, raw);
    }
  }

  /**
   What a session imports over: its own correspondence, and that of every offline binding. It is a
   map that an import may start from, and a correspondence that all of the evidence may come from.
   */
  method SessionAnchors(own: Evidence, offline: seq<Evidence>) returns (known: Option<IdMap>)
    requires RootIsApart(own) && forall o <- offline :: IsOffline(own, o)
    ensures known.Some? ==> Carries(own, known.value) && Faithful(own, known.value)
    ensures known.Some? ==> forall o <- offline :: Faithful(o, known.value)
    ensures known.None? ==> !exists f :: Faithful(own, f) && forall o <- offline :: Faithful(o, f)
  {
    hide Carries, Faithful, Recovered, Boundaries, Covered, IsOffline;
    var recovered := RecoverAnchors(own);
    if !recovered.Anchored? {
      return None;
    }
    var all := recovered.ids;
    RecoveredCarries(own, all, all);
    forall f | Faithful(own, f) ensures Submap(all, f) {
      RecoveredIsPart(own, f, all);
    }
    for i := 0 to |offline|
      invariant Carries(own, all)
      invariant forall o <- offline[..i] :: Faithful(o, all)
      invariant forall f | Faithful(own, f) && (forall o <- offline :: Faithful(o, f)) :: Submap(all, f)
    {
      var o := offline[i];
      assert o in offline;
      OfflineIsApart(own, o);
      var more := RecoverAnchors(o);
      if !more.Anchored? {
        return None;
      }
      forall f | Faithful(own, f) && (forall o <- offline :: Faithful(o, f)) ensures Submap(more.ids, f) {
        RecoveredIsPart(o, f, more.ids);
      }
      var merged := MergeAnchors(all, more.ids);
      if merged.None? {
        return None;
      }
      CarriesMore(own, all, o, more.ids, merged.value);
      forall p | p in offline[..i + 1] ensures Faithful(p, merged.value) {
        assert p in offline[..i] || p == o;
        FaithfulMore(p, if p in offline[..i] then all else more.ids, merged.value);
      }
      all := merged.value;
    }
    assert offline[..|offline|] == offline;
    CarriesIsFaithful(own, all);
    known := Some(all);
  }

  lemma OfflineIsApart(e: Evidence, o: Evidence)
    requires IsOffline(e, o)
    ensures RootIsApart(o)
  {
  }

  lemma RecoveredIsPart(e: Evidence, f: IdMap, ids: IdMap)
    requires Recovered(e, f, ids)
    ensures Submap(ids, f)
  {
  }

  /** A larger map is still a correspondence that the evidence may come from. */
  lemma {:induction false} FaithfulMore(e: Evidence, f: IdMap, g: IdMap)
    requires Faithful(e, f) && Submap(f, g)
    ensures Faithful(e, g)
  {
    hide Covered, Boundaries, Matches;
    MatchesMore(e, f, g);
  }

  // ----- The evidence of an offline import -----------------------------------------------------------

  predicate Childless(commits: map<Id, SourceCommit>, raw: Id) {
    forall id <- commits :: raw !in commits[id].parents
  }

  /** Only the commits without children are recorded, grafted or not. */
  function OfflineEvidence(im: Import, ids: IdMap, originals: map<Id, seq<Id>>): Evidence
    requires forall id <- im.commits :: id in ids
  {
    Evidence(map raw | raw in im.commits && Childless(im.commits, raw) && raw != im.root :: ids[raw], map[], map[], originals, im.root)
  }

  method PrepareOfflineImport(im: Import, ids: IdMap, originals: map<Id, seq<Id>>) returns (e: Evidence)
    requires forall id <- im.commits :: id in ids
    ensures forall raw: Id :: raw in e.origins <==>
              raw in im.commits && raw != im.root && forall id <- im.commits :: raw !in im.commits[id].parents
    ensures Submap(e.origins, ids) && e.grafts == e.published == map[]
    ensures e == OfflineEvidence(im, ids, originals)
  {
    var parents := set id, p | id in im.commits && p in im.commits[id].parents :: p;
    var origins: IdMap, rest := map[], im.commits.Keys;
    while rest != {}
      invariant rest <= im.commits.Keys
      invariant origins == map raw | raw in im.commits && raw !in rest && Childless(im.commits, raw) && raw != im.root :: ids[raw]
      decreases rest
    {
      var raw :| raw in rest;
      if raw !in parents && raw != im.root {
        origins := origins[raw := ids[raw]];
      }
      rest := rest - {raw};
    }
    e := Evidence(origins, map[], map[], originals, im.root);
  }

  /**
   The evidence of an offline import is evidence of its map exactly when every covered graft has the
   converted parents of its source commit.
   */
  lemma {:induction false} OfflineIsFaithful(im: Import, imported: Imported, originals: map<Id, seq<Id>>)
    requires im.known == map[] && forall id <- im.commits :: id in imported.ids
    requires ImportsOver(OfflineEvidence(im, imported.ids, originals), im, imported)
    ensures
      var e := OfflineEvidence(im, imported.ids, originals);
      Faithful(e, imported.ids) <==> forall g <- imported.grafts :: Covered(e, g) ==> Matches(e, imported.ids, g)
  {
    hide Covered, Matches, RawParents;
    var e, ids := OfflineEvidence(im, imported.ids, originals), imported.ids;
    assert Boundaries(e) == map[e.root := Root] && ids[e.root] == Start(im)[e.root] == Root;
    forall g | g in imported.grafts ensures g != e.root {
    }
    if forall g <- imported.grafts :: Covered(e, g) ==> Matches(e, ids, g) {
      forall raw | raw in ids && raw != e.root && Covered(e, raw) ensures Matches(e, ids, raw) {
        if raw !in imported.grafts {
          WrittenMatches(e, im, imported, raw);
        }
      }
      var nodes := set x | x in ids && Covered(e, x);
      forall x | x in e.origins ensures x in nodes {
        OriginIsCovered(e, x);
      }
      forall x, p | x in nodes && p in Below(e, x) ensures p in nodes {
        MatchFacts(e, ids, x);
        CoveredBelow(e, x, p);
      }
      forall raw: Id | Covered(e, raw) ensures raw in nodes {
        CoveredWithin(e, nodes, raw);
      }
    }
  }

  lemma {:induction false} WrittenMatches(e: Evidence, im: Import, imported: Imported, raw: Id)
    requires ImportsOver(e, im, imported) && raw in imported.written
    ensures Matches(e, imported.ids, raw)
  {
    assert raw != e.root;
    ImportIsGraphMap(im, imported.ids, imported.written, imported.grafts, imported.commits, raw);
  }

  // ----- A graft that leads astray -------------------------------------------------------------------

  /** A commit on one parent, with nothing but the project. */
  function Mounted(mount: Path, inner: Tree, parent: DestCommit, change: string, meta: Meta): DestCommit {
    Commit([parent], [Prefixed(mount, inner)], [], change, meta)
  }

  function Captured(inner: Tree, parent: Id, change: string, meta: Meta): SourceCommit {
    SourceCommit([parent], [inner], [], change, meta, [], None)
  }

  /** Two captured commits, the upper of which the destination already has on another parent. */
  function Astray(mount: Path, inner: Tree, meta: Meta): Import {
    var other := Mounted(mount, inner, Root, "other", meta);
    var graft := Mounted(mount, inner, other, "upper", meta);
    Import(map[1 := Captured(inner, 0, "lower", meta), 2 := Captured(inner, 1, "upper", meta)], 0, map[], mount,
           [graft, other], [], {}, (terms, labels) => (terms, labels), parents => [], (a, b, labels) => (a, labels))
  }

  function AstrayIds(mount: Path, inner: Tree, meta: Meta): IdMap {
    map[0 := Root, 1 := Mounted(mount, inner, Root, "lower", meta),
        2 := Mounted(mount, inner, Mounted(mount, inner, Root, "other", meta), "upper", meta)]
  }

  function AstrayEvidence(mount: Path, inner: Tree, meta: Meta): Evidence {
    OfflineEvidence(Astray(mount, inner, meta), AstrayIds(mount, inner, meta), map[1 := [], 2 := [1]])
  }

  lemma {:induction false} OneVersion(resolve: Resolver, a: DestCommit, b: DestCommit, mount: Path, source: SourceCommit)
    requires mount != [] && a.Commit? && b.Commit? && b.change != source.change
    requires a.change == source.change ==> !Unreadable(a, mount, source)
    ensures Existing(resolve, [a, b], mount, source, None) == if SameVersion(resolve, a, mount, source) then Found(a) else NotFound
  {
    hide ProjectTree, HasProject;
    assert [a, b][1..] == [b] && [b][1..] == [];
    assert Existing(resolve, [b], mount, source, None) == NotFound;
    assert Existing(resolve, [b], mount, source, Some(a)) == Found(a);
  }

  lemma {:induction false} MountedIsReadable(mount: Path, inner: Tree, parent: DestCommit, change: string, meta: Meta, source: SourceCommit)
    requires mount != [] && inner != EMPTY
    ensures
      var c := Mounted(mount, inner, parent, change, meta);
      !Unreadable(c, mount, source) && HasProject(c, mount) && Project(c.terms, mount) == Some([inner])
  {
    WrappedValue(mount, inner);
    ProjectPrefixed(mount, inner);
    var c := Mounted(mount, inner, parent, change, meta);
    assert c.terms[0] in c.terms && forall t <- c.terms :: t == Prefixed(mount, inner);
    assert Project(c.terms, mount).value == [inner];
  }

  lemma {:induction false} AstrayVersions(mount: Path, inner: Tree, meta: Meta)
    requires mount != [] && inner != EMPTY
    ensures ExistingFor(Astray(mount, inner, meta), 1).NotFound?
    ensures ExistingFor(Astray(mount, inner, meta), 2) == Found(AstrayIds(mount, inner, meta)[2])
  {
    hide Existing, Project, HasProject, Unreadable;
    var im := Astray(mount, inner, meta);
    var other := Mounted(mount, inner, Root, "other", meta);
    var graft := Mounted(mount, inner, other, "upper", meta);
    assert "upper"[0] != "lower"[0] && "other"[0] != "lower"[0] && "other"[0] != "upper"[0];
    MountedIsReadable(mount, inner, other, "upper", meta, im.commits[2]);
    assert SameVersion(im.resolve, graft, mount, im.commits[2]);
    OneVersion(im.resolve, graft, other, mount, im.commits[1]);
    OneVersion(im.resolve, graft, other, mount, im.commits[2]);
  }

  lemma {:induction false} LowerIsWritten(mount: Path, inner: Tree, meta: Meta)
    requires mount != []
    ensures
      var im, ids := Astray(mount, inner, meta), AstrayIds(mount, inner, meta);
      ParentsMapped(im, ids, 1) && MapAll(ids, im.commits[1].parents) == [Root] && Written(im, im.commits[1], [Root]) == Some(ids[1])
  {
    hide Prefixed;
    assert PrefixedTerms(mount, [inner]) == [Prefixed(mount, inner)];
    assert MapAll(AstrayIds(mount, inner, meta), [0]) == [Root];
  }

  lemma {:induction false} AstrayConverts(mount: Path, inner: Tree, meta: Meta)
    requires mount != [] && inner != EMPTY
    ensures Converts(Astray(mount, inner, meta), AstrayIds(mount, inner, meta))
  {
    hide Existing, Written, Prefixed;
    var im, ids := Astray(mount, inner, meta), AstrayIds(mount, inner, meta);
    AstrayVersions(mount, inner, meta);
    LowerIsWritten(mount, inner, meta);
    assert Settled(im, ids, 1) && Settled(im, ids, 2);
    assert !IsNew(im, ids, 2);
  }

  lemma {:induction false} AstrayImports(mount: Path, inner: Tree, meta: Meta)
    requires mount != [] && inner != EMPTY
    ensures
      var ids := AstrayIds(mount, inner, meta);
      ImportsOver(AstrayEvidence(mount, inner, meta), Astray(mount, inner, meta), Imported([ids[1]], [1], [2], ids))
  {
    hide Existing, Written, Prefixed, Childless;
    var im, ids := Astray(mount, inner, meta), AstrayIds(mount, inner, meta);
    AstrayVersions(mount, inner, meta);
    LowerIsWritten(mount, inner, meta);
    assert IsWritten(im, ids, 1) && IsGraft(im, ids, 2);
  }

  lemma {:induction false} AstrayOrigins(mount: Path, inner: Tree, meta: Meta)
    ensures
      var e := AstrayEvidence(mount, inner, meta);
      e.origins == map[2 := AstrayIds(mount, inner, meta)[2]] && Boundaries(e) == map[0 := Root]
      && RawParents(e, 1) == [0] && RawParents(e, 2) == [1]
  {
    hide Prefixed;
    var im := Astray(mount, inner, meta);
    assert 1 in im.commits[2].parents && 2 in im.commits && 1 in im.commits;
    assert Childless(im.commits, 2) && !Childless(im.commits, 1);
  }

  /**
   An offline import that grafts a commit on other parents leaves evidence of another map: recovery
   succeeds, and sends the parent of the graft to a commit it was not converted to.
   */
  lemma {:induction false} GraftLeadsAstray(mount: Path, inner: Tree, meta: Meta)
    requires mount != [] && inner != EMPTY
    ensures
      var im, ids, e := Astray(mount, inner, meta), AstrayIds(mount, inner, meta), AstrayEvidence(mount, inner, meta);
      var other := Mounted(mount, inner, Root, "other", meta);
      && Converts(im, ids) && ImportsOver(e, im, Imported([ids[1]], [1], [2], ids))
      && Faithful(e, ids[1 := other]) && other != ids[1] && !Faithful(e, ids)
  {
    hide Converts, ImportsOver, AstrayEvidence, Boundaries, RawParents, Covered, Prefixed;
    var ids, e := AstrayIds(mount, inner, meta), AstrayEvidence(mount, inner, meta);
    var other := Mounted(mount, inner, Root, "other", meta);
    var right := ids[1 := other];
    AstrayConverts(mount, inner, meta);
    AstrayImports(mount, inner, meta);
    AstrayOrigins(mount, inner, meta);
    assert "other"[0] != "lower"[0];
    AstrayRetained(mount, inner, meta);
    assert MapAll(right, [0]) == [Root] && MapAll(right, [1]) == [other] && MapAll(ids, [1]) == [ids[1]];
    assert Matches(e, right, 1) && Matches(e, right, 2) && !Matches(e, ids, 2);
    OriginIsCovered(e, 2);
    forall raw: Id | Covered(e, raw) ensures raw in right {
      CoveredWithin(e, right.Keys, raw);
    }
  }

  lemma AstrayRetained(mount: Path, inner: Tree, meta: Meta)
    ensures var e := AstrayEvidence(mount, inner, meta); 1 in e.originals && 2 in e.originals && e.root == 0 && RootIsApart(e)
  {
  }
}
