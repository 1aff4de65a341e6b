/**
 Boundary pairs of imported history. Only tips and grafts are recorded; the correspondence of
 everything below a tip is recovered by walking raw and converted history side by side.
 */
module Anchors {
  import opened Wrappers
  import opened Walks
  import opened NativeImport

  /** The recorded evidence of one binding, and the parents of the retained raw commits. */
  datatype Evidence = Evidence(origins: IdMap, grafts: IdMap, published: IdMap, originals: map<Id, seq<Id>>, root: Id)

  /** Explicit boundaries: never zipped past. A publication wins over a graft of the same commit. */
  function Boundaries(e: Evidence): IdMap {
    map[e.root := Root] + e.grafts + e.published
  }

  /** The root stands for itself; otherwise a publication comes before a graft, and nothing else is a boundary. */
  lemma BoundariesAre(e: Evidence, raw: Id)
    requires RootIsApart(e)
    ensures raw in Boundaries(e) <==> raw == e.root || raw in e.grafts || raw in e.published
    ensures raw == e.root ==> Boundaries(e)[raw] == Root
    ensures raw in e.published ==> Boundaries(e)[raw] == e.published[raw]
    ensures raw in e.grafts && raw !in e.published ==> Boundaries(e)[raw] == e.grafts[raw]
  {
  }

  /** The parents of a raw commit, with the synthetic root below parentless commits. */
  function RawParents(e: Evidence, raw: Id): seq<Id> {
    if raw !in e.originals then [] else if e.originals[raw] == [] then [e.root] else e.originals[raw]
  }

  function Below(e: Evidence, raw: Id): seq<Id> {
    if raw in Boundaries(e) then [] else RawParents(e, raw)
  }

  /** What the recorded tips cover without passing a boundary. */
  ghost predicate Covered(e: Evidence, raw: Id) {
    exists tip <- e.origins :: tip == raw || Leads((r: Id) => Below(e, r), tip, raw)
  }

  ghost predicate RootIsApart(e: Evidence) {
    e.root !in e.grafts && e.root !in e.published
  }

  // ----- Recovering the correspondence -------------------------------------------------------

  /** One raw commit corresponds to one converted commit, parent by parent. */
  ghost predicate Matches(e: Evidence, full: IdMap, raw: Id) {
    && raw in e.originals && raw in full && full[raw].Commit?
    && (forall p <- RawParents(e, raw) :: p in full)
    && full[raw].parents == MapAll(full, RawParents(e, raw))
  }

  /** `full` is a correspondence that the evidence was taken from. */
  ghost predicate Faithful(e: Evidence, full: IdMap) {
    && RootIsApart(e)
    && (forall raw <- Boundaries(e) :: raw in full && full[raw] == Boundaries(e)[raw])
    && (forall raw <- e.origins :: raw in full && full[raw] == e.origins[raw])
    && (forall raw: Id :: Covered(e, raw) && raw !in Boundaries(e) ==> Matches(e, full, raw))
  }

  datatype Pair = Pair(raw: Id, canonical: DestCommit)

  function Zipped(raws: seq<Id>, canonicals: seq<DestCommit>): (pairs: seq<Pair>)
    requires |raws| == |canonicals|
    ensures |pairs| == |raws| && forall i | 0 <= i < |raws| :: pairs[i] == Pair(raws[i], canonicals[i])
  {
    seq(|raws|, i requires 0 <= i < |raws| => Pair(raws[i], canonicals[i]))
  }

  lemma {:induction false} CoveredBelow(e: Evidence, raw: Id, p: Id)
    requires Covered(e, raw) && p in Below(e, raw)
    ensures Covered(e, p)
  {
    var next := (r: Id) => Below(e, r);
    var tip :| tip in e.origins && (tip == raw || Leads(next, tip, raw));
    if tip == raw {
      EdgeLeads(next, tip, p);
    } else {
      LeadsOn(next, tip, raw, p);
    }
  }

  lemma {:induction false} CoveredWithin(e: Evidence, nodes: set<Id>, raw: Id)
    requires Covered(e, raw) && e.origins.Keys <= nodes && forall x <- nodes, p <- Below(e, x) :: p in nodes
    ensures raw in nodes
  {
    var next := (r: Id) => Below(e, r);
    var tip :| tip in e.origins && (tip == raw || Leads(next, tip, raw));
    if tip != raw {
      var path: seq<Id> :| |path| >= 2 && path[0] == tip && path[|path| - 1] == raw && IsPath(next, path);
      PathStaysWithin(next, nodes, path);
    }
  }

  /** Pairs that a faithful correspondence contains, and that the walk is entitled to follow. */
  ghost predicate Expected(e: Evidence, full: IdMap, pairs: seq<Pair>) {
    forall q <- pairs :: Covered(e, q.raw) && q.raw in full && full[q.raw] == q.canonical
  }

  /** The ids recovered so far: part of `full`, and closed below except for queued pairs. */
  ghost predicate Recovering(e: Evidence, full: IdMap, ids: IdMap, pending: seq<Pair>) {
    && (forall raw <- Boundaries(e) :: raw in ids)
    && (forall raw <- ids :: raw in full && full[raw] == ids[raw] && (raw in Boundaries(e) || Covered(e, raw)))
    && (forall raw <- ids, p <- Below(e, raw) :: Known(ids, pending, p))
    && (forall raw <- e.origins :: Known(ids, pending, raw))
  }

  /** Recovered, or queued to be. */
  ghost predicate Known(ids: IdMap, pending: seq<Pair>, raw: Id) {
    raw in ids || exists q <- pending :: q.raw == raw
  }

  lemma {:induction false} RecoverOne(e: Evidence, full: IdMap, ids: IdMap, rest: seq<Pair>, top: Pair)
    requires Faithful(e, full) && Recovering(e, full, ids, rest + [top]) && Expected(e, full, rest + [top])
    requires top.raw !in ids
    ensures top.raw in e.originals && top.canonical.Commit? && |RawParents(e, top.raw)| == |top.canonical.parents|
    ensures
      var pairs := rest + Zipped(RawParents(e, top.raw), top.canonical.parents);
      Expected(e, full, pairs) && Recovering(e, full, ids[top.raw := top.canonical], pairs)
  {
    hide Covered, Known;
    assert top in rest + [top];
    assert Matches(e, full, top.raw);
    var raws := RawParents(e, top.raw);
    var pairs, more := rest + Zipped(raws, top.canonical.parents), ids[top.raw := top.canonical];
    ExpectedBelow(e, full, rest, top);
    forall p | p in raws ensures Known(more, pairs, p) {
      ZippedIsKnown(more, rest, raws, top.canonical.parents, p);
    }
    forall p | Known(ids, rest + [top], p) ensures Known(more, pairs, p) {
      Requeued(ids, rest, top, pairs, p);
    }
  }

  lemma {:induction false} ExpectedBelow(e: Evidence, full: IdMap, rest: seq<Pair>, top: Pair)
    requires Faithful(e, full) && Expected(e, full, rest + [top]) && Matches(e, full, top.raw) && top.raw !in Boundaries(e)
    requires top.canonical.Commit? && |RawParents(e, top.raw)| == |top.canonical.parents|
    ensures Expected(e, full, rest + Zipped(RawParents(e, top.raw), top.canonical.parents))
  {
    hide Covered;
    assert top in rest + [top];
    var raws := RawParents(e, top.raw);
    var zipped := Zipped(raws, top.canonical.parents);
    forall q | q in rest + zipped ensures Covered(e, q.raw) && q.raw in full && full[q.raw] == q.canonical {
      if q in rest {
        assert q in rest + [top];
      } else {
        var i :| 0 <= i < |zipped| && zipped[i] == q;
        assert raws[i] in Below(e, top.raw);
        CoveredBelow(e, top.raw, raws[i]);
      }
    }
  }

  lemma {:induction false} ZippedIsKnown(ids: IdMap, rest: seq<Pair>, raws: seq<Id>, canonicals: seq<DestCommit>, p: Id)
    requires |raws| == |canonicals| && p in raws
    ensures Known(ids, rest + Zipped(raws, canonicals), p)
  {
    var i :| 0 <= i < |raws| && raws[i] == p;
    assert Zipped(raws, canonicals)[i] in rest + Zipped(raws, canonicals);
  }

  lemma {:induction false} Requeued(ids: IdMap, rest: seq<Pair>, top: Pair, pairs: seq<Pair>, p: Id)
    requires rest <= pairs && Known(ids, rest + [top], p)
    ensures Known(ids[top.raw := top.canonical], pairs, p)
  {
    if p !in ids && p != top.raw {
      var q :| q in rest + [top] && q.raw == p;
      var i :| 0 <= i < |rest| && rest[i] == q;
      assert pairs[i] == q;
    }
  }

  lemma {:induction false} RecoverKnown(e: Evidence, full: IdMap, ids: IdMap, rest: seq<Pair>, top: Pair)
    requires Recovering(e, full, ids, rest + [top]) && Expected(e, full, rest + [top]) && top.raw in ids
    ensures ids[top.raw] == top.canonical
    ensures Recovering(e, full, ids, rest) && Expected(e, full, rest)
  {
    hide Covered;
    assert top in rest + [top];
    assert forall q <- rest :: q in rest + [top];
    assert ids[top.raw := top.canonical] == ids;
    forall p | Known(ids, rest + [top], p) ensures Known(ids, rest, p) {
      Requeued(ids, rest, top, rest, p);
    }
  }

  datatype Outcome = Anchored(ids: IdMap) | Inconsistent(raw: Id) | Unavailable(raw: Id) | Diverged(raw: Id)

  /** Exactly what the evidence determines: the boundaries and what the tips cover. */
  ghost predicate Recovered(e: Evidence, full: IdMap, ids: IdMap) {
    && (forall raw: Id :: raw in ids <==> raw in Boundaries(e) || Covered(e, raw))
    && (forall raw <- ids :: raw in full && ids[raw] == full[raw])
  }

  lemma {:induction false} RecoveryEnds(e: Evidence, full: IdMap, ids: IdMap)
    requires Recovering(e, full, ids, [])
    ensures Recovered(e, full, ids)
  {
    hide Covered;
    assert forall p :: Known(ids, [], p) <==> p in ids;
    forall raw: Id | Covered(e, raw) ensures raw in ids {
      CoveredWithin(e, ids.Keys, raw);
    }
  }

  method Listing(m: IdMap) returns (pairs: seq<Pair>)
    ensures forall q: Pair :: q in pairs <==> q.raw in m && m[q.raw] == q.canonical
  {
    pairs := [];
    var rest := m.Keys;
    while rest != {}
      invariant rest <= m.Keys
      invariant forall q: Pair :: q in pairs <==> q.raw in m && q.raw !in rest && m[q.raw] == q.canonical
    {
      var raw :| raw in rest;
      pairs, rest := pairs + [Pair(raw, m[raw])], rest - {raw};
    }
  }

  // ----- What recovery has zipped --------------------------------------------------------------

  /** The pair was recovered as it is, or is queued. */
  ghost predicate Paired(ids: IdMap, pending: seq<Pair>, q: Pair) {
    (q.raw in ids && ids[q.raw] == q.canonical) || q in pending
  }

  /** The parents of a raw commit are paired, one by one, with those of its commit. */
  ghost predicate Zips(e: Evidence, ids: IdMap, pending: seq<Pair>, raw: Id)
    requires raw in ids
  {
    && raw in e.originals && ids[raw].Commit? && |RawParents(e, raw)| == |ids[raw].parents|
    && forall k | 0 <= k < |ids[raw].parents| :: Paired(ids, pending, Pair(RawParents(e, raw)[k], ids[raw].parents[k]))
  }

  ghost predicate Zipping(e: Evidence, ids: IdMap, pending: seq<Pair>) {
    && Submap(Boundaries(e), ids)
    && (forall raw <- e.origins :: Paired(ids, pending, Pair(raw, e.origins[raw])))
    && (forall raw <- ids :: raw in Boundaries(e) || Zips(e, ids, pending, raw))
  }

  lemma {:induction false} ZipPops(e: Evidence, ids: IdMap, rest: seq<Pair>, top: Pair)
    requires Zipping(e, ids, rest + [top]) && top.raw in ids && ids[top.raw] == top.canonical
    ensures Zipping(e, ids, rest)
  {
    hide Boundaries, RawParents;
    forall q | Paired(ids, rest + [top], q) ensures Paired(ids, rest, q) {
    }
  }

  lemma {:induction false} ZipOpens(e: Evidence, ids: IdMap, rest: seq<Pair>, top: Pair)
    requires Zipping(e, ids, rest + [top]) && top.raw !in ids && top.raw in e.originals
    requires top.canonical.Commit? && |RawParents(e, top.raw)| == |top.canonical.parents|
    ensures Zipping(e, ids[top.raw := top.canonical], rest + Zipped(RawParents(e, top.raw), top.canonical.parents))
  {
    hide Boundaries, RawParents;
    var more, zipped := ids[top.raw := top.canonical], Zipped(RawParents(e, top.raw), top.canonical.parents);
    forall q | Paired(ids, rest + [top], q) ensures Paired(more, rest + zipped, q) {
    }
    forall k | 0 <= k < |zipped| ensures Paired(more, rest + zipped, zipped[k]) {
      assert zipped[k] in zipped;
    }
    assert Zips(e, more, rest + zipped, top.raw);
    forall raw | raw in ids && raw !in Boundaries(e) ensures Zips(e, more, rest + zipped, raw) {
    }
  }

  lemma {:induction false} ZippedIsFaithful(e: Evidence, ids: IdMap)
    requires Zipping(e, ids, []) && RootIsApart(e)
    ensures Faithful(e, ids)
  {
    hide Covered, Boundaries, RawParents;
    assert forall q :: Paired(ids, [], q) <==> q.raw in ids && ids[q.raw] == q.canonical;
    forall raw | raw in ids && raw !in Boundaries(e) ensures Matches(e, ids, raw) {
      var raws := RawParents(e, raw);
      assert Zips(e, ids, [], raw);
      forall k | 0 <= k < |raws| ensures raws[k] in ids && ids[raws[k]] == ids[raw].parents[k] {
        assert Paired(ids, [], Pair(raws[k], ids[raw].parents[k]));
      }
      assert ids[raw].parents == MapAll(ids, raws);
    }
    forall raw: Id | Covered(e, raw) && raw !in Boundaries(e) ensures Matches(e, ids, raw) {
      CoveredWithin(e, ids.Keys, raw);
    }
  }

  /** What the evidence determines is the same in every correspondence it may come from. */
  lemma {:induction false} FaithfulAlike(e: Evidence, f: IdMap, g: IdMap, r: Id)
    requires Faithful(e, f) && Faithful(e, g) && (r in Boundaries(e) || Covered(e, r))
    ensures r in f && r in g && f[r] == g[r]
  {
    hide Covered, Boundaries, RawParents;
    if r !in Boundaries(e) {
      var nodes := set x | x in f && x in g && f[x] == g[x] && Covered(e, x);
      forall x | x in e.origins ensures x in nodes {
        OriginIsCovered(e, x);
      }
      forall x, p | x in nodes && p in Below(e, x) ensures p in nodes {
        assert Matches(e, f, x) && Matches(e, g, x);
        var k :| 0 <= k < |RawParents(e, x)| && RawParents(e, x)[k] == p;
        assert f[p] == f[x].parents[k] == g[x].parents[k] == g[p];
        CoveredBelow(e, x, p);
      }
      CoveredWithin(e, nodes, r);
    }
  }

  lemma {:induction false} RecoveredAlike(e: Evidence, f: IdMap, g: IdMap, ids: IdMap)
    requires Faithful(e, f) && Faithful(e, g) && Recovered(e, f, ids)
    ensures Recovered(e, g, ids)
  {
    hide Covered, Boundaries, Faithful;
    forall raw | raw in ids ensures raw in g && ids[raw] == g[raw] {
      FaithfulAlike(e, f, g, raw);
    }
  }

  /**
   Recovers the correspondence of a binding. It succeeds exactly when the evidence comes from some
   correspondence, and yields what all of these have in common: the boundaries and what is covered.
   */
  method RecoverAnchors(e: Evidence) returns (result: Outcome)
    ensures forall f | Faithful(e, f) :: result.Anchored? && Recovered(e, f, result.ids)
    ensures RootIsApart(e) ==> (result.Anchored? <==> exists f :: Faithful(e, f))
    ensures RootIsApart(e) && result.Anchored? ==> Faithful(e, result.ids) && Recovered(e, result.ids, result.ids)
  {
    hide Covered, Faithful, RootIsApart, Zipping, Recovering, Expected, Recovered, RawParents, Boundaries;
    ghost var full: Option<IdMap> := None;
    if f :| Faithful(e, f) {
      full := Some(f);
    }
    var ids := Boundaries(e);
    var pending := Listing(e.origins);
    if full.Some? {
      RecoveryStarts(e, full.value, pending);
    }
    ZipStarts(e, pending);
    while pending != []
      invariant full.Some? ==> Faithful(e, full.value) && Recovering(e, full.value, ids, pending) && Expected(e, full.value, pending)
      invariant Zipping(e, ids, pending)
      decreases e.originals.Keys - ids.Keys, |pending|
    {
      var n := |pending| - 1;
      var rest, top := pending[..n], pending[n];
      SplitLast(pending);
      if top.raw in ids {
        if full.Some? {
          RecoverKnown(e, full.value, ids, rest, top);
        }
        if ids[top.raw] != top.canonical {
          return Inconsistent(top.raw);
        }
        ZipPops(e, ids, rest, top);
        pending := rest;
        continue;
      }
      if full.Some? {
        RecoverOne(e, full.value, ids, rest, top);
      }
      if top.raw !in e.originals {
        return Unavailable(top.raw);
      }
      var raws := RawParents(e, top.raw);
      var canonicals := if top.canonical.Commit? then top.canonical.parents else [];
      if |raws| != |canonicals| {
        return Diverged(top.raw);
      }
      HasRawParents(e, top.raw);
      ZipOpens(e, ids, rest, top);
      assert ids[top.raw := top.canonical].Keys == ids.Keys + {top.raw};
      assert top.raw in e.originals.Keys - ids.Keys;
      pending, ids := rest + Zipped(raws, canonicals), ids[top.raw := top.canonical];
    }
    RecoveryIsExact(e, full, ids);
    result := Anchored(ids);
  }

  lemma HasRawParents(e: Evidence, raw: Id)
    requires raw in e.originals
    ensures RawParents(e, raw) != []
  {
  }

  lemma {:induction false} ZipStarts(e: Evidence, pending: seq<Pair>)
    requires forall q: Pair :: q in pending <==> q.raw in e.origins && e.origins[q.raw] == q.canonical
    ensures Zipping(e, Boundaries(e), pending)
  {
    hide Boundaries, RawParents;
    forall raw | raw in e.origins ensures Pair(raw, e.origins[raw]) in pending {
    }
  }

  lemma {:induction false} RecoveryIsExact(e: Evidence, full: Option<IdMap>, ids: IdMap)
    requires Zipping(e, ids, [])
    requires if full.Some? then Faithful(e, full.value) && Recovering(e, full.value, ids, []) else !exists f :: Faithful(e, f)
    ensures forall f | Faithful(e, f) :: Recovered(e, f, ids)
    ensures RootIsApart(e) ==> Faithful(e, ids) && Recovered(e, ids, ids)
  {
    hide Covered, Boundaries, Faithful, Zipping, Recovering, Recovered, RootIsApart;
    if full.Some? {
      RecoveryEnds(e, full.value, ids);
      forall f | Faithful(e, f) ensures Recovered(e, f, ids) {
        RecoveredAlike(e, full.value, f, ids);
      }
    }
    if RootIsApart(e) {
      ZippedIsFaithful(e, ids);
    }
  }

  lemma {:induction false} RecoveryStarts(e: Evidence, full: IdMap, pending: seq<Pair>)
    requires Faithful(e, full) && forall q: Pair :: q in pending <==> q.raw in e.origins && e.origins[q.raw] == q.canonical
    ensures Recovering(e, full, Boundaries(e), pending) && Expected(e, full, pending)
  {
    forall raw | raw in e.origins ensures exists q <- pending :: q.raw == raw {
      assert Pair(raw, e.origins[raw]) in pending;
    }
  }

  // ----- Recording boundaries ----------------------------------------------------------------

  datatype Kind = Origin | Graft | Published

  function Recorded(e: Evidence, kind: Kind): IdMap {
    match kind
    case Origin => e.origins
    case Graft => e.grafts
    case Published => e.published
  }

  function WithAnchor(e: Evidence, kind: Kind, raw: Id, canonical: DestCommit): Evidence {
    if raw == e.root then e
    else match kind
      case Origin => e.(origins := e.origins[raw := canonical])
      case Graft => e.(grafts := e.grafts[raw := canonical])
      case Published => e.(published := e.published[raw := canonical])
  }

  /** A boundary may be recorded again, but never moved to another commit. */
  predicate MayRecord(e: Evidence, kind: Kind, raw: Id, canonical: DestCommit) {
    raw == e.root || (raw in Recorded(e, kind) ==> Recorded(e, kind)[raw] == canonical)
  }

  /** Every recorded anchor is still recorded, for the same commit. */
  ghost predicate AnchorsStay(e: Evidence, later: Evidence) {
    forall k, r | r in Recorded(e, k) :: r in Recorded(later, k) && Recorded(later, k)[r] == Recorded(e, k)[r]
  }

  /** No anchor was added but that of `raw`, and nothing else changed. */
  ghost predicate OnlyAnchor(e: Evidence, later: Evidence, kind: Kind, raw: Id) {
    && later.root == e.root && later.originals == e.originals
    && forall k, r | r in Recorded(later, k) :: r in Recorded(e, k) || (k == kind && r == raw)
  }

  class Binding {
    var evidence: Evidence

    constructor (root: Id)
      ensures evidence == Evidence(map[], map[], map[], map[], root)
    {
      evidence := Evidence(map[], map[], map[], map[], root);
    }

    /** Records a boundary unless another commit is recorded for it; no recorded anchor ever moves. */
    method RecordAnchor(kind: Kind, raw: Id, canonical: DestCommit) returns (ok: bool)
      modifies this
      ensures !ok <==> raw != evidence.root && raw in Recorded(old(evidence), kind) && Recorded(old(evidence), kind)[raw] != canonical
      ensures ok && raw != evidence.root ==> raw in Recorded(evidence, kind) && Recorded(evidence, kind)[raw] == canonical
      ensures AnchorsStay(old(evidence), evidence) && OnlyAnchor(old(evidence), evidence, kind, raw)
      ensures ok == MayRecord(old(evidence), kind, raw, canonical)
      ensures evidence == if ok then WithAnchor(old(evidence), kind, raw, canonical) else old(evidence)
    {
      ok := MayRecord(evidence, kind, raw, canonical);
      if ok {
        evidence := WithAnchor(evidence, kind, raw, canonical);
      }
    }

    /** Records the grafts of an import, then its tips that were not grafted. */
    method RecordImportedBoundaries(imported: Imported, tips: seq<Id>) returns (ok: bool)
      requires forall g <- imported.grafts :: g in imported.ids
      modifies this
      ensures ok ==> evidence == WithImport(old(evidence), imported, tips)
      ensures Recordable(old(evidence), imported, tips) ==> ok
    {
      hide Entries, TipEntries, AnchorsStay, OnlyAnchor;
      var n := 0;
      ghost var before := evidence;
      NoEntries(before.root, imported);
      while n < |imported.grafts|
        invariant 0 <= n <= |imported.grafts|
        invariant evidence == before.(grafts := before.grafts + Entries(before.root, imported.ids, imported.grafts[..n]))
      {
        var raw := imported.grafts[n];
        EntriesOne(before.root, imported.ids, imported.grafts, n);
        EntriesAre(before.root, imported.ids, imported.grafts[..n], raw);
        ok := RecordAnchor(Graft, raw, imported.ids[raw]);
        if !ok {
          return false;
        }
        n := n + 1;
      }
      assert imported.grafts[..n] == imported.grafts;
      ghost var grafted := evidence;
      n := 0;
      while n < |tips|
        invariant 0 <= n <= |tips|
        invariant evidence == grafted.(origins := grafted.origins + TipEntries(before.root, imported, tips[..n]))
      {
        var raw := tips[n];
        TipEntriesOne(before.root, imported, tips, n);
        TipEntriesAre(before.root, imported, tips[..n], raw);
        if raw !in imported.grafts && raw in imported.ids {
          ok := RecordAnchor(Origin, raw, imported.ids[raw]);
          if !ok {
            return false;
          }
        }
        n := n + 1;
      }
      assert tips[..n] == tips;
      ok := true;
    }
  }

  lemma NoEntries(root: Id, imported: Imported)
    ensures Entries(root, imported.ids, []) == map[] && TipEntries(root, imported, []) == map[]
  {
  }

  lemma EntriesAre(root: Id, ids: IdMap, raws: seq<Id>, r: Id)
    requires forall r <- raws :: r in ids
    ensures r in Entries(root, ids, raws) <==> r in raws && r != root
    ensures r in Entries(root, ids, raws) ==> Entries(root, ids, raws)[r] == ids[r]
  {
  }

  lemma TipEntriesAre(root: Id, imported: Imported, tips: seq<Id>, r: Id)
    ensures r in TipEntries(root, imported, tips) <==> r in tips && r in imported.ids && r !in imported.grafts && r != root
    ensures r in TipEntries(root, imported, tips) ==> TipEntries(root, imported, tips)[r] == imported.ids[r]
  {
  }

  function Entries(root: Id, ids: IdMap, raws: seq<Id>): IdMap
    requires forall r <- raws :: r in ids
  {
    map r | r in raws && r != root :: ids[r]
  }

  /** The tips worth an origin: converted here, and not grafts. */
  function TipEntries(root: Id, imported: Imported, tips: seq<Id>): IdMap {
    map r | r in tips && r in imported.ids && r !in imported.grafts && r != root :: imported.ids[r]
  }

  function WithImport(e: Evidence, imported: Imported, tips: seq<Id>): Evidence
    requires forall g <- imported.grafts :: g in imported.ids
  {
    e.(grafts := e.grafts + Entries(e.root, imported.ids, imported.grafts),
       origins := e.origins + TipEntries(e.root, imported, tips))
  }

  /** No boundary of the import contradicts a recorded one. */
  ghost predicate Recordable(e: Evidence, imported: Imported, tips: seq<Id>)
    requires forall g <- imported.grafts :: g in imported.ids
  {
    && (forall g <- imported.grafts :: g in e.grafts ==> e.grafts[g] == imported.ids[g])
    && (forall t <- tips :: t in imported.ids && t in e.origins ==> e.origins[t] == imported.ids[t])
  }

  lemma {:induction false} EntriesOne(root: Id, ids: IdMap, raws: seq<Id>, n: nat)
    requires n < |raws| && forall r <- raws :: r in ids
    ensures
      Entries(root, ids, raws[..n + 1])
        == if raws[n] == root then Entries(root, ids, raws[..n]) else Entries(root, ids, raws[..n])[raws[n] := ids[raws[n]]]
  {
    assert raws[..n + 1] == raws[..n] + [raws[n]];
  }

  lemma {:induction false} TipEntriesOne(root: Id, imported: Imported, tips: seq<Id>, n: nat)
    requires n < |tips|
    ensures
      var r := tips[n];
      TipEntries(root, imported, tips[..n + 1])
        == if r in imported.ids && r !in imported.grafts && r != root
           then TipEntries(root, imported, tips[..n])[r := imported.ids[r]] else TipEntries(root, imported, tips[..n])
  {
    assert tips[..n + 1] == tips[..n] + [tips[n]];
  }

  // ----- Every run of imports and publications -----------------------------------------------

  /** An import on top of the recovered correspondence, whose raw commits are retained. */
  ghost predicate ImportsOver(e: Evidence, im: Import, imported: Imported) {
    && im.mount != [] && im.root == e.root
    && Imports(im, imported.ids, imported.written, imported.grafts, imported.commits)
    && (forall id <- im.commits :: id != e.root ==> id in e.originals && RawParents(e, id) == im.commits[id].parents)
  }

  /**
   A map that an import may start from: it has the recorded pairs, and everything else in it matches
   its parents. It may know more than the evidence of this binding determines.
   */
  ghost predicate Carries(e: Evidence, known: IdMap) {
    && Submap(Boundaries(e), known) && Submap(e.origins, known)
    && forall raw <- known :: raw in Boundaries(e) || Matches(e, known, raw)
  }

  lemma {:induction false} CarriesIsFaithful(e: Evidence, known: IdMap)
    requires RootIsApart(e) && Carries(e, known)
    ensures Faithful(e, known)
  {
    hide Covered, Boundaries, RawParents;
    forall raw: Id | Covered(e, raw) && raw !in Boundaries(e) ensures Matches(e, known, raw) {
      CoveredWithin(e, known.Keys, raw);
    }
  }

  /** What the evidence determines is such a map. */
  lemma {:induction false} RecoveredCarries(e: Evidence, full: IdMap, known: IdMap)
    requires Faithful(e, full) && Recovered(e, full, known)
    ensures Carries(e, known)
  {
    hide Covered, Boundaries, RawParents;
    forall raw | raw in e.origins ensures raw in known && known[raw] == e.origins[raw] {
      OriginIsCovered(e, raw);
    }
    forall raw | raw in known && raw !in Boundaries(e) ensures Matches(e, known, raw) {
      assert Matches(e, full, raw);
      forall p | p in RawParents(e, raw) ensures p in known {
        CoveredBelow(e, raw, p);
      }
      StillMatches(e, e, full, known, raw);
    }
  }

  lemma {:induction false} ImportExtendsKnown(e: Evidence, im: Import, imported: Imported)
    requires ImportsOver(e, im, imported) && RootIsApart(e) && Carries(e, im.known)
    ensures Submap(im.known, imported.ids)
  {
    hide Matches;
    assert e.root in Boundaries(e) && Boundaries(e)[e.root] == Root;
    forall raw | raw in im.known ensures raw in imported.ids && imported.ids[raw] == im.known[raw] {
      assert raw in Start(im) && Start(im)[raw] == im.known[raw];
    }
  }

  /** Below every id of an import that is no boundary, the two histories match. */
  lemma {:induction false} ImportMatches(e: Evidence, im: Import, imported: Imported, tips: seq<Id>, raw: Id)
    requires RootIsApart(e) && Carries(e, im.known) && ImportsOver(e, im, imported)
    requires forall g <- imported.grafts :: g in imported.ids
    requires raw in imported.ids && raw !in Boundaries(WithImport(e, imported, tips))
    ensures Matches(e, imported.ids, raw)
  {
    var e' := WithImport(e, imported, tips);
    assert raw != e.root && raw !in Boundaries(e);
    if raw in im.known {
      ImportExtendsKnown(e, im, imported);
      StillMatches(e, e, im.known, imported.ids, raw);
    } else {
      assert raw in imported.grafts ==> raw in e'.grafts;
      assert raw !in Start(im);
      assert raw in imported.written;
      ImportIsGraphMap(im, imported.ids, imported.written, imported.grafts, imported.commits, raw);
    }
  }

  lemma {:induction false} OldEvidenceAgrees(e: Evidence, im: Import, imported: Imported)
    requires RootIsApart(e) && Carries(e, im.known) && ImportsOver(e, im, imported)
    ensures Submap(e.origins, imported.ids) && Submap(Boundaries(e), imported.ids) && Submap(Boundaries(e), im.known)
    ensures forall g <- imported.grafts :: g in imported.ids && g !in im.known && g != e.root
  {
    hide Matches, Boundaries;
    ImportExtendsKnown(e, im, imported);
    forall g | g in imported.grafts ensures g in imported.ids && g !in im.known && g != e.root {
      assert IsGraft(im, imported.ids, g);
    }
  }

  lemma NewBoundaries(e: Evidence, imported: Imported, tips: seq<Id>, raw: Id)
    requires forall g <- imported.grafts :: g in imported.ids && g !in Boundaries(e)
    ensures
      var e' := WithImport(e, imported, tips);
      && (raw in Boundaries(e') <==> raw in Boundaries(e) || raw in imported.grafts)
      && (raw in Boundaries(e) ==> Boundaries(e')[raw] == Boundaries(e)[raw])
      && (raw in imported.grafts ==> Boundaries(e')[raw] == imported.ids[raw])
  {
  }

  /** Recording an import never contradicts older boundaries, and its map explains all the evidence. */
  lemma {:induction false} ImportKeepsFaithful(e: Evidence, im: Import, imported: Imported, tips: seq<Id>)
    requires RootIsApart(e) && Carries(e, im.known) && ImportsOver(e, im, imported)
    ensures forall g <- imported.grafts :: g in imported.ids
    ensures Recordable(e, imported, tips) && Faithful(WithImport(e, imported, tips), imported.ids)
  {
    hide Covered, Matches, Boundaries, ImportsOver, Carries, RawParents;
    OldEvidenceAgrees(e, im, imported);
    GraftsAreNew(e, imported);
    var e' := WithImport(e, imported, tips);
    forall raw: Id { NewBoundaries(e, imported, tips, raw); }
    forall raw | raw in e'.origins ensures raw in imported.ids && imported.ids[raw] == e'.origins[raw] {
      TipEntriesAre(e.root, imported, tips, raw);
    }
    forall raw, p | raw in imported.ids.Keys && p in Below(e', raw) ensures p in imported.ids.Keys {
      ImportMatches(e, im, imported, tips, raw);
      SameOriginals(e, e', imported.ids, raw);
    }
    forall raw: Id | Covered(e', raw) && raw !in Boundaries(e') ensures Matches(e', imported.ids, raw) {
      CoveredWithin(e', imported.ids.Keys, raw);
      ImportMatches(e, im, imported, tips, raw);
      SameOriginals(e, e', imported.ids, raw);
    }
    GraftsStayApart(e, imported, tips);
  }

  lemma GraftsAreNew(e: Evidence, imported: Imported)
    requires forall raw <- Boundaries(e) :: raw in imported.ids
    requires forall g <- imported.grafts :: g in imported.ids && g !in Boundaries(e)
    ensures forall g <- imported.grafts :: g !in e.grafts
  {
  }

  lemma GraftsStayApart(e: Evidence, imported: Imported, tips: seq<Id>)
    requires RootIsApart(e) && forall g <- imported.grafts :: g in imported.ids
    ensures RootIsApart(WithImport(e, imported, tips))
  {
  }

  lemma SameOriginals(e: Evidence, e': Evidence, full: IdMap, raw: Id)
    requires Matches(e, full, raw) && e'.originals == e.originals && e'.root == e.root
    ensures Matches(e', full, raw) && forall p <- RawParents(e', raw) :: p in full
  {
  }

  lemma OriginIsCovered(e: Evidence, raw: Id)
    requires raw in e.origins
    ensures Covered(e, raw)
  {
  }

  /** Recording a publication of a commit that is not known yet. */
  lemma {:induction false} PublishKeepsFaithful(e: Evidence, full: IdMap, raw: Id, canonical: DestCommit)
    requires Faithful(e, full) && raw != e.root && raw !in Boundaries(e) && !Covered(e, raw)
    ensures Faithful(WithAnchor(e, Published, raw, canonical), full[raw := canonical])
  {
    hide Covered, Matches, RawParents, Boundaries;
    var e', full' := WithAnchor(e, Published, raw, canonical), full[raw := canonical];
    OneMoreBoundary(e, raw, canonical);
    forall r | r in e.origins ensures r != raw {
      OriginIsCovered(e, r);
    }
    forall r: Id | Covered(e', r) ensures Covered(e, r) {
      FewerCovered(e, e', full, r);
    }
    forall r: Id | Covered(e', r) && r !in Boundaries(e') ensures Matches(e', full', r) {
      MatchFacts(e, full, r);
      forall p | p in RawParents(e, r) ensures p != raw {
        CoveredBelow(e, r, p);
      }
      StillMatches(e, e', full, full', r);
    }
  }

  lemma OneMoreBoundary(e: Evidence, raw: Id, canonical: DestCommit)
    requires raw != e.root
    ensures Boundaries(WithAnchor(e, Published, raw, canonical)) == Boundaries(e)[raw := canonical]
  {
  }

  lemma MatchFacts(e: Evidence, full: IdMap, r: Id)
    requires Matches(e, full, r)
    ensures r in e.originals && r in full && forall p <- RawParents(e, r) :: p in full
  {
  }

  lemma {:induction false} StillMatches(e: Evidence, e': Evidence, full: IdMap, full': IdMap, r: Id)
    requires Matches(e, full, r) && r in e'.originals && e'.originals[r] == e.originals[r] && e'.root == e.root
    requires r in full' && full'[r] == full[r] && forall p <- RawParents(e, r) :: p in full' && full'[p] == full[p]
    ensures Matches(e', full', r)
  {
    assert MapAll(full', RawParents(e, r)) == MapAll(full, RawParents(e, r));
  }

  /** More boundaries or more retained commits never make the tips cover more. */
  lemma {:induction false} FewerCovered(e: Evidence, e': Evidence, full: IdMap, r: Id)
    requires Faithful(e, full) && Covered(e', r) && e'.origins == e.origins && e'.root == e.root
    requires forall raw <- Boundaries(e) :: raw in Boundaries(e')
    requires forall raw <- e.originals :: raw in e'.originals && e'.originals[raw] == e.originals[raw]
    ensures Covered(e, r)
  {
    hide Covered, Boundaries;
    var nodes := set x | x in full && Covered(e, x);
    forall x | x in e.origins ensures x in nodes {
      OriginIsCovered(e, x);
    }
    forall x, p | x in nodes && p in Below(e', x) ensures p in nodes {
      assert x !in Boundaries(e);
      assert Matches(e, full, x);
      CoveredBelow(e, x, p);
    }
    CoveredWithin(e', nodes, r);
  }

  /** Retaining more raw commits changes nothing that the evidence determines. */
  lemma {:induction false} RetainKeepsFaithful(e: Evidence, full: IdMap, originals: map<Id, seq<Id>>)
    requires Faithful(e, full) && forall raw <- e.originals :: raw in originals && originals[raw] == e.originals[raw]
    ensures Faithful(e.(originals := originals), full)
  {
    hide Covered, Matches, Boundaries;
    var e' := e.(originals := originals);
    SameBoundaries(e, e');
    forall r: Id | Covered(e', r) && r !in Boundaries(e') ensures Matches(e', full, r) {
      FewerCovered(e, e', full, r);
      MatchFacts(e, full, r);
      MatchesSame(e, e', full, r);
    }
  }

  lemma {:induction false} MatchesSame(e: Evidence, e': Evidence, full: IdMap, r: Id)
    requires Matches(e, full, r) && e'.root == e.root && r in e'.originals && (r in e.originals ==> e'.originals[r] == e.originals[r])
    ensures Matches(e', full, r)
  {
    StillMatches(e, e', full, full, r);
  }

  lemma SameBoundaries(e: Evidence, e': Evidence)
    requires e'.grafts == e.grafts && e'.published == e.published && e'.root == e.root
    ensures Boundaries(e') == Boundaries(e)
  {
  }

  /** The evidence of a binding, with the correspondence of its latest conversion. */
  datatype State = State(evidence: Evidence, full: IdMap)

  ghost predicate Initial(s: State) {
    s.evidence.origins == map[] && s.evidence.grafts == map[] && s.evidence.published == map[] && s.full == map[s.evidence.root := Root]
  }

  ghost predicate ImportStep(s: State, s': State, im: Import, imported: Imported, tips: seq<Id>) {
    && Carries(s.evidence, im.known) && ImportsOver(s.evidence, im, imported)
    && (forall g <- imported.grafts :: g in imported.ids)
    && s' == State(WithImport(s.evidence, imported, tips), imported.ids)
  }

  ghost predicate PublishStep(s: State, s': State, raw: Id, canonical: DestCommit) {
    && raw != s.evidence.root && raw !in Boundaries(s.evidence) && !Covered(s.evidence, raw)
    && s' == State(WithAnchor(s.evidence, Published, raw, canonical), s.full[raw := canonical])
  }

  ghost predicate RetainStep(s: State, s': State) {
    && (forall raw <- s.evidence.originals :: raw in s'.evidence.originals && s'.evidence.originals[raw] == s.evidence.originals[raw])
    && s' == State(s.evidence.(originals := s'.evidence.originals), s.full)
  }

  ghost predicate Step(s: State, s': State) {
    || (exists im, imported, tips :: ImportStep(s, s', im, imported, tips))
    || (exists raw, canonical :: PublishStep(s, s', raw, canonical))
    || RetainStep(s, s')
  }

  ghost predicate Run(states: seq<State>) {
    states != [] && Initial(states[0]) && forall i | 0 < i < |states| :: Step(states[i - 1], states[i])
  }

  lemma StartIsFaithful(s: State)
    requires Initial(s)
    ensures Faithful(s.evidence, s.full)
  {
  }

  lemma {:induction false} StepKeepsFaithful(s: State, s': State)
    requires Faithful(s.evidence, s.full) && Step(s, s')
    ensures Faithful(s'.evidence, s'.full)
  {
    hide Faithful, Carries, ImportsOver, Covered, RootIsApart;
    if im, imported, tips :| ImportStep(s, s', im, imported, tips) {
      FaithfulIsApart(s.evidence, s.full);
      ImportKeepsFaithful(s.evidence, im, imported, tips);
    } else if raw, canonical :| PublishStep(s, s', raw, canonical) {
      PublishKeepsFaithful(s.evidence, s.full, raw, canonical);
    } else {
      RetainKeepsFaithful(s.evidence, s.full, s'.evidence.originals);
    }
  }

  lemma FaithfulIsApart(e: Evidence, full: IdMap)
    requires Faithful(e, full)
    ensures RootIsApart(e)
  {
  }

  /** After any run, the boundary pairs still determine the correspondence they were taken from. */
  lemma {:induction false} RunsAreFaithful(states: seq<State>, i: nat)
    requires Run(states) && i < |states|
    ensures Faithful(states[i].evidence, states[i].full)
  {
    hide Faithful, Step;
    if i == 0 {
      StartIsFaithful(states[0]);
    } else {
      RunsAreFaithful(states, i - 1);
      StepKeepsFaithful(states[i - 1], states[i]);
    }
  }

  // ----- What was determined stays ---------------------------------------------------------------

  ghost predicate Determined(e: Evidence, r: Id) {
    r in Boundaries(e) || Covered(e, r)
  }

  /** New tips and boundaries keep what was covered, as long as no boundary is put on it. */
  lemma {:induction false} StillCovered(e: Evidence, e': Evidence, full: IdMap, r: Id)
    requires Faithful(e, full) && Covered(e, r) && e'.root == e.root
    requires e.origins.Keys <= e'.origins.Keys && Submap(e.originals, e'.originals)
    requires forall x: Id :: Covered(e, x) && x in Boundaries(e') ==> x in Boundaries(e)
    ensures Covered(e', r)
  {
    hide Covered, Boundaries;
    var nodes := set x | x in full && Covered(e, x) && Covered(e', x);
    forall x | x in e.origins ensures x in nodes {
      OriginIsCovered(e, x);
      OriginIsCovered(e', x);
    }
    forall x, p | x in nodes && p in Below(e, x) ensures p in nodes {
      assert Matches(e, full, x);
      CoveredBelow(e, x, p);
      CoveredBelow(e', x, p);
    }
    CoveredWithin(e, nodes, r);
  }

  lemma {:induction false} ImportKeepsDetermined(s: State, s': State, im: Import, imported: Imported, tips: seq<Id>, r: Id)
    requires Faithful(s.evidence, s.full) && ImportStep(s, s', im, imported, tips) && Determined(s.evidence, r)
    ensures Determined(s'.evidence, r) && r in s.full && r in s'.full && s'.full[r] == s.full[r]
  {
    hide Covered, Boundaries, ImportsOver, RawParents, Carries, Faithful;
    var e, e' := s.evidence, s'.evidence;
    FaithfulIsApart(e, s.full);
    OldEvidenceAgrees(e, im, imported);
    ImportExtendsKnown(e, im, imported);
    CarriesIsFaithful(e, im.known);
    FaithfulAlike(e, s.full, im.known, r);
    forall x: Id { NewBoundaries(e, imported, tips, x); }
    if r !in Boundaries(e) {
      forall x: Id | Covered(e, x) && x in Boundaries(e') ensures x in Boundaries(e) {
        FaithfulAlike(e, s.full, im.known, x);
      }
      StillCovered(e, e', s.full, r);
    }
  }

  lemma {:induction false} PublishKeepsDetermined(s: State, s': State, raw: Id, canonical: DestCommit, r: Id)
    requires Faithful(s.evidence, s.full) && PublishStep(s, s', raw, canonical) && Determined(s.evidence, r)
    ensures Determined(s'.evidence, r) && r in s.full && r in s'.full && s'.full[r] == s.full[r]
  {
    hide Covered, Boundaries, RawParents, Faithful;
    OneMoreBoundary(s.evidence, raw, canonical);
    FaithfulAlike(s.evidence, s.full, s.full, r);
    if r !in Boundaries(s.evidence) {
      StillCovered(s.evidence, s'.evidence, s.full, r);
    }
  }

  lemma {:induction false} RetainKeepsDetermined(s: State, s': State, r: Id)
    requires Faithful(s.evidence, s.full) && RetainStep(s, s') && Determined(s.evidence, r)
    ensures Determined(s'.evidence, r) && r in s.full && r in s'.full && s'.full[r] == s.full[r]
  {
    hide Covered, Boundaries, RawParents, Faithful;
    SameBoundaries(s.evidence, s'.evidence);
    FaithfulAlike(s.evidence, s.full, s.full, r);
    if r !in Boundaries(s.evidence) {
      StillCovered(s.evidence, s'.evidence, s.full, r);
    }
  }

  /** Over every run, what the evidence once determined it determines for good, and alike. */
  lemma {:induction false} DeterminedForGood(states: seq<State>, i: nat, j: nat, r: Id)
    requires Run(states) && i <= j < |states| && Determined(states[i].evidence, r)
    ensures Determined(states[j].evidence, r) && r in states[i].full && r in states[j].full
    ensures states[j].full[r] == states[i].full[r]
    decreases j
  {
    hide Faithful, ImportStep, PublishStep, RetainStep, Determined;
    RunsAreFaithful(states, i);
    if i == j {
      DeterminedIsMapped(states[i].evidence, states[i].full, r);
    } else {
      DeterminedForGood(states, i, j - 1, r);
      RunsAreFaithful(states, j - 1);
      var s, s' := states[j - 1], states[j];
      if im, imported, tips :| ImportStep(s, s', im, imported, tips) {
        ImportKeepsDetermined(s, s', im, imported, tips, r);
      } else if raw, canonical :| PublishStep(s, s', raw, canonical) {
        PublishKeepsDetermined(s, s', raw, canonical, r);
      } else {
        RetainKeepsDetermined(s, s', r);
      }
    }
  }

  lemma {:induction false} DeterminedIsMapped(e: Evidence, full: IdMap, r: Id)
    requires Faithful(e, full) && Determined(e, r)
    ensures r in full
  {
    hide Covered, Boundaries, Faithful;
    FaithfulAlike(e, full, full, r);
  }
}
