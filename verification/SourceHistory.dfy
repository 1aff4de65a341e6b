/**
 The walks of a source repository: normalizing fetched history, and denormalizing history for
 export. Objects live in stores that the walks read and write; ids are object contents.
 */
module SourceHistory {
  import opened Wrappers
  import opened Objects
  import opened Normalization
  import opened Walks
  import ObjectCopy

  datatype Pair = Pair(raw: Object, input: Object)

  datatype Normalized = Normalized(tips: CommitMap, pairs: seq<Pair>)

  ghost function AncestryOf(cut: set<Object>, tips: seq<Object>): set<Object> {
    set t, x | t in tips && x in Ancestry(cut, t) :: x
  }

  lemma {:induction false} AncestryOfIsClosed(cut: set<Object>, tips: seq<Object>)
    ensures forall t <- tips :: t in AncestryOf(cut, tips)
    ensures forall x <- AncestryOf(cut, tips), p <- Parents(cut, x) :: p in AncestryOf(cut, tips)
  {
    forall t | t in tips ensures t in AncestryOf(cut, tips) {
      assert t in Ancestry(cut, t);
    }
    forall x, p | x in AncestryOf(cut, tips) && p in Parents(cut, x) ensures p in AncestryOf(cut, tips) {
      var t :| t in tips && x in Ancestry(cut, t);
      AncestryStep(cut, t, x, p);
    }
  }

  lemma {:induction false} AncestryWithin(cut: set<Object>, c: Object, nodes: set<Object>)
    requires c in nodes && forall x <- nodes, p <- Parents(cut, x) :: p in nodes
    ensures Ancestry(cut, c) <= nodes
    decreases c
  {
    forall p | p in Parents(cut, c) ensures Ancestry(cut, p) <= nodes {
      AncestryWithin(cut, p, nodes);
    }
  }

  // ----- Normalizing a fetched history -------------------------------------------------------

  /** Each pair after the pairs of its parents. */
  ghost predicate ParentsFirst(cut: set<Object>, pairs: seq<Pair>) {
    forall i, p | 0 <= i < |pairs| && p in Parents(cut, pairs[i].raw) :: exists j | 0 <= j < i :: pairs[j].raw == p
  }

  /** `pairs` lists the raw history above the cut with its normal forms, once each, parents first. */
  ghost predicate Generation(cut: set<Object>, history: set<Object>, pairs: seq<Pair>) {
    && (forall q <- pairs :: q.raw in history && q.input == Normal(cut, q.raw))
    && (forall x <- history :: Pair(x, Normal(cut, x)) in pairs)
    && (forall i, j | 0 <= i < j < |pairs| :: pairs[i].raw != pairs[j].raw)
    && ParentsFirst(cut, pairs)
  }

  ghost predicate NormalWalk(cut: set<Object>, tips: seq<Object>, pending: seq<Work<Object>>, active: set<Object>, done: set<Object>) {
    Walking((c: Object) => Parents(cut, c), AncestryOf(cut, tips), tips, pending, active, done)
  }

  lemma NormalStarts(cut: set<Object>, tips: seq<Object>)
    ensures NormalWalk(cut, tips, Enters(tips), {}, {})
    ensures Found(cut, map[], []) && Rewrites(cut, {}) == {}
  {
    AncestryOfIsClosed(cut, tips);
    Starts((c: Object) => Parents(cut, c), AncestryOf(cut, tips), tips, {});
  }

  lemma {:induction false} NormalTop(cut: set<Object>, tips: seq<Object>, rest: seq<Work<Object>>, top: Work<Object>, active: set<Object>, done: set<Object>)
    requires NormalWalk(cut, tips, rest + [top], active, done)
    ensures top.node in AncestryOf(cut, tips)
    ensures top.Enter? ==> top.node !in active
    ensures top.Exit? ==> top.node in active && top.node !in done && forall p <- Parents(cut, top.node) :: p in done
  {
    var next := (c: Object) => Parents(cut, c);
    Top(next, AncestryOf(cut, tips), tips, rest, top, active, done);
    NoCycles(next, top.node);
  }

  lemma {:induction false} NormalSkip(cut: set<Object>, tips: seq<Object>, rest: seq<Work<Object>>, top: Work<Object>, active: set<Object>, done: set<Object>)
    requires NormalWalk(cut, tips, rest + [top], active, done) && top.Enter? && top.node in done
    ensures NormalWalk(cut, tips, rest, active, done)
  {
    NormalTop(cut, tips, rest, top, active, done);
    Skip((c: Object) => Parents(cut, c), AncestryOf(cut, tips), tips, rest, top, active, done);
    assert done + {top.node} == done;
  }

  lemma {:induction false} NormalEnter(cut: set<Object>, tips: seq<Object>, rest: seq<Work<Object>>, top: Work<Object>, active: set<Object>, done: set<Object>)
    requires NormalWalk(cut, tips, rest + [top], active, done) && top.Enter? && top.node !in done
    ensures NormalWalk(cut, tips, rest + [Exit(top.node)] + Enters(Parents(cut, top.node)), active + {top.node}, done)
    ensures Unseen(AncestryOf(cut, tips), active + {top.node}, done) < Unseen(AncestryOf(cut, tips), active, done)
  {
    NormalTop(cut, tips, rest, top, active, done);
    AncestryOfIsClosed(cut, tips);
    Push((c: Object) => Parents(cut, c), AncestryOf(cut, tips), tips, rest, top, active, done);
  }

  lemma {:induction false} NormalLeave(cut: set<Object>, tips: seq<Object>, rest: seq<Work<Object>>, top: Work<Object>, active: set<Object>, done: set<Object>)
    requires NormalWalk(cut, tips, rest + [top], active, done) && top.Exit?
    ensures NormalWalk(cut, tips, rest, active - {top.node}, done + {top.node})
    ensures Unseen(AncestryOf(cut, tips), active - {top.node}, done + {top.node}) == Unseen(AncestryOf(cut, tips), active, done)
  {
    Leave((c: Object) => Parents(cut, c), AncestryOf(cut, tips), tips, rest, top, active, done);
  }

  /** The pairs found so far are the generation of the nodes that are done. */
  ghost predicate Found(cut: set<Object>, mapped: CommitMap, pairs: seq<Pair>) {
    Generation(cut, mapped.Keys, pairs) && forall x <- mapped :: mapped[x] == Normal(cut, x)
  }

  lemma {:induction false} ParentsFirstOne(cut: set<Object>, pairs: seq<Pair>, q: Pair)
    requires ParentsFirst(cut, pairs) && forall p <- Parents(cut, q.raw) :: exists r <- pairs :: r.raw == p
    ensures ParentsFirst(cut, pairs + [q])
  {
    var pairs' := pairs + [q];
    forall i, p | 0 <= i < |pairs'| && p in Parents(cut, pairs'[i].raw)
      ensures exists j | 0 <= j < i :: pairs'[j].raw == p
    {
      if i < |pairs| {
        assert pairs'[i] == pairs[i];
        var j :| 0 <= j < i && pairs[j].raw == p;
        assert pairs'[j].raw == p;
      } else {
        var j :| 0 <= j < |pairs| && pairs[j].raw == p;
        assert pairs'[j].raw == p;
      }
    }
  }

  lemma FoundParents(cut: set<Object>, mapped: CommitMap, pairs: seq<Pair>, id: Object)
    requires Found(cut, mapped, pairs) && forall p <- Parents(cut, id) :: p in mapped
    ensures forall p <- Parents(cut, id) :: p in mapped && mapped[p] == Normal(cut, p)
  {
  }

  lemma {:induction false} FoundOne(cut: set<Object>, mapped: CommitMap, pairs: seq<Pair>, id: Object)
    requires Found(cut, mapped, pairs) && id !in mapped && forall p <- Parents(cut, id) :: p in mapped
    ensures Found(cut, mapped[id := Normal(cut, id)], pairs + [Pair(id, Normal(cut, id))])
  {
    hide Normal, ParentsFirst;
    var q := Pair(id, Normal(cut, id));
    forall p | p in Parents(cut, id) ensures exists r <- pairs :: r.raw == p {
      assert Pair(p, Normal(cut, p)) in pairs;
    }
    ParentsFirstOne(cut, pairs, q);
    AppendPair(cut, mapped.Keys, pairs, q);
    assert mapped[id := q.input].Keys == mapped.Keys + {id};
  }

  lemma {:induction false} AppendPair(cut: set<Object>, nodes: set<Object>, pairs: seq<Pair>, q: Pair)
    requires Generation(cut, nodes, pairs) && q.raw !in nodes && q.input == Normal(cut, q.raw)
    ensures
      var more := pairs + [q];
      && (forall r <- more :: r.raw in nodes + {q.raw} && r.input == Normal(cut, r.raw))
      && (forall x <- nodes + {q.raw} :: Pair(x, Normal(cut, x)) in more)
      && (forall i, j | 0 <= i < j < |more| :: more[i].raw != more[j].raw)
  {
    hide Normal, ParentsFirst;
    var more := pairs + [q];
    assert forall r <- more :: r in pairs || r == q;
    assert more[|pairs|] == q && forall r <- pairs :: r in more;
    forall i, j | 0 <= i < j < |more| ensures more[i].raw != more[j].raw {
      assert more[i] == pairs[i] && pairs[i] in pairs;
    }
  }

  lemma {:induction false} FoundIsClosed(cut: set<Object>, mapped: CommitMap, pairs: seq<Pair>, x: Object, p: Object)
    requires Found(cut, mapped, pairs) && x in mapped && p in Parents(cut, x)
    ensures p in mapped
  {
    assert Pair(x, Normal(cut, x)) in pairs;
    var i :| 0 <= i < |pairs| && pairs[i] == Pair(x, Normal(cut, x));
    assert p in Parents(cut, pairs[i].raw);
    var j :| 0 <= j < i && pairs[j].raw == p;
    assert pairs[j] in pairs;
  }

  lemma {:induction false} FoundCovers(cut: set<Object>, tips: seq<Object>, mapped: CommitMap, pairs: seq<Pair>)
    requires Found(cut, mapped, pairs) && forall t <- tips :: t in mapped
    ensures AncestryOf(cut, tips) <= mapped.Keys
  {
    hide Found;
    forall x, p | x in mapped.Keys && p in Parents(cut, x) ensures p in mapped.Keys {
      FoundIsClosed(cut, mapped, pairs, x, p);
    }
    forall t | t in tips ensures Ancestry(cut, t) <= mapped.Keys {
      AncestryWithin(cut, t, mapped.Keys);
    }
  }

  lemma {:induction false} NormalEnds(cut: set<Object>, tips: seq<Object>, active: set<Object>, mapped: CommitMap, pairs: seq<Pair>)
    requires NormalWalk(cut, tips, [], active, mapped.Keys) && Found(cut, mapped, pairs)
    ensures mapped.Keys == AncestryOf(cut, tips) && Generation(cut, AncestryOf(cut, tips), pairs)
    ensures forall t <- tips :: t in mapped && mapped[t] == Normal(cut, t)
  {
    hide AncestryOf, Generation, Normal, Parents;
    Ends((c: Object) => Parents(cut, c), AncestryOf(cut, tips), tips, active, mapped.Keys);
    FoundCovers(cut, tips, mapped, pairs);
  }

  /** The commits that normalizing `nodes` writes. */
  ghost function Rewrites(cut: set<Object>, nodes: set<Object>): set<Object> {
    set x | x in nodes && Normal(cut, x) != x :: Normal(cut, x)
  }

  lemma RewritesOne(cut: set<Object>, nodes: set<Object>, id: Object)
    ensures Rewrites(cut, nodes + {id}) == Rewrites(cut, nodes) + if Normal(cut, id) != id then {Normal(cut, id)} else {}
  {
  }

  lemma RewritesWithin(cut: set<Object>, nodes: set<Object>, all: set<Object>)
    requires nodes <= all
    ensures Rewrites(cut, nodes) <= Rewrites(cut, all)
  {
  }

  /** What normalizing needs: the cut history as commits, and complete normalized closures. */
  ghost predicate Normalizable(cut: set<Object>, objects: set<Object>, tips: seq<Object>) {
    && Readable(objects, AncestryOf(cut, tips))
    && ObjectCopy.Copyable({}, objects, NormalTips(cut, tips))
  }

  function NormalTips(cut: set<Object>, tips: seq<Object>): seq<Object> {
    seq(|tips|, i requires 0 <= i < |tips| => Normal(cut, tips[i]))
  }

  function TipMap(cut: set<Object>, tips: seq<Object>): CommitMap {
    map t | t in tips :: Normal(cut, t)
  }

  /** The id that the walk gives a commit whose parents are mapped. */
  function Renormalized(cut: set<Object>, mapped: CommitMap, id: Object): (n: Object)
    requires id.Commit? && forall p <- Parents(cut, id) :: p in mapped && mapped[p] == Normal(cut, p)
    ensures n == Normal(cut, id)
  {
    var parents := MapAll(mapped, Parents(cut, id));
    assert parents == NormalParents(cut, id);
    if id.parents == parents then id else Rewritten(id, parents, Some(id))
  }

  ghost predicate Readable(objects: set<Object>, nodes: set<Object>) {
    forall x <- nodes :: x in objects && x.Commit?
  }

  /** The enter/exit walk of `Normalize`. */
  method NormalizeGraph(tx: ObjectCopy.Store, shallow: set<Object>, tips: seq<Object>)
    returns (error: Option<Error>, mapped: CommitMap, pairs: seq<Pair>)
    modifies tx
    ensures mapped.Keys <= AncestryOf(shallow, tips)
    ensures tx.objects == old(tx.objects) + Rewrites(shallow, mapped.Keys)
    ensures error.Some? ==> !error.value.Cycle? && !Readable(tx.objects, AncestryOf(shallow, tips))
    ensures error.None? ==> Readable(tx.objects, AncestryOf(shallow, tips))
    ensures error.None? ==> mapped.Keys == AncestryOf(shallow, tips) && Generation(shallow, AncestryOf(shallow, tips), pairs)
    ensures error.None? ==> forall t <- tips :: t in mapped && mapped[t] == Normal(shallow, t)
  {
    hide NormalWalk, Found, Generation, AncestryOf, Rewrites, Normal, Parents;
    error, mapped, pairs := None, map[], [];
    var active: set<Object> := {};
    var pending := Enters(tips);
    NormalStarts(shallow, tips);
    assert mapped.Keys == {};
    while pending != []
      invariant NormalWalk(shallow, tips, pending, active, mapped.Keys)
      invariant mapped.Keys <= AncestryOf(shallow, tips)
      invariant Found(shallow, mapped, pairs)
      invariant Readable(tx.objects, active) && Readable(tx.objects, mapped.Keys)
      invariant tx.objects == old(tx.objects) + Rewrites(shallow, mapped.Keys)
      decreases Unseen(AncestryOf(shallow, tips), active, mapped.Keys), |pending|
    {
      var n := |pending| - 1;
      var rest, top := pending[..n], pending[n];
      SplitLast(pending);
      NormalTop(shallow, tips, rest, top, active, mapped.Keys);
      match top {
        case Enter(id) =>
          if id in mapped {
            NormalSkip(shallow, tips, rest, top, active, mapped.Keys);
            pending := rest;
          } else if id in active {
            return Some(Cycle(id)), mapped, pairs;
          } else if id !in tx.objects || !id.Commit? {
            return Some(if id !in tx.objects then Missing(id) else WrongKind(id)), mapped, pairs;
          } else {
            NormalEnter(shallow, tips, rest, top, active, mapped.Keys);
            pending, active := rest + [Exit(id)] + Enters(Parents(shallow, id)), active + {id};
          }
        case Exit(id) =>
          FoundParents(shallow, mapped, pairs, id);
          var rewritten := Renormalized(shallow, mapped, id);
          RewritesOne(shallow, mapped.Keys, id);
          NormalLeave(shallow, tips, rest, top, active, mapped.Keys);
          FoundOne(shallow, mapped, pairs, id);
          if rewritten != id {
            tx.objects := tx.objects + {rewritten};
          }
          assert mapped[id := rewritten].Keys == mapped.Keys + {id};
          mapped, active, pairs := mapped[id := rewritten], active - {id}, pairs + [Pair(id, rewritten)];
          pending := rest;
      }
    }
    NormalEnds(shallow, tips, active, mapped, pairs);
  }

  /** Cuts the declared shallow edges of the history of `tips` and rewrites only what lies above them. */
  method Normalize(tx: ObjectCopy.Store, shallow: set<Object>, tips: seq<Object>) returns (result: Result<Normalized>)
    modifies tx
    ensures old(tx.objects) <= tx.objects <= old(tx.objects) + Rewrites(shallow, AncestryOf(shallow, tips))
    ensures result.Ok? ==> tx.objects == old(tx.objects) + Rewrites(shallow, AncestryOf(shallow, tips))
    ensures result.Ok? <==> Normalizable(shallow, tx.objects, tips)
    ensures result.Err? ==> !result.error.Cycle?
    ensures result.Ok? ==> Generation(shallow, AncestryOf(shallow, tips), result.value.pairs)
    ensures result.Ok? ==> result.value.tips == TipMap(shallow, tips)
  {
    hide Generation, AncestryOf, Rewrites, Normal;
    var error, mapped, pairs := NormalizeGraph(tx, shallow, tips);
    RewritesWithin(shallow, mapped.Keys, AncestryOf(shallow, tips));
    if error.Some? {
      return Err(error.value);
    }
    var normalTips := MapAll(mapped, tips);
    assert normalTips == NormalTips(shallow, tips);
    var checked := ObjectCopy.CheckObjects(tx.objects, normalTips, {});
    if checked.Err? {
      return Err(checked.error);
    }
    result := Ok(Normalized(map t | t in tips :: mapped[t], pairs));
  }

  // ----- Denormalizing history for export ----------------------------------------------------

  /** Pairs that never send one input to two originals, also not against what is known. */
  ghost predicate Agreeing(known: CommitMap, pairs: seq<Pair>) {
    && (forall q <- pairs :: q.input in known ==> known[q.input] == q.raw)
    && (forall q <- pairs, r <- pairs :: q.input == r.input ==> q.raw == r.raw)
  }

  /** `all` is `known` with the pairs added, and nothing else. */
  ghost predicate Adds(known: CommitMap, pairs: seq<Pair>, all: CommitMap) {
    && (forall c <- known :: c in all && all[c] == known[c])
    && (forall q <- pairs :: q.input in all && all[q.input] == q.raw)
    && (forall c <- all :: c in known || Pair(all[c], c) in pairs)
  }

  method InsertMappings(known: CommitMap, pairs: seq<Pair>) returns (error: Option<Error>, all: CommitMap)
    ensures error.None? <==> Agreeing(known, pairs)
    ensures error.None? ==> Adds(known, pairs, all)
    ensures error.Some? ==> error.value.Ambiguous?
  {
    error, all := None, known;
    var i := 0;
    while i < |pairs|
      invariant 0 <= i <= |pairs|
      invariant Adds(known, pairs[..i], all)
      invariant Agreeing(known, pairs[..i])
    {
      var q := pairs[i];
      assert pairs[..i + 1] == pairs[..i] + [q];
      if q.input in all && all[q.input] != q.raw {
        assert q in pairs;
        if q.input !in known {
          assert Pair(all[q.input], q.input) in pairs;
        }
        return Some(Ambiguous(q.input)), all;
      }
      all := all[q.input := q.raw];
      i := i + 1;
    }
    assert pairs[..i] == pairs;
  }

  /** Known raw originals also stand for themselves. */
  function WithOriginals(anchors: CommitMap): CommitMap {
    map c | c in anchors.Keys + anchors.Values :: if c in anchors then anchors[c] else c
  }

  /** The anchors of an export: what is persisted, the pairs it is given, and their originals. */
  ghost function ExportAnchors(inverse: CommitMap, pairs: seq<Pair>): CommitMap
    requires Agreeing(inverse, pairs)
  {
    WithOriginals(inverse + Given(pairs))
  }

  ghost function Given(pairs: seq<Pair>): CommitMap
    requires Agreeing(map[], pairs)
  {
    map q | q in pairs :: q.input := q.raw
  }

  lemma GivenIs(pairs: seq<Pair>)
    requires Agreeing(map[], pairs)
    ensures forall q <- pairs :: q.input in Given(pairs) && Given(pairs)[q.input] == q.raw
    ensures forall c <- Given(pairs) :: Pair(Given(pairs)[c], c) in pairs
  {
  }

  /** Known inputs are anchored in their originals, and these in themselves: an export never walks below either. */
  lemma {:induction false} OriginalsAreTerminal(inverse: CommitMap, pairs: seq<Pair>, c: Object)
    requires Agreeing(inverse, pairs)
    ensures
      var anchors := ExportAnchors(inverse, pairs);
      && (c in inverse ==> Denormal(anchors, c) == inverse[c] && inverse[c] in anchors && Parents(anchors.Keys, inverse[c]) == [])
      && (forall q <- pairs :: Denormal(anchors, q.input) == q.raw && q.raw in anchors && Parents(anchors.Keys, q.raw) == [])
      && (c in anchors && c !in inverse && (forall q <- pairs :: q.input != c) ==> Denormal(anchors, c) == c)
  {
    hide Given;
    GivenIs(pairs);
    var all := inverse + Given(pairs);
    forall q | q in pairs ensures all[q.input] == q.raw && q.raw in all.Values {
      assert q.input in all;
    }
    if c in inverse {
      assert all[c] == inverse[c] by {
        if c in Given(pairs) {
          assert Pair(Given(pairs)[c], c) in pairs;
        }
      }
      assert inverse[c] in all.Values;
    }
    if c in Given(pairs) {
      assert Pair(Given(pairs)[c], c) in pairs;
    }
  }

  lemma {:induction false} AnchorsAreAdded(inverse: CommitMap, pairs: seq<Pair>, all: CommitMap)
    requires Agreeing(inverse, pairs) && Adds(inverse, pairs, all)
    ensures WithOriginals(all) == ExportAnchors(inverse, pairs)
  {
    hide WithOriginals, Given;
    GivenIs(pairs);
    var sum := inverse + Given(pairs);
    forall c | c in all ensures c in sum && sum[c] == all[c] {
      if c !in inverse {
        assert Pair(all[c], c) in pairs;
      }
    }
    assert all == sum;
  }

  ghost predicate Exportable(anchors: CommitMap, objects: set<Object>, tip: Object) {
    forall x <- Ancestry(anchors.Keys, tip) :: MapOrSelf(anchors, x) in objects && MapOrSelf(anchors, x).Commit?
  }

  ghost function Exports(anchors: CommitMap, nodes: set<Object>): set<Object> {
    set x | x in nodes && x !in anchors && Denormal(anchors, x) != x :: Denormal(anchors, x)
  }

  lemma ExportsOne(anchors: CommitMap, nodes: set<Object>, id: Object)
    ensures Exports(anchors, nodes + {id}) ==
      Exports(anchors, nodes) + if id !in anchors && Denormal(anchors, id) != id then {Denormal(anchors, id)} else {}
  {
  }

  lemma AncestryOfOne(cut: set<Object>, tip: Object)
    ensures AncestryOf(cut, [tip]) == Ancestry(cut, tip)
  {
  }

  lemma {:induction false} NormalAnchor(cut: set<Object>, tips: seq<Object>, rest: seq<Work<Object>>, top: Work<Object>, active: set<Object>, done: set<Object>)
    requires NormalWalk(cut, tips, rest + [top], active, done) && top.Enter?
    ensures NormalWalk(cut, tips, rest, active, done + {top.node})
    ensures Unseen(AncestryOf(cut, tips), active, done + {top.node}) <= Unseen(AncestryOf(cut, tips), active, done)
  {
    NormalTop(cut, tips, rest, top, active, done);
    Skip((c: Object) => Parents(cut, c), AncestryOf(cut, tips), tips, rest, top, active, done);
  }

  /** The id that the export walk gives a commit whose parents are mapped. */
  function Redenormalized(anchors: CommitMap, mapped: CommitMap, id: Object): (d: Object)
    requires id.Commit? && id !in anchors && forall p <- id.parents :: p in mapped && mapped[p] == Denormal(anchors, p)
    ensures d == Denormal(anchors, id)
  {
    var parents := MapAll(mapped, id.parents);
    assert parents == DenormalParents(anchors, id);
    if !HasProvenance(id) && id.parents == parents then id else Rewritten(id, parents, None)
  }

  ghost predicate Exporting(anchors: CommitMap, objects: set<Object>, mapped: CommitMap) {
    forall x <- mapped ::
      mapped[x] == Denormal(anchors, x) && MapOrSelf(anchors, x) in objects && MapOrSelf(anchors, x).Commit?
      && forall p <- Parents(anchors.Keys, x) :: p in mapped
  }

  lemma {:induction false} ExportEnds(anchors: CommitMap, tip: Object, active: set<Object>, objects: set<Object>, mapped: CommitMap)
    requires NormalWalk(anchors.Keys, [tip], [], active, mapped.Keys) && Exporting(anchors, objects, mapped)
    ensures tip in mapped && mapped.Keys == Ancestry(anchors.Keys, tip) && Exportable(anchors, objects, tip)
  {
    hide AncestryOf, Denormal;
    Ends((c: Object) => Parents(anchors.Keys, c), AncestryOf(anchors.Keys, [tip]), [tip], active, mapped.Keys);
    assert tip in [tip];
    AncestryOfOne(anchors.Keys, tip);
    AncestryWithin(anchors.Keys, tip, mapped.Keys);
  }

  /** Rebuilds the raw form of `tip`; known originals are terminal, even if their parents are absent. */
  method Denormalize(tx: ObjectCopy.Store, anchors: CommitMap, tip: Object)
    returns (error: Option<Error>, mapped: CommitMap)
    modifies tx
    ensures tx.objects == old(tx.objects) + Exports(anchors, mapped.Keys)
    ensures error.None? <==> Exportable(anchors, tx.objects, tip)
    ensures error.Some? ==> !error.value.Cycle?
    ensures error.None? ==> tip in mapped && mapped.Keys == Ancestry(anchors.Keys, tip)
    ensures error.None? ==> forall x <- mapped :: mapped[x] == Denormal(anchors, x)
  {
    hide NormalWalk, AncestryOf, Ancestry, Exports, Denormal;
    error, mapped := None, map[];
    var active: set<Object> := {};
    var pending := Enters([tip]);
    ghost var cut := anchors.Keys;
    NormalStarts(cut, [tip]);
    ExportsStart(anchors);
    AncestryOfOne(cut, tip);
    assert mapped.Keys == {};
    while pending != []
      invariant NormalWalk(cut, [tip], pending, active, mapped.Keys)
      invariant Exporting(anchors, tx.objects, mapped)
      invariant forall x <- active :: x in tx.objects && x.Commit? && x !in anchors
      invariant tx.objects == old(tx.objects) + Exports(anchors, mapped.Keys)
      decreases Unseen(AncestryOf(cut, [tip]), active, mapped.Keys), |pending|
    {
      var n := |pending| - 1;
      var rest, top := pending[..n], pending[n];
      SplitLast(pending);
      NormalTop(cut, [tip], rest, top, active, mapped.Keys);
      var id := top.node;
      match top {
        case Enter(_) =>
          if id in mapped {
            NormalSkip(cut, [tip], rest, top, active, mapped.Keys);
            pending := rest;
          } else if MapOrSelf(anchors, id) !in tx.objects || !MapOrSelf(anchors, id).Commit? {
            return Some(if MapOrSelf(anchors, id) !in tx.objects then Missing(id) else WrongKind(id)), mapped;
          } else if id in anchors {
            NormalAnchor(cut, [tip], rest, top, active, mapped.Keys);
            ExportsOne(anchors, mapped.Keys, id);
            AnchoredDenormal(anchors, id);
            assert mapped[id := anchors[id]].Keys == mapped.Keys + {id};
            mapped, pending := mapped[id := anchors[id]], rest;
          } else if id in active {
            return Some(Cycle(id)), mapped;
          } else {
            NormalEnter(cut, [tip], rest, top, active, mapped.Keys);
            assert Parents(cut, id) == id.parents;
            pending, active := rest + [Exit(id)] + Enters(id.parents), active + {id};
          }
        case Exit(_) =>
          var raw := Redenormalized(anchors, mapped, id);
          NormalLeave(cut, [tip], rest, top, active, mapped.Keys);
          ExportsOne(anchors, mapped.Keys, id);
          if raw != id {
            tx.objects := tx.objects + {raw};
          }
          assert mapped[id := raw].Keys == mapped.Keys + {id};
          mapped, active, pending := mapped[id := raw], active - {id}, rest;
      }
    }
    ExportEnds(anchors, tip, active, tx.objects, mapped);
  }

  /** The pairs of a map, each once. */
  method PairsOf(mapped: CommitMap) returns (pairs: seq<Pair>)
    ensures forall q: Pair :: q in pairs <==> q.input in mapped && q.raw == mapped[q.input]
  {
    pairs := [];
    var rest := mapped.Keys;
    while rest != {}
      invariant rest <= mapped.Keys
      invariant forall q: Pair :: q in pairs <==> q.input in mapped && q.input !in rest && q.raw == mapped[q.input]
      decreases rest
    {
      var input :| input in rest;
      pairs, rest := pairs + [Pair(mapped[input], input)], rest - {input};
    }
  }

  lemma ExportsStart(anchors: CommitMap)
    ensures Exports(anchors, {}) == {}
  {
  }

  lemma AnchoredDenormal(anchors: CommitMap, id: Object)
    requires id in anchors
    ensures Denormal(anchors, id) == anchors[id]
    ensures Parents(anchors.Keys, id) == []
  {
  }
}
