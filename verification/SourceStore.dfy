/**
 A source repository on disk: its own objects, its private references, and its declared shallow
 boundaries. References are only ever added, so no recorded correspondence is lost or changed.
 */
module SourceStore {
  import opened Wrappers
  import opened Objects
  import opened Normalization
  import opened Ledger
  import opened Refs
  import opened SourceHistory
  import opened Repair
  import ObjectCopy

  /** The inverse that a writer works with: the persisted one, completed if a write was interrupted. */
  ghost function WriterInverse(refs: RefMap): CommitMap
    requires Paired(refs) || AllRecovered(RawRefs(refs), RawRefs(refs).Keys + RetainedRefs(refs))
  {
    if Paired(refs) then RawRefs(refs) else Repaired(RawRefs(refs), RawRefs(refs).Keys + RetainedRefs(refs))
  }

  /** The pairs that say something: those whose input is not its own original. */
  function Changed(pairs: seq<Pair>): (changed: seq<Pair>)
    ensures forall q :: q in changed <==> q in pairs && q.raw != q.input
  {
    if pairs == [] then []
    else (if pairs[0].raw != pairs[0].input then [pairs[0]] else []) + Changed(pairs[1..])
  }

  function PairEdits(inverse: CommitMap): (edits: set<Edit>)
    ensures Coherent(edits)
  {
    (set i | i in inverse :: Update(RawRef(i), inverse[i])) + (set i | i in inverse :: Update(NormalizedRef(i), i))
  }

  lemma {:induction false} PairEditsAre(inverse: CommitMap, e: Edit)
    ensures e in PairEdits(inverse) <==>
      e.Update? && e.name.input in inverse && !e.name.GenerationRef?
      && e.target == if e.name.RawRef? then inverse[e.name.input] else e.name.input
  {
    if e.Update? && e.name.input in inverse {
      assert e.name.RawRef? ==> e.name == RawRef(e.name.input);
      assert e.name.NormalizedRef? ==> e.name == NormalizedRef(e.name.input);
    }
  }

  lemma {:induction false} PairRefsAre(inverse: CommitMap, r: RefName)
    ensures r in PairRefs(inverse) <==> r.input in inverse && !r.GenerationRef?
    ensures r in PairRefs(inverse) ==> PairRefs(inverse)[r] == if r.RawRef? then inverse[r.input] else r.input
  {
    if r.input in inverse {
      assert r.RawRef? ==> r == RawRef(r.input);
      assert r.NormalizedRef? ==> r == NormalizedRef(r.input);
    }
  }

  lemma {:induction false} PairEditsWrite(refs: RefMap, inverse: CommitMap)
    ensures Updates(PairEdits(inverse)) == PairRefs(inverse)
    ensures (forall e <- PairEdits(inverse) :: Permits(refs, e)) <==> forall r <- PairRefs(inverse) :: r in refs ==> refs[r] == PairRefs(inverse)[r]
  {
    hide PairEdits, PairRefs, Coherent;
    forall e: Edit { PairEditsAre(inverse, e); }
    forall r: RefName { PairRefsAre(inverse, r); }
    forall r | r in PairRefs(inverse) ensures Update(r, PairRefs(inverse)[r]) in PairEdits(inverse) {
    }
  }

  /** Writing the pairs of new entries beside a persisted inverse persists both. */
  lemma {:induction false} PairsPersist(refs: RefMap, known: CommitMap, added: CommitMap)
    requires Paired(refs) && RawRefs(refs) == known
    requires forall r <- PairRefs(added) :: r in refs ==> refs[r] == PairRefs(added)[r]
    ensures Paired(refs + PairRefs(added)) && RawRefs(refs + PairRefs(added)) == known + added
    ensures Submap(refs, refs + PairRefs(added))
  {
    hide RawRefs, RetainedRefs, Paired, WellFormed;
    var later := refs + PairRefs(added);
    forall i | i in known + added
      ensures RawRef(i) in later && later[RawRef(i)] == (known + added)[i]
      ensures NormalizedRef(i) in later && later[NormalizedRef(i)] == i
    {
      PairedRefs(refs, i);
    }
    forall r | r in later ensures r.GenerationRef? || r.input in known + added {
      if r in refs {
        PairedNames(refs, r);
      }
    }
    PersistsInverse(later, known + added);
  }

  lemma PairedRefs(refs: RefMap, i: Object)
    requires Paired(refs)
    ensures i in RawRefs(refs) ==> RawRef(i) in refs && refs[RawRef(i)] == RawRefs(refs)[i] && NormalizedRef(i) in refs && refs[NormalizedRef(i)] == i
  {
  }

  lemma PairedNames(refs: RefMap, r: RefName)
    requires Paired(refs) && r in refs
    ensures r.GenerationRef? || r.input in RawRefs(refs)
  {
  }

  /** The entries of a recorded conversion. */
  ghost function EntriesOf(pairs: seq<Pair>): CommitMap
    requires Agreeing(map[], Changed(pairs))
  {
    map q | q in Changed(pairs) :: q.input := q.raw
  }

  lemma EntriesAre(pairs: seq<Pair>, all: CommitMap)
    requires Agreeing(map[], Changed(pairs)) && Adds(map[], Changed(pairs), all)
    ensures all == EntriesOf(pairs)
  {
  }

  lemma {:induction false} GenerationRefIsApart(refs: RefMap, input: Object)
    requires Paired(refs)
    ensures
      var later := refs[GenerationRef(input) := input];
      Paired(later) && RawRefs(later) == RawRefs(refs)
  {
    var later := refs[GenerationRef(input) := input];
    assert RawRefs(later) == RawRefs(refs);
    assert RetainedRefs(later) == RetainedRefs(refs);
  }

  lemma EntriesHavePairs(pairs: seq<Pair>)
    requires Agreeing(map[], Changed(pairs))
    ensures forall q <- Changed(pairs) :: q.input in EntriesOf(pairs) && EntriesOf(pairs)[q.input] == q.raw
  {
  }

  lemma {:induction false} CopiedRoots(source: set<Object>, tips: seq<Object>, objects: set<Object>)
    requires ObjectCopy.Copyable({}, source, tips) && ClosureOf({}, tips) <= objects
    ensures forall t <- tips :: ObjectCopy.Copyable({}, objects, [t])
  {
    forall t | t in tips ensures ObjectCopy.Copyable({}, objects, [t]) {
      CopyableIs({}, objects, t);
    }
  }

  lemma {:induction false} CopyableGrows(objects: set<Object>, more: set<Object>, tips: set<Object>)
    requires Complete({}, objects, tips) && objects <= more
    ensures Complete({}, more, tips)
  {
    forall t | t in tips ensures ObjectCopy.Copyable({}, more, [t]) {
      assert ObjectCopy.Copyable({}, objects, [t]);
    }
  }

  lemma {:induction false} ClosureHasTips(cut: set<Object>, tips: seq<Object>)
    ensures forall t <- tips :: t in ClosureOf(cut, tips)
  {
    ClosureOfIsClosed(cut, tips);
  }

  /** Every input that is named has both references, the second one to itself. */
  ghost predicate EachPaired(refs: RefMap) {
    forall i: Object ::
      && (RawRef(i) in refs <==> NormalizedRef(i) in refs)
      && (NormalizedRef(i) in refs ==> refs[NormalizedRef(i)] == i)
  }

  /** The references say exactly this inverse. */
  ghost predicate Names(refs: RefMap, inverse: CommitMap) {
    && (forall i: Object :: i in inverse <==> RawRef(i) in refs)
    && (forall i <- inverse :: refs[RawRef(i)] == inverse[i])
  }

  lemma NamesOne(refs: RefMap, a: CommitMap, b: CommitMap)
    requires Names(refs, a) && Names(refs, b)
    ensures a == b
  {
  }

  /** Complete pairs, said reference by reference. */
  lemma {:induction false} PairedMeans(refs: RefMap)
    ensures Paired(refs) <==> EachPaired(refs)
    ensures Names(refs, RawRefs(refs))
  {
    forall i: Object
      ensures i in RawRefs(refs) <==> RawRef(i) in refs
      ensures i in RetainedRefs(refs) <==> NormalizedRef(i) in refs
    {
      RefsFrom(refs, i);
      if RawRef(i) in refs {
        RefsOf(refs, RawRef(i));
      }
      if NormalizedRef(i) in refs {
        RefsOf(refs, NormalizedRef(i));
      }
    }
    forall r | r in refs && r.NormalizedRef? ensures r == NormalizedRef(r.input) {
    }
  }

  /**
   A conversion was recorded: references only grew, the pairs are complete and hold exactly the
   repaired inverse and the changed pairs, and the graphs that they relate are kept.
   */
  ghost predicate Retains(objects: set<Object>, refs: RefMap, objects': set<Object>, refs': RefMap, normalized: Normalized) {
    && Submap(refs, refs') && objects <= objects'
    && Agreeing(map[], Changed(normalized.pairs))
    && WellFormed(refs) && (Paired(refs) || Accepts(objects, RawRefs(refs), RetainedRefs(refs)))
    && Paired(refs') && RawRefs(refs') == WriterInverse(refs) + EntriesOf(normalized.pairs)
    && (forall i <- WriterInverse(refs) :: RawRefs(refs')[i] == WriterInverse(refs)[i])
    && (forall t <- normalized.tips.Values :: GenerationRef(t) in refs' && ObjectCopy.Copyable({}, objects', [t]))
    && forall q <- Changed(normalized.pairs) :: q.raw in objects' && q.input in objects'
  }

  lemma {:induction false} RetainsAll(objects: set<Object>, refs: RefMap, objects': set<Object>, refs': RefMap, normalized: Normalized, inverse: CommitMap)
    requires Submap(refs, refs') && objects <= objects' && Agreeing(map[], Changed(normalized.pairs))
    requires WellFormed(refs) && (Paired(refs) || Accepts(objects, RawRefs(refs), RetainedRefs(refs))) && inverse == WriterInverse(refs)
    requires Paired(refs') && RawRefs(refs') == inverse + EntriesOf(normalized.pairs)
    requires forall i <- inverse :: RawRefs(refs')[i] == inverse[i]
    requires forall t <- normalized.tips.Values :: GenerationRef(t) in refs' && ObjectCopy.Copyable({}, objects', [t])
    requires forall q <- Changed(normalized.pairs) :: q.raw in objects' && q.input in objects'
    ensures Retains(objects, refs, objects', refs', normalized)
  {
    hide Paired, WellFormed, RawRefs, RetainedRefs, WriterInverse, Accepts, Agreeing, EntriesOf, ObjectCopy.Copyable;
  }

  lemma {:induction false} PersistedStays(refs: RefMap, later: RefMap, inverse: CommitMap)
    requires Paired(refs) && RawRefs(refs) == inverse && Paired(later) && Submap(refs, later)
    ensures forall i <- inverse :: i in RawRefs(later) && RawRefs(later)[i] == inverse[i]
  {
    forall i | i in inverse ensures i in RawRefs(later) && RawRefs(later)[i] == inverse[i] {
      PairedRefs(refs, i);
      RefsOf(later, RawRef(i));
    }
  }

  class SourceRepo {
    const git: ObjectCopy.Store
    var refs: RefMap
    var shallow: set<Object>

    constructor (git: ObjectCopy.Store, shallow: set<Object>)
      ensures this.git == git && this.shallow == shallow && refs == map[]
    {
      this.git, this.shallow, this.refs := git, shallow, map[];
    }

    /** One reference transaction: all of the edits, or none. */
    method EditReferences(edits: set<Edit>) returns (ok: bool)
      requires Coherent(edits)
      modifies this`refs
      ensures ok <==> forall e <- edits :: Permits(old(refs), e)
      ensures refs == if ok then old(refs) + Updates(edits) else old(refs)
      ensures Submap(old(refs), refs)
    {
      ok := forall e <- edits :: Permits(refs, e);
      if ok {
        refs := refs + Updates(edits);
      }
    }

    /** Succeeds exactly when every input has both references; the inverse is what they name. */
    method PersistedInverse() returns (result: Result<CommitMap>)
      ensures result.Ok? <==> EachPaired(refs)
      ensures result.Ok? ==> Names(refs, result.value)
      ensures result.Err? ==> result.error == Incomplete
    {
      PairedMeans(refs);
      if !Paired(refs) {
        return Err(Incomplete);
      }
      result := Ok(RawRefs(refs));
    }

    /** Completes interrupted pairs before a writer relies on the inverse. */
    method RepairNormalization() returns (result: Result<()>)
      modifies this`refs
      ensures Submap(old(refs), refs)
      ensures result.Ok? <==> WellFormed(old(refs)) && (Paired(old(refs)) || Accepts(git.objects, RawRefs(old(refs)), RetainedRefs(old(refs))))
      ensures result.Err? || Paired(old(refs)) ==> refs == old(refs)
      ensures result.Ok? ==> Paired(refs) && RawRefs(refs) == WriterInverse(old(refs))
    {
      var edits := NormalizationRepairs(git.objects, refs);
      if edits.Err? {
        return Err(edits.error);
      }
      if !Paired(refs) {
        RepairCompletes(refs, WriterInverse(refs));
        var ok := EditReferences(edits.value);
        if !ok {
          return Err(RefConflict);
        }
      }
      result := Ok(());
    }

    /** Copies the raw history of `tips`, stopping at live and historical boundaries. */
    method RetainRaw(tx: ObjectCopy.Store, tips: seq<Object>) returns (result: Result<()>)
      requires tx != git
      modifies this`refs, git
      ensures Submap(old(refs), refs) && old(git.objects) <= git.objects
      ensures result.Ok? ==> WellFormed(old(refs)) && (Paired(old(refs)) || Accepts(old(git.objects), RawRefs(old(refs)), RetainedRefs(old(refs))))
      ensures result.Ok? ==> Paired(refs) && RawRefs(refs) == WriterInverse(old(refs))
      ensures result.Ok? ==> ClosureOf(RetentionBoundaries(RawRefs(refs), shallow), tips) <= git.objects
    {
      var repaired := RepairNormalization();
      if repaired.Err? {
        return Err(repaired.error);
      }
      var inverse := RawRefs(refs);
      if exists i <- inverse :: i !in tx.objects || !i.Commit? {
        return Err(Incomplete);
      }
      var copied, log := ObjectCopy.CopyObjects(tx.objects, git, tips, RetentionBoundaries(inverse, shallow), false);
      result := copied;
    }

    /** Pins each complete graph under its own id. */
    method RetainGenerations(inputs: seq<Object>) returns (result: Result<()>)
      requires Paired(refs)
      modifies this`refs
      ensures Submap(old(refs), refs) && Paired(refs) && RawRefs(refs) == RawRefs(old(refs))
      ensures result.Ok? ==> forall i <- inputs :: GenerationRef(i) in refs && refs[GenerationRef(i)] == i
      ensures result.Err? ==> exists i <- inputs :: GenerationRef(i) in old(refs) && old(refs)[GenerationRef(i)] != i
    {
      hide Paired, RawRefs;
      var n := 0;
      while n < |inputs|
        invariant 0 <= n <= |inputs|
        invariant Submap(old(refs), refs) && Paired(refs) && RawRefs(refs) == RawRefs(old(refs))
        invariant forall i <- inputs[..n] :: GenerationRef(i) in refs && refs[GenerationRef(i)] == i
        invariant forall r <- refs :: r in old(refs) || (r.GenerationRef? && refs[r] == r.input)
      {
        var input := inputs[n];
        if GenerationRef(input) in refs && refs[GenerationRef(input)] != input {
          return Err(RefConflict);
        }
        GenerationRefIsApart(refs, input);
        refs := refs[GenerationRef(input) := input];
        assert inputs[..n + 1] == inputs[..n] + [input];
        n := n + 1;
      }
      assert inputs[..n] == inputs;
      result := Ok(());
    }

    /** Retains a conversion: its raw and complete graphs first, then the pairs that relate them. */
    method RecordNormalized(tx: ObjectCopy.Store, normalized: Normalized) returns (result: Result<()>)
      requires tx != git
      modifies this`refs, git
      ensures Submap(old(refs), refs) && old(git.objects) <= git.objects
      ensures result.Ok? ==> Retains(old(git.objects), old(refs), git.objects, refs, normalized)
    {
      hide Paired, WellFormed, RawRefs, RetainedRefs, WriterInverse, Accepts, Closure, Agreeing, Adds, EntriesOf, Retains;
      var rawRoots := Listing(normalized.tips.Keys);
      var completeRoots := Listing(normalized.tips.Values);
      var retained := RetainRaw(tx, rawRoots);
      if retained.Err? {
        return Err(retained.error);
      }
      ghost var inverse := RawRefs(refs);
      var copied, _ := ObjectCopy.CopyObjects(tx.objects, git, completeRoots, {}, false);
      if copied.Err? {
        return Err(copied.error);
      }
      var pinned := RetainGenerations(completeRoots);
      if pinned.Err? {
        return Err(pinned.error);
      }
      var ambiguous, added := InsertMappings(map[], Changed(normalized.pairs));
      if ambiguous.Some? {
        return Err(ambiguous.value);
      }
      EntriesAre(normalized.pairs, added);
      CopiedRoots(tx.objects, completeRoots, git.objects);
      ghost var objects := git.objects;
      if added == map[] {
        assert inverse + added == inverse;
        EntriesHavePairs(normalized.pairs);
        RetainsAll(old(git.objects), old(refs), git.objects, refs, normalized, inverse);
        return Ok(());
      }
      var boundaries := RetentionBoundaries(RawRefs(refs), shallow);
      var roots := Listing(added.Keys + added.Values);
      var kept, _ := ObjectCopy.CopyObjects(tx.objects, git, roots, boundaries, false);
      if kept.Err? {
        return Err(kept.error);
      }
      assert forall q <- Changed(normalized.pairs) :: q.raw in git.objects && q.input in git.objects by {
        EntriesHavePairs(normalized.pairs);
        ClosureHasTips(boundaries, roots);
      }
      CopyableGrows(objects, git.objects, normalized.tips.Values);
      PairEditsWrite(refs, added);
      ghost var before := refs;
      var ok := EditReferences(PairEdits(added));
      if !ok {
        return Err(RefConflict);
      }
      PairsPersist(before, inverse, added);
      PersistedStays(before, refs, inverse);
      RetainsAll(old(git.objects), old(refs), git.objects, refs, normalized, inverse);
      result := Ok(());
    }

    /** Rebuilds the raw history of `tip`, anchored in what is persisted and in a given conversion. */
    method Denormalize(tx: ObjectCopy.Store, tip: Object, normalized: Normalized) returns (result: Result<Normalized>)
      modifies tx
      ensures result.Ok? <==>
        && Paired(refs) && Agreeing(RawRefs(refs), normalized.pairs)
        && Exportable(ExportAnchors(RawRefs(refs), normalized.pairs), tx.objects, tip)
      ensures result.Err? ==> !result.error.Cycle?
      ensures result.Ok? ==>
        var anchors := ExportAnchors(RawRefs(refs), normalized.pairs);
        && tx.objects == old(tx.objects) + Exports(anchors, Ancestry(anchors.Keys, tip))
        && result.value.tips == map[Denormal(anchors, tip) := tip]
        && forall q: Pair :: q in result.value.pairs <==> q.input in Ancestry(anchors.Keys, tip) && q.raw == Denormal(anchors, q.input)
    {
      hide RawRefs, Paired, EachPaired, Names, Ancestry, Exports, Denormal, Agreeing, Adds, ExportAnchors, WithOriginals;
      PairedMeans(refs);
      var persisted := PersistedInverse();
      if persisted.Err? {
        return Err(persisted.error);
      }
      NamesOne(refs, persisted.value, RawRefs(refs));
      var ambiguous, all := InsertMappings(persisted.value, normalized.pairs);
      if ambiguous.Some? {
        return Err(ambiguous.value);
      }
      AnchorsAreAdded(persisted.value, normalized.pairs, all);
      var error, mapped := SourceHistory.Denormalize(tx, WithOriginals(all), tip);
      if error.Some? {
        return Err(error.value);
      }
      var pairs := PairsOf(mapped);
      result := Ok(Normalized(map[mapped[tip] := tip], pairs));
    }

    /** Reads back the complete graph of a recorded generation, with the originals of its commits. */
    method WitnessedGeneration(tx: ObjectCopy.Store, raw: Object, input: Object) returns (result: Result<Normalized>)
      ensures result.Ok? <==>
        && Paired(refs) && MapOrSelf(RawRefs(refs), input) == raw
        && GenerationRef(input) in refs && refs[GenerationRef(input)] == input
        && Readable(tx.objects, Ancestry({}, input)) && ObjectCopy.Copyable({}, tx.objects, [input])
      ensures result.Ok? ==> result.value.tips == map[raw := input]
      ensures result.Ok? ==> WitnessedPairs(RawRefs(refs), Ancestry({}, input), result.value.pairs)
    {
      hide RawRefs, Paired, EachPaired, Names, Ancestry, WitnessedPairs;
      PairedMeans(refs);
      var persisted := PersistedInverse();
      if persisted.Err? {
        return Err(persisted.error);
      }
      var inverse := persisted.value;
      NamesOne(refs, inverse, RawRefs(refs));
      if MapOrSelf(inverse, input) != raw {
        return Err(WrongWitness);
      }
      if GenerationRef(input) !in refs || refs[GenerationRef(input)] != input {
        return Err(WrongWitness);
      }
      var visited: set<Object> := {};
      var pending := [input];
      var pairs: seq<Pair> := [];
      SelfInAncestry(input);
      WitnessNone(inverse);
      while pending != []
        invariant (forall x <- pending :: x in Ancestry({}, input)) && visited <= Ancestry({}, input)
        invariant input in visited || input in pending
        invariant Readable(tx.objects, visited)
        invariant forall x <- visited, p <- Parents({}, x) :: p in visited || p in pending
        invariant WitnessedPairs(inverse, visited, pairs)
        decreases Ancestry({}, input) - visited, |pending|
      {
        var n := |pending| - 1;
        var rest, id := pending[..n], pending[n];
        SplitLast(pending);
        if id in visited {
          pending := rest;
          continue;
        }
        if id !in tx.objects || !id.Commit? {
          return Err(if id !in tx.objects then Missing(id) else WrongKind(id));
        }
        AncestryParents(input, id);
        WitnessOne(inverse, visited, pairs, id);
        assert Parents({}, id) == id.parents;
        visited, pending := visited + {id}, rest + id.parents;
        pairs := pairs + [Pair(MapOrSelf(inverse, id), id)];
      }
      AncestryWithin({}, input, visited);
      assert visited == Ancestry({}, input);
      var checked := ObjectCopy.CheckObjects(tx.objects, [input], {});
      if checked.Err? {
        return Err(checked.error);
      }
      result := Ok(Normalized(map[raw := input], pairs));
    }
  }

  /** Each commit of a complete graph once, with its original. */
  ghost predicate WitnessedPairs(inverse: CommitMap, nodes: set<Object>, pairs: seq<Pair>) {
    && (forall q <- pairs :: q.input in nodes && q.raw == MapOrSelf(inverse, q.input))
    && (forall x <- nodes :: Pair(MapOrSelf(inverse, x), x) in pairs)
    && (forall i, j | 0 <= i < j < |pairs| :: pairs[i].input != pairs[j].input)
  }

  lemma WitnessNone(inverse: CommitMap)
    ensures WitnessedPairs(inverse, {}, [])
  {
  }

  lemma {:induction false} WitnessOne(inverse: CommitMap, nodes: set<Object>, pairs: seq<Pair>, id: Object)
    requires WitnessedPairs(inverse, nodes, pairs) && id !in nodes
    ensures WitnessedPairs(inverse, nodes + {id}, pairs + [Pair(MapOrSelf(inverse, id), id)])
  {
    var q := Pair(MapOrSelf(inverse, id), id);
    var more := pairs + [q];
    assert forall r <- more :: r in pairs || r == q;
    assert (forall r <- pairs :: r in more) && more[|pairs|] == q;
    forall i, j | 0 <= i < j < |more| ensures more[i].input != more[j].input {
      assert more[i] == pairs[i] && pairs[i] in pairs;
    }
  }

  lemma SelfInAncestry(c: Object)
    ensures c in Ancestry({}, c)
  {
  }

  lemma {:induction false} AncestryParents(c: Object, x: Object)
    requires x in Ancestry({}, c)
    ensures forall p <- Parents({}, x) :: p in Ancestry({}, c)
  {
    forall p | p in Parents({}, x) ensures p in Ancestry({}, c) {
      AncestryStep({}, c, x, p);
    }
  }
}
