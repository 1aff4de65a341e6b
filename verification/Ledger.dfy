/**
 The persisted inverse of normalization: a map from each rewritten input to its raw original,
 grown by every recorded generation and every recorded export.
 */
module Ledger {
  import opened Wrappers
  import opened Objects
  import opened Normalization

  function Originals(inverse: CommitMap, cs: seq<Object>): (rs: seq<Object>)
    ensures |rs| == |cs| && forall i | 0 <= i < |cs| :: rs[i] == MapOrSelf(inverse, cs[i])
  {
    seq(|cs|, i requires 0 <= i < |cs| => MapOrSelf(inverse, cs[i]))
  }

  /** `input` is what normalizing `raw` gives, up to the choice of boundaries. */
  predicate NormalRelation(inverse: CommitMap, input: Object, raw: Object) {
    && input.Commit? && raw.Commit?
    && input == Rewritten(raw, input.parents, Some(raw))
    && (input.parents == [] || raw.parents == Originals(inverse, input.parents))
  }

  /** `raw` is what exporting `input` gives. */
  predicate ExportRelation(inverse: CommitMap, input: Object, raw: Object) {
    && input.Commit? && raw.Commit?
    && raw.parents == Originals(inverse, input.parents)
    && raw == Rewritten(input, raw.parents, None)
  }

  /** An export is recorded only for a commit whose stamp or parents made it differ. */
  predicate Exported(inverse: CommitMap, input: Object, raw: Object) {
    ExportRelation(inverse, input, raw) && (HasProvenance(input) || raw.parents != input.parents)
  }

  ghost predicate ValidEntry(inverse: CommitMap, input: Object)
    requires input in inverse
  {
    var raw := inverse[input];
    raw != input && Clean(raw) && (NormalRelation(inverse, input, raw) || Exported(inverse, input, raw))
  }

  ghost predicate Valid(inverse: CommitMap) {
    forall input <- inverse :: ValidEntry(inverse, input)
  }

  lemma {:induction false} CleanParents(c: Object, p: Object)
    requires c.Commit? && p in c.parents && Clean(c)
    ensures Clean(p)
  {
    forall x | x in Ancestry({}, p) ensures !HasProvenance(x) {
      assert p in Parents({}, c);
      assert x in Ancestry({}, c);
    }
  }

  lemma {:induction false} CleanFromParents(c: Object)
    requires c.Commit? && !HasProvenance(c) && forall p <- c.parents :: Clean(p)
    ensures Clean(c)
  {
    forall x | x in Ancestry({}, c) ensures !HasProvenance(x) {
      if x != c {
        var p :| p in Parents({}, c) && x in Ancestry({}, p);
      }
    }
  }

  lemma {:induction false} CleanAncestry(cut: set<Object>, c: Object, x: Object)
    requires Clean(c) && x in Ancestry(cut, c)
    ensures Clean(x)
    decreases c
  {
    if x != c {
      var p :| p in Parents(cut, c) && x in Ancestry(cut, p);
      CleanParents(c, p);
      CleanAncestry(cut, p, x);
    }
  }

  /** Inputs and raw history never mix: every recorded input has a stamp in its ancestry. */
  lemma {:induction false} InputsAreStamped(inverse: CommitMap, input: Object)
    requires Valid(inverse) && input in inverse
    ensures !Clean(input)
    decreases input
  {
    assert ValidEntry(inverse, input);
    var raw := inverse[input];
    assert input in Ancestry({}, input);
    if NormalRelation(inverse, input, raw) {
      RewrittenKeeps(raw, input.parents, Some(raw));
    } else if !HasProvenance(input) {
      var i :| 0 <= i < |input.parents| && raw.parents[i] != input.parents[i];
      InputsAreStamped(inverse, input.parents[i]);
      if Clean(input) {
        CleanParents(input, input.parents[i]);
      }
    }
  }

  /** Adding entries for new inputs keeps every older entry valid. */
  lemma {:induction false} OldEntrySurvives(inverse: CommitMap, grown: CommitMap, input: Object)
    requires Valid(inverse) && input in inverse
    requires forall c <- inverse :: c in grown && grown[c] == inverse[c]
    requires forall c <- grown :: !Clean(c)
    ensures input in grown && ValidEntry(grown, input)
  {
    assert ValidEntry(inverse, input);
    var raw := inverse[input];
    forall i | 0 <= i < |input.parents| && raw.parents == Originals(inverse, input.parents)
      ensures MapOrSelf(grown, input.parents[i]) == raw.parents[i]
    {
      if input.parents[i] !in inverse {
        CleanParents(raw, raw.parents[i]);
      }
    }
    assert raw.parents == Originals(inverse, input.parents) ==> raw.parents == Originals(grown, input.parents);
  }

  // ----- Recording a generation --------------------------------------------------------------

  /** The entries that recording the generation of a raw history adds. */
  ghost function GenerationEntries(cut: set<Object>, history: set<Object>): CommitMap
    requires RawHistory(cut, history)
  {
    RawHistoryUnstamped(cut, history);
    NormalsAreDistinct(cut, history);
    map x | x in history && Normal(cut, x) != x :: Normal(cut, x) := x
  }

  lemma {:induction false} NormalsAreDistinct(cut: set<Object>, history: set<Object>)
    requires forall x <- history :: x.Commit? && !HasProvenance(x)
    ensures forall x <- history, y <- history :: Normal(cut, x) == Normal(cut, y) ==> x == y
  {
    forall x, y | x in history && y in history && Normal(cut, x) == Normal(cut, y) ensures x == y {
      NormalIsInjective(cut, x, cut, y);
    }
  }

  /** A raw history as fetched: commits without stamps, closed under uncut parents. */
  ghost predicate RawHistory(cut: set<Object>, history: set<Object>) {
    forall x <- history :: x.Commit? && Clean(x) && forall p <- Parents(cut, x) :: p in history
  }

  lemma {:induction false} CleanIsUnstamped(c: Object)
    requires Clean(c)
    ensures !HasProvenance(c)
  {
    assert c in Ancestry({}, c);
  }

  lemma {:induction false} RawHistoryUnstamped(cut: set<Object>, history: set<Object>)
    requires RawHistory(cut, history)
    ensures forall x <- history :: x.Commit? && !HasProvenance(x)
  {
    forall x | x in history ensures !HasProvenance(x) {
      CleanIsUnstamped(x);
    }
  }

  lemma {:induction false} NewEntryIsValid(inverse: CommitMap, cut: set<Object>, history: set<Object>, x: Object)
    requires RawHistory(cut, history) && x in history && Normal(cut, x) != x
    requires forall c <- inverse :: !Clean(c)
    requires forall y <- history :: Normal(cut, y) != y ==> Normal(cut, y) in inverse && inverse[Normal(cut, y)] == y
    ensures ValidEntry(inverse, Normal(cut, x)) && NormalRelation(inverse, Normal(cut, x), x)
  {
    hide Clean, Normal;
    NormalIsGraphMap(cut, x);
    RewrittenForm(cut, x);
    var n := Normal(cut, x);
    if n.parents != [] {
      forall i | 0 <= i < |x.parents| ensures MapOrSelf(inverse, n.parents[i]) == x.parents[i] {
        var p := x.parents[i];
        assert p in Parents(cut, x) && n.parents[i] == Normal(cut, p);
      }
      assert x.parents == Originals(inverse, n.parents);
    }
  }

  lemma RewrittenForm(cut: set<Object>, x: Object)
    requires x.Commit? && Normal(cut, x) != x
    ensures Normal(cut, x) == Rewritten(x, Normal(cut, x).parents, Some(x))
  {
  }

  lemma {:induction false} NormalIsStamped(cut: set<Object>, x: Object)
    requires x.Commit? && Normal(cut, x) != x
    ensures !Clean(Normal(cut, x))
  {
    var n := Normal(cut, x);
    RewrittenKeeps(x, NormalParents(cut, x), Some(x));
    assert n in Ancestry({}, n);
  }

  lemma {:induction false} GenerationEntriesAre(cut: set<Object>, history: set<Object>)
    requires RawHistory(cut, history)
    ensures
      var entries := GenerationEntries(cut, history);
      && (forall y <- history :: Normal(cut, y) != y ==> Normal(cut, y) in entries && entries[Normal(cut, y)] == y)
      && (forall n <- entries :: entries[n] in history && entries[n].Commit? && Normal(cut, entries[n]) == n != entries[n])
  {
    RawHistoryUnstamped(cut, history);
    NormalsAreDistinct(cut, history);
  }

  /** Recording a generation keeps the inverse valid, provided its entries do not contradict it. */
  lemma {:induction false} RecordKeepsValid(inverse: CommitMap, cut: set<Object>, history: set<Object>)
    requires Valid(inverse) && RawHistory(cut, history)
    requires forall n <- GenerationEntries(cut, history) :: n in inverse ==> inverse[n] == GenerationEntries(cut, history)[n]
    ensures Valid(inverse + GenerationEntries(cut, history))
  {
    hide GenerationEntries, Normal, Clean, ValidEntry, NormalRelation, RawHistory;
    var entries := GenerationEntries(cut, history);
    var grown := inverse + entries;
    GenerationEntriesAre(cut, history);
    forall c | c in grown ensures !Clean(c) {
      if c in inverse {
        InputsAreStamped(inverse, c);
      } else {
        NormalIsStamped(cut, entries[c]);
      }
    }
    forall n | n in grown ensures ValidEntry(grown, n) {
      if n in entries {
        NewEntryIsValid(grown, cut, history, entries[n]);
      } else {
        OldEntrySurvives(inverse, grown, n);
      }
    }
  }

  // ----- Recording an export -----------------------------------------------------------------

  /**
   What exports start from: every recorded input, a generation of raw history that may not have
   been recorded, and raw commits that stand for themselves.
   */
  ghost predicate AnchorsFrom(inverse: CommitMap, cut: set<Object>, history: set<Object>, anchors: CommitMap) {
    && RawHistory(cut, history)
    && (forall c <- inverse :: c in anchors && anchors[c] == inverse[c])
    && (forall x <- history :: Normal(cut, x) in anchors && anchors[Normal(cut, x)] == x)
    && (forall c <- anchors :: c in inverse || anchors[c] == c || (anchors[c] in history && c == Normal(cut, anchors[c])))
    && (forall c <- anchors :: anchors[c].Commit? && Clean(anchors[c]))
  }

  /** Exported history: commits, closed under the parents of what is not anchored. */
  ghost predicate NewHistory(anchors: CommitMap, exported: set<Object>) {
    forall x <- exported :: x.Commit? && forall p <- Parents(anchors.Keys, x) :: p in exported
  }

  ghost function ExportEntries(anchors: CommitMap, exported: set<Object>): CommitMap {
    map x | x in exported && Denormal(anchors, x) != x :: Denormal(anchors, x)
  }

  /** An anchor that the inverse does not have, and that does not stand for itself. */
  ghost predicate Unrecorded(inverse: CommitMap, anchors: CommitMap, c: Object) {
    c in anchors && c !in inverse && anchors[c] != c
  }

  /** Every unrecorded anchor that is entered brings its rewritten parents with it. */
  ghost predicate BringsParents(inverse: CommitMap, anchors: CommitMap, exported: set<Object>) {
    forall c <- exported, p | Unrecorded(inverse, anchors, c) && c.Commit? && p in c.parents ::
      Unrecorded(inverse, anchors, p) ==> p in exported
  }

  /** Exported commits carry no stamp, anywhere in their history. */
  lemma {:induction false} DenormalIsClean(anchors: CommitMap, exported: set<Object>, x: Object)
    requires NewHistory(anchors, exported) && x in exported && forall c <- anchors :: Clean(anchors[c])
    ensures Clean(Denormal(anchors, x))
    decreases x
  {
    if x !in anchors {
      DenormalKeeps(anchors, x);
      var d := Denormal(anchors, x);
      forall p | p in d.parents ensures Clean(p) {
        var i :| 0 <= i < |d.parents| && d.parents[i] == p;
        assert x.parents[i] in Parents(anchors.Keys, x);
        DenormalIsClean(anchors, exported, x.parents[i]);
      }
      CleanFromParents(d);
    }
  }

  lemma {:induction false} ChangedAnchorIsStamped(inverse: CommitMap, cut: set<Object>, history: set<Object>, anchors: CommitMap, c: Object)
    requires Valid(inverse) && AnchorsFrom(inverse, cut, history, anchors) && c in anchors && anchors[c] != c
    ensures !Clean(c)
  {
    hide Clean, Normal, Valid;
    if c in inverse {
      InputsAreStamped(inverse, c);
    } else {
      NormalIsStamped(cut, anchors[c]);
    }
  }

  /** A changed export has a stamp in its ancestry, like every other input. */
  lemma {:induction false} ChangedExportIsStamped(inverse: CommitMap, cut: set<Object>, history: set<Object>, anchors: CommitMap, exported: set<Object>, x: Object)
    requires Valid(inverse) && AnchorsFrom(inverse, cut, history, anchors) && NewHistory(anchors, exported)
    requires x in exported && Denormal(anchors, x) != x
    ensures !Clean(x)
    decreases x
  {
    hide Normal, Valid, AnchorsFrom;
    assert x in Ancestry({}, x);
    if x in anchors {
      ChangedAnchorIsStamped(inverse, cut, history, anchors, x);
    } else if !HasProvenance(x) {
      var i :| 0 <= i < |x.parents| && Denormal(anchors, x.parents[i]) != x.parents[i];
      assert x.parents[i] in Parents(anchors.Keys, x);
      ChangedExportIsStamped(inverse, cut, history, anchors, exported, x.parents[i]);
      if Clean(x) {
        CleanParents(x, x.parents[i]);
      }
    }
  }

  /** The grown inverse sends each exported commit to its export. */
  lemma ExportedParent(inverse: CommitMap, anchors: CommitMap, exported: set<Object>, p: Object)
    requires (forall c <- inverse :: c in anchors && anchors[c] == inverse[c]) && p in exported
    ensures MapOrSelf(inverse + ExportEntries(anchors, exported), p) == Denormal(anchors, p)
  {
  }

  lemma {:induction false} ExportEntryIsValid(inverse: CommitMap, anchors: CommitMap, exported: set<Object>, x: Object)
    requires NewHistory(anchors, exported) && (forall c <- inverse :: c in anchors && anchors[c] == inverse[c])
    requires forall c <- anchors :: Clean(anchors[c])
    requires x in exported && x !in anchors && Denormal(anchors, x) != x
    ensures x in ExportEntries(anchors, exported) && ValidEntry(inverse + ExportEntries(anchors, exported), x)
  {
    hide Clean;
    var grown := inverse + ExportEntries(anchors, exported);
    var d := Denormal(anchors, x);
    DenormalKeeps(anchors, x);
    DenormalIsClean(anchors, exported, x);
    forall i | 0 <= i < |x.parents| ensures MapOrSelf(grown, x.parents[i]) == d.parents[i] {
      assert x.parents[i] in Parents(anchors.Keys, x);
      ExportedParent(inverse, anchors, exported, x.parents[i]);
    }
    assert d.parents == Originals(grown, x.parents);
  }

  /** The parents of an unrecorded anchor are told right exactly when they were entered with it. */
  lemma {:induction false} AnchoredParents(inverse: CommitMap, cut: set<Object>, history: set<Object>, anchors: CommitMap, exported: set<Object>, c: Object)
    requires AnchorsFrom(inverse, cut, history, anchors) && Unrecorded(inverse, anchors, c) && c.Commit? && c.parents != []
    ensures
      var grown := inverse + ExportEntries(anchors, exported);
      anchors[c].parents == Originals(grown, c.parents) <==>
        forall p <- c.parents :: Unrecorded(inverse, anchors, p) ==> p in exported
  {
    hide Clean, Normal, Denormal;
    var grown, x := inverse + ExportEntries(anchors, exported), anchors[c];
    NormalIsGraphMap(cut, x);
    assert Parents(cut, x) == x.parents && |c.parents| == |x.parents|;
    forall k | 0 <= k < |c.parents|
      ensures MapOrSelf(grown, c.parents[k]) == x.parents[k] <==> (Unrecorded(inverse, anchors, c.parents[k]) ==> c.parents[k] in exported)
    {
      assert x.parents[k] in Parents(cut, x);
      AnchoredParent(inverse, anchors, exported, c.parents[k], x.parents[k]);
    }
  }

  lemma AnchoredParent(inverse: CommitMap, anchors: CommitMap, exported: set<Object>, p: Object, q: Object)
    requires (forall c <- inverse :: c in anchors && anchors[c] == inverse[c]) && p in anchors && anchors[p] == q
    ensures
      MapOrSelf(inverse + ExportEntries(anchors, exported), p) == q <==> (Unrecorded(inverse, anchors, p) ==> p in exported)
  {
  }

  lemma {:induction false} AnchoredEntry(inverse: CommitMap, cut: set<Object>, history: set<Object>, anchors: CommitMap, exported: set<Object>, c: Object)
    requires AnchorsFrom(inverse, cut, history, anchors) && Unrecorded(inverse, anchors, c) && c in exported && c.Commit?
    ensures
      var grown := inverse + ExportEntries(anchors, exported);
      c in grown && (ValidEntry(grown, c) <==> forall p <- c.parents :: Unrecorded(inverse, anchors, p) ==> p in exported)
  {
    hide Clean, Normal;
    RewrittenForm(cut, anchors[c]);
    if c.parents != [] {
      AnchoredParents(inverse, cut, history, anchors, exported, c);
    }
  }

  lemma AnchoredExport(inverse: CommitMap, anchors: CommitMap, exported: set<Object>)
    requires forall c <- inverse :: c in anchors && anchors[c] == inverse[c]
    ensures forall c <- inverse :: (inverse + ExportEntries(anchors, exported))[c] == inverse[c]
  {
  }

  /**
   Recording an export keeps the inverse valid exactly when every anchor that it enters from an
   unrecorded generation brings its rewritten parents with it.
   */
  lemma {:induction false} PublishKeepsValid(inverse: CommitMap, cut: set<Object>, history: set<Object>, anchors: CommitMap, exported: set<Object>)
    requires Valid(inverse) && AnchorsFrom(inverse, cut, history, anchors) && NewHistory(anchors, exported)
    ensures Valid(inverse + ExportEntries(anchors, exported)) <==> BringsParents(inverse, anchors, exported)
  {
    hide Clean, ValidEntry, Denormal, Normal;
    var grown := inverse + ExportEntries(anchors, exported);
    forall c | c in grown ensures !Clean(c) {
      if c in inverse {
        InputsAreStamped(inverse, c);
      } else {
        ChangedExportIsStamped(inverse, cut, history, anchors, exported, c);
      }
    }
    AnchoredExport(inverse, anchors, exported);
    forall x | x in grown
      ensures ValidEntry(grown, x) <==>
              (Unrecorded(inverse, anchors, x) ==> forall p <- x.parents :: Unrecorded(inverse, anchors, p) ==> p in exported)
    {
      if x in inverse {
        OldEntrySurvives(inverse, grown, x);
      } else if x in anchors {
        ExportedAnchor(anchors, x);
        AnchoredEntry(inverse, cut, history, anchors, exported, x);
      } else {
        ExportEntryIsValid(inverse, anchors, exported, x);
      }
    }
    forall c | c in exported && Unrecorded(inverse, anchors, c) ensures c in grown {
      ExportedAnchor(anchors, c);
    }
  }

  lemma ExportedAnchor(anchors: CommitMap, c: Object)
    requires c in anchors
    ensures Denormal(anchors, c) == anchors[c]
  {
  }

  /** So it is valid whenever the generation was recorded before. */
  lemma {:induction false} RecordedAnchorsBringParents(inverse: CommitMap, cut: set<Object>, history: set<Object>, anchors: CommitMap, exported: set<Object>)
    requires AnchorsFrom(inverse, cut, history, anchors)
    requires forall x <- history :: Normal(cut, x) != x ==> Normal(cut, x) in inverse
    ensures BringsParents(inverse, anchors, exported)
  {
    hide Normal, Clean;
    forall c | c in anchors ensures !Unrecorded(inverse, anchors, c) {
    }
  }

  /** And it is not when an export enters an anchor of an unrecorded generation without its parent. */
  lemma {:induction false} UnrecordedAnchorBreaksInverse(tree: Object, meta: Meta, below: Object)
    requires Clean(below)
    ensures
      var boundary := Commit(tree, [below], meta, []);
      var child := Commit(tree, [boundary], meta, []);
      var cut, history := {boundary}, {boundary, child};
      var root, n := Normal(cut, boundary), Normal(cut, child);
      var anchors := map[root := boundary, n := child, boundary := boundary, child := child];
      var tip := Commit(tree, [n], meta, []);
      && AnchorsFrom(map[], cut, history, anchors) && NewHistory(anchors, {tip, n}) && tip !in anchors
      && !Valid(map[] + ExportEntries(anchors, {tip, n}))
  {
    hide Normal, Valid, Denormal, Clean;
    var boundary := Commit(tree, [below], meta, []);
    var child := Commit(tree, [boundary], meta, []);
    var cut, history := {boundary}, {boundary, child};
    var root, n := BoundaryNormalForm(tree, meta, below);
    var anchors := map[root := boundary, n := child, boundary := boundary, child := child];
    var tip := Commit(tree, [n], meta, []);
    CleanFromParents(boundary);
    CleanFromParents(child);
    NormalIsStamped(cut, boundary);
    NormalIsStamped(cut, child);
    assert tip.parents[0] < tip && n.parents[0] < n;
    assert root != tip && n != tip && boundary != tip && child != tip;
    assert Parents(cut, child) == [boundary];
    assert Unrecorded(map[], anchors, n) && Unrecorded(map[], anchors, root) && root in n.parents;
    NothingIsValid();
    PublishKeepsValid(map[], cut, history, anchors, {tip, n});
  }

  lemma NothingIsValid()
    ensures Valid(map[])
  {
  }

  // ----- Reading a generation back -----------------------------------------------------------

  /** The inverse, at any later time, sends each commit of a recorded generation back to its original. */
  lemma {:induction false} WitnessIsExact(inverse: CommitMap, cut: set<Object>, history: set<Object>, x: Object)
    requires Valid(inverse) && RawHistory(cut, history) && x in history
    requires Normal(cut, x) != x ==> Normal(cut, x) in inverse && inverse[Normal(cut, x)] == x
    ensures MapOrSelf(inverse, Normal(cut, x)) == x
  {
    if x in inverse {
      InputsAreStamped(inverse, x);
    }
  }

  // ----- Retaining raw history ---------------------------------------------------------------

  /** Live boundaries, together with the originals of recorded root inputs. */
  function RetentionBoundaries(inverse: CommitMap, shallow: set<Object>): set<Object> {
    shallow + set input | input in inverse && input.Commit? && input.parents == [] :: inverse[input]
  }

  /** The boundaries are the live ones and the originals of recorded roots, and no others. */
  lemma {:induction false} RetentionBoundariesAre(inverse: CommitMap, shallow: set<Object>, x: Object)
    ensures x in RetentionBoundaries(inverse, shallow) <==>
            x in shallow || exists input :: input in inverse && inverse[input] == x && input.Commit? && |input.parents| == 0
  {
    if input :| input in inverse && inverse[input] == x && input.Commit? && |input.parents| == 0 {
      assert input.parents == [];
    }
  }

  /** Retention never walks past a live boundary either. */
  lemma {:induction false} RetentionStopsAtLiveCut(inverse: CommitMap, shallow: set<Object>, c: Object)
    ensures Ancestry(RetentionBoundaries(inverse, shallow), c) <= Ancestry(shallow, c)
    decreases c
  {
    var kept := RetentionBoundaries(inverse, shallow);
    RetentionBoundariesAre(inverse, shallow, c);
    forall p | p in Parents(kept, c) ensures p in Parents(shallow, c) && Ancestry(kept, p) <= Ancestry(shallow, p) {
      RetentionStopsAtLiveCut(inverse, shallow, p);
    }
  }

  /** Every boundary that hid parents when its generation was recorded is still a boundary. */
  lemma {:induction false} HistoricalCutIsKept(inverse: CommitMap, shallow: set<Object>, cut: set<Object>, x: Object)
    requires x.Commit? && x in cut && x.parents != []
    requires Normal(cut, x) in inverse && inverse[Normal(cut, x)] == x
    ensures x in RetentionBoundaries(inverse, shallow)
  {
    NormalIsGraphMap(cut, x);
    assert Normal(cut, x).parents == [];
  }

  /** So retaining an old raw tip never walks past the cut of its generation. */
  lemma {:induction false} RetentionStopsAtHistoricalCut(inverse: CommitMap, shallow: set<Object>, cut: set<Object>, c: Object)
    requires AllCommits(cut, c)
    requires forall x <- Ancestry(cut, c) :: Normal(cut, x) != x ==> Normal(cut, x) in inverse && inverse[Normal(cut, x)] == x
    ensures Ancestry(RetentionBoundaries(inverse, shallow), c) <= Ancestry(cut, c)
    decreases c
  {
    assert c in Ancestry(cut, c);
    var kept := RetentionBoundaries(inverse, shallow);
    if c in cut && c.parents != [] {
      NormalIsGraphMap(cut, c);
      HistoricalCutIsKept(inverse, shallow, cut, c);
    } else {
      forall p | p in Parents(kept, c) ensures Ancestry(kept, p) <= Ancestry(cut, c) {
        assert p in Parents(cut, c);
        assert Ancestry(cut, p) <= Ancestry(cut, c);
        RetentionStopsAtHistoricalCut(inverse, shallow, cut, p);
      }
    }
  }
}
