/**
 Every run of a source repository: fetches with changing boundaries, recorded generations and
 exports, any of them interrupted while it writes its paired references, and repairs.
 */
module SourceRuns {
  import opened Wrappers
  import opened Objects
  import opened Normalization
  import opened Ledger
  import opened Refs
  import opened SourceHistory
  import opened Repair
  import opened SourceStore
  import ObjectCopy

  datatype State = State(objects: set<Object>, refs: RefMap, shallow: set<Object>)

  ghost function Inputs(refs: RefMap): set<Object> {
    RawRefs(refs).Keys + RetainedRefs(refs)
  }

  /** A writer can work on this state, after a repair if need be, and its inverse is valid. */
  ghost predicate Sound(s: State) {
    && WellFormed(s.refs)
    && (Paired(s.refs) || Accepts(s.objects, RawRefs(s.refs), RetainedRefs(s.refs)))
    && var inverse := WriterInverse(s.refs);
    && inverse.Keys == Inputs(s.refs)
    && Survives(inverse, RawRefs(s.refs), RetainedRefs(s.refs))
    && Valid(inverse)
    && Kept(s.objects, inverse, inverse.Keys)
    && forall i <- inverse :: Witnessed(inverse, RawRefs(s.refs), i)
  }

  ghost predicate Initial(s: State) {
    s.refs == map[]
  }

  /** A fetch brings objects and declares new boundaries. */
  ghost predicate Fetches(s: State, s': State) {
    s'.refs == s.refs && s.objects <= s'.objects
  }

  /**
   Entries are recorded beside a complete inverse. The graphs they relate are already kept; the
   pair references may be interrupted anywhere, as long as the surviving inputs are closed under
   rewritten parents and no export with a foreign stamp loses its raw reference.
   */
  ghost predicate Records(s: State, s': State, entries: CommitMap) {
    && Paired(s.refs) && s'.shallow == s.shallow && s.objects <= s'.objects
    && var full := RawRefs(s.refs) + entries;
    && (forall i <- entries :: i in RawRefs(s.refs) ==> RawRefs(s.refs)[i] == entries[i])
    && Submap(s.refs, s'.refs)
    && (forall r <- s'.refs :: r.GenerationRef? || r in s.refs || (r in PairRefs(entries) && s'.refs[r] == PairRefs(entries)[r]))
    && Kept(s'.objects, full, Inputs(s'.refs))
    && ParentClosed(full, Inputs(s'.refs))
    && (forall i <- Inputs(s'.refs) :: i in RawRefs(s'.refs) || !Misleading(full, i))
  }

  ghost predicate RecordsGeneration(s: State, s': State, history: set<Object>) {
    RawHistory(s.shallow, history) && Records(s, s', GenerationEntries(s.shallow, history))
  }

  /** An export may rest on a generation that was not recorded, if it enters that one's rewritten parents. */
  ghost predicate RecordsExport(s: State, s': State, cut: set<Object>, history: set<Object>, anchors: CommitMap, exported: set<Object>) {
    && Paired(s.refs) && AnchorsFrom(RawRefs(s.refs), cut, history, anchors) && NewHistory(anchors, exported)
    && BringsParents(RawRefs(s.refs), anchors, exported)
    && Records(s, s', ExportEntries(anchors, exported))
  }

  ghost predicate Repairs(s: State, s': State) {
    && s'.objects == s.objects && s'.shallow == s.shallow
    && WellFormed(s.refs) && !Paired(s.refs) && Accepts(s.objects, RawRefs(s.refs), RetainedRefs(s.refs))
    && s'.refs == s.refs + Updates(RepairEdits(RawRefs(s.refs), RetainedRefs(s.refs), WriterInverse(s.refs)))
  }

  ghost predicate Step(s: State, s': State) {
    || Fetches(s, s')
    || (exists history :: RecordsGeneration(s, s', history))
    || (exists cut, history, anchors, exported :: RecordsExport(s, s', cut, history, anchors, exported))
    || Repairs(s, s')
  }

  ghost predicate Run(states: seq<State>) {
    states != [] && Initial(states[0]) && forall i | 0 < i < |states| :: Step(states[i - 1], states[i])
  }

  // ----- What every step keeps ---------------------------------------------------------------

  /** A parent-closed part of a valid inverse is valid; a part that is not parent-closed never is. */
  lemma {:induction false} RestrictionIsValid(inverse: CommitMap, inputs: set<Object>)
    requires Valid(inverse) && inputs <= inverse.Keys
    ensures Valid(Restricted(inverse, inputs)) <==> ParentClosed(inverse, inputs)
  {
    var part := Restricted(inverse, inputs);
    if ParentClosed(inverse, inputs) {
      forall i | i in part ensures ValidEntry(part, i) {
        assert ValidEntry(inverse, i);
        RestrictedOriginals(inverse, inputs, i);
      }
    } else {
      var i, p :| i in inputs && i.Commit? && p in i.parents && p in inverse && p !in inputs;
      OrphanIsRefused(inverse, inputs, i, p);
      assert i in part;
    }
  }

  lemma StartIsSound(s: State)
    requires Initial(s)
    ensures Sound(s) && WriterInverse(s.refs) == map[]
  {
  }

  lemma {:induction false} FetchKeepsSound(s: State, s': State)
    requires Sound(s) && Fetches(s, s')
    ensures Sound(s') && WriterInverse(s'.refs) == WriterInverse(s.refs)
  {
    hide Recovered;
    var raws, retained := RawRefs(s.refs), RetainedRefs(s.refs);
    var inverse := WriterInverse(s.refs);
    forall i | i in inverse ensures ObjectCopy.Copyable({}, s'.objects, [i]) {
      assert ObjectCopy.Copyable({}, s.objects, [i]);
    }
    if !Paired(s.refs) {
      AcceptsGrows(s.objects, s'.objects, raws, retained);
    }
  }

  lemma {:induction false} AcceptsGrows(objects: set<Object>, more: set<Object>, raws: CommitMap, retained: set<Object>)
    requires Accepts(objects, raws, retained) && objects <= more
    ensures Accepts(more, raws, retained)
  {
    hide Recovered, Proven;
    var inputs := raws.Keys + retained;
    var inverse := Repaired(raws, inputs);
    forall t | t in inputs ensures ObjectCopy.Copyable({}, more, [t]) {
      assert ObjectCopy.Copyable({}, objects, [t]);
    }
    forall t | t in inverse.Values ensures ObjectCopy.Copyable(Roots(inverse), more, [t]) {
      assert ObjectCopy.Copyable(Roots(inverse), objects, [t]);
    }
  }

  lemma PartIsKept(objects: set<Object>, full: CommitMap, raws: CommitMap, inputs: set<Object>)
    requires inputs <= full.Keys && Kept(objects, full, inputs)
    requires forall i <- inputs :: Witnessed(full, raws, i)
    ensures var part := Restricted(full, inputs); Kept(objects, part, part.Keys) && forall i <- part :: Witnessed(part, raws, i)
  {
  }

  lemma {:induction false} WriterRepairs(objects: set<Object>, refs: RefMap, full: CommitMap)
    requires WellFormed(refs) && Valid(full) && Survives(full, RawRefs(refs), RetainedRefs(refs))
    requires Kept(objects, full, Inputs(refs)) && ParentClosed(full, Inputs(refs))
    requires forall i <- Inputs(refs) :: Witnessed(full, RawRefs(refs), i)
    ensures Paired(refs) || Accepts(objects, RawRefs(refs), RetainedRefs(refs))
    ensures WriterInverse(refs) == Restricted(full, Inputs(refs))
  {
    hide Recovered, ValidEntry, Kept, Accepts;
    if Paired(refs) {
      assert RawRefs(refs) == Restricted(full, Inputs(refs));
    } else {
      RepairSucceeds(objects, full, RawRefs(refs), RetainedRefs(refs));
      RepairedIsRecovered(objects, RawRefs(refs), RetainedRefs(refs));
    }
  }

  lemma RepairedIsRecovered(objects: set<Object>, raws: CommitMap, retained: set<Object>)
    requires Accepts(objects, raws, retained)
    ensures AllRecovered(raws, raws.Keys + retained)
  {
  }

  /** Surviving references of a valid inverse, parent-closed and witnessed, make a sound state. */
  lemma {:induction false} SurvivorsAreSound(s: State, full: CommitMap)
    requires WellFormed(s.refs) && Valid(full) && Survives(full, RawRefs(s.refs), RetainedRefs(s.refs))
    requires Kept(s.objects, full, Inputs(s.refs)) && ParentClosed(full, Inputs(s.refs))
    requires forall i <- Inputs(s.refs) :: Witnessed(full, RawRefs(s.refs), i)
    ensures Sound(s) && WriterInverse(s.refs) == Restricted(full, Inputs(s.refs))
  {
    hide RawRefs, RetainedRefs, WellFormed, Paired, Valid, Witnessed, Kept, Accepts, WriterInverse, ParentClosed;
    WriterRepairs(s.objects, s.refs, full);
    PartIsKept(s.objects, full, RawRefs(s.refs), Inputs(s.refs));
    RestrictionIsValid(full, Inputs(s.refs));
  }

  /** After a record, interrupted or not, the references are those of the grown inverse. */
  lemma {:induction false} RecordSurvives(s: State, s': State, entries: CommitMap)
    requires Sound(s) && Records(s, s', entries)
    ensures
      var full := RawRefs(s.refs) + entries;
      && WellFormed(s'.refs) && Survives(full, RawRefs(s'.refs), RetainedRefs(s'.refs))
      && RawRefs(s.refs).Keys <= Inputs(s'.refs)
  {
    hide RawRefs, RetainedRefs, Paired, Valid, Kept, Accepts, PairRefs, ParentClosed, Misleading, Witnessed;
    var inverse, full := RawRefs(s.refs), RawRefs(s.refs) + entries;
    forall r | r in s'.refs ensures r.GenerationRef? || (r.input in full && s'.refs[r] == if r.RawRef? then full[r.input] else r.input) {
      if r in s.refs {
        PairedNames(s.refs, r);
        PairedRefs(s.refs, r.input);
      } else {
        PairRefsAre(entries, r);
      }
    }
    forall i ensures i in RawRefs(s'.refs) ==> RawRef(i) in s'.refs && s'.refs[RawRef(i)] == RawRefs(s'.refs)[i]
             ensures i in RetainedRefs(s'.refs) ==> NormalizedRef(i) in s'.refs
    {
      RefsFrom(s'.refs, i);
    }
    forall i | i in inverse ensures i in Inputs(s'.refs) {
      PairedRefs(s.refs, i);
      RefsOf(s'.refs, RawRef(i));
    }
  }

  lemma {:induction false} RecordKeepsSound(s: State, s': State, entries: CommitMap)
    requires Sound(s) && Records(s, s', entries) && Valid(RawRefs(s.refs) + entries)
    ensures Sound(s') && Submap(WriterInverse(s.refs), WriterInverse(s'.refs))
  {
    hide Sound, RawRefs, RetainedRefs, Inputs, WellFormed, Paired, Valid, Kept, Witnessed, Misleading, Survives, WriterInverse;
    var full := RawRefs(s.refs) + entries;
    RecordSurvives(s, s', entries);
    RecordedAreWitnessed(s', full);
    SurvivorsAreSound(s', full);
    SoundInverse(s);
    SurvivorsAreInputs(full, s'.refs);
  }

  lemma {:induction false} RecordedAreWitnessed(s: State, full: CommitMap)
    requires Valid(full) && Kept(s.objects, full, Inputs(s.refs))
    requires forall i <- Inputs(s.refs) :: i in RawRefs(s.refs) || !Misleading(full, i)
    ensures forall i <- Inputs(s.refs) :: Witnessed(full, RawRefs(s.refs), i)
  {
    hide Valid, Misleading, Witnessed, RawRefs, Inputs;
    forall i | i in Inputs(s.refs) ensures Witnessed(full, RawRefs(s.refs), i) {
      WitnessedUnlessMisleading(full, RawRefs(s.refs), i);
    }
  }

  lemma SurvivorsAreInputs(full: CommitMap, refs: RefMap)
    requires Survives(full, RawRefs(refs), RetainedRefs(refs))
    ensures Inputs(refs) <= full.Keys
  {
  }

  lemma {:induction false} RepairKeepsSound(s: State, s': State)
    requires Sound(s) && Repairs(s, s')
    ensures Sound(s') && Paired(s'.refs) && WriterInverse(s'.refs) == WriterInverse(s.refs)
  {
    hide Recovered, ValidEntry, RawRefs, RetainedRefs, RepairEdits;
    var inverse := WriterInverse(s.refs);
    RepairCompletes(s.refs, inverse);
    PairedInputs(s'.refs);
  }

  lemma PairedInputs(refs: RefMap)
    requires Paired(refs)
    ensures Inputs(refs) == RawRefs(refs).Keys && Survives(RawRefs(refs), RawRefs(refs), RetainedRefs(refs))
  {
  }

  /** One step keeps the state sound and every correspondence that was there. */
  lemma {:induction false} StepKeepsSound(s: State, s': State)
    requires Sound(s) && Step(s, s')
    ensures Sound(s') && Submap(WriterInverse(s.refs), WriterInverse(s'.refs))
  {
    hide Sound, Records, Valid, GenerationEntries, ExportEntries;
    if Fetches(s, s') {
      FetchKeepsSound(s, s');
    } else if history :| RecordsGeneration(s, s', history) {
      RecordAgrees(s, s', GenerationEntries(s.shallow, history));
      SoundInverse(s);
      RecordKeepsValid(RawRefs(s.refs), s.shallow, history);
      RecordKeepsSound(s, s', GenerationEntries(s.shallow, history));
    } else if cut, history, anchors, exported :| RecordsExport(s, s', cut, history, anchors, exported) {
      SoundInverse(s);
      PublishKeepsValid(RawRefs(s.refs), cut, history, anchors, exported);
      RecordKeepsSound(s, s', ExportEntries(anchors, exported));
    } else {
      RepairKeepsSound(s, s');
    }
  }

  lemma SoundInverse(s: State)
    requires Sound(s) && Paired(s.refs)
    ensures Valid(RawRefs(s.refs)) && WriterInverse(s.refs) == RawRefs(s.refs)
  {
  }

  lemma RecordAgrees(s: State, s': State, entries: CommitMap)
    requires Records(s, s', entries)
    ensures Paired(s.refs) && forall i <- entries :: i in RawRefs(s.refs) ==> RawRefs(s.refs)[i] == entries[i]
  {
  }

  /** In every reachable state the inverse is valid, and it only ever grows. */
  lemma {:induction false} RunsAreSound(states: seq<State>, i: nat, j: nat)
    requires Run(states) && i <= j < |states|
    ensures Sound(states[i]) && Sound(states[j])
    ensures Submap(WriterInverse(states[i].refs), WriterInverse(states[j].refs))
    decreases j
  {
    hide Sound, Step;
    if j == 0 {
      StartIsSound(states[0]);
    } else if i < j {
      RunsAreSound(states, i, j - 1);
      StepKeepsSound(states[j - 1], states[j]);
    } else {
      RunsAreSound(states, j - 1, j - 1);
      StepKeepsSound(states[j - 1], states[j]);
    }
  }

  // ----- What no interruption can undo ----------------------------------------------------------

  /** Any part of the edits of a writer: an update is permitted only where it changes nothing. */
  ghost predicate Writes(s: State, s': State) {
    && s.objects <= s'.objects && s'.shallow == s.shallow
    && exists edits :: Applies(s.refs, edits, s'.refs)
  }

  /** A run in which writers, successful or not, may leave any permitted part of their edits behind. */
  ghost predicate AnyRun(states: seq<State>) {
    forall i | 0 < i < |states| :: Fetches(states[i - 1], states[i]) || Writes(states[i - 1], states[i])
  }

  lemma {:induction false} WritesExtend(s: State, s': State)
    requires Writes(s, s')
    ensures Submap(s.refs, s'.refs)
  {
    var edits :| Applies(s.refs, edits, s'.refs);
    forall r | r in s.refs ensures r in s'.refs && s'.refs[r] == s.refs[r] {
      if r in Updates(edits) {
        var e: Edit :| e in edits && e.Update? && e.name == r && Updates(edits)[r] == e.target;
      }
    }
  }

  /** Whatever is interrupted, and in whatever state: no reference is ever moved or removed. */
  lemma {:induction false} ReferencesStay(states: seq<State>, i: nat, j: nat)
    requires AnyRun(states) && i <= j < |states|
    ensures Submap(states[i].refs, states[j].refs) && Submap(RawRefs(states[i].refs), RawRefs(states[j].refs))
    decreases j
  {
    hide Writes, RawRefs;
    if i < j {
      ReferencesStay(states, i, j - 1);
      if !Fetches(states[j - 1], states[j]) {
        WritesExtend(states[j - 1], states[j]);
      }
    }
    MappingsStay(states[i].refs, states[j].refs);
  }

  lemma {:induction false} MappingsStay(refs: RefMap, later: RefMap)
    requires Submap(refs, later)
    ensures Submap(RawRefs(refs), RawRefs(later))
  {
    hide RawRefs;
    forall c | c in RawRefs(refs) ensures c in RawRefs(later) && RawRefs(later)[c] == RawRefs(refs)[c] {
      RefsFrom(refs, c);
      RefsOf(later, RawRef(c));
    }
  }

  /** The runs above are such runs. */
  lemma {:induction false} StepWrites(s: State, s': State)
    requires Step(s, s')
    ensures Fetches(s, s') || Writes(s, s')
  {
    hide Normal, Denormal, Paired, RawRefs, RetainedRefs, Accepts, Kept, ParentClosed, Misleading;
    if !Fetches(s, s') {
      if Repairs(s, s') {
        RepairWrites(s, s');
      } else {
        GrowthIsWritten(s, s');
      }
    }
  }

  lemma {:induction false} GrowthIsWritten(s: State, s': State)
    requires s.objects <= s'.objects && s'.shallow == s.shallow && Submap(s.refs, s'.refs)
    ensures Writes(s, s')
  {
    var edits := set r | r in s'.refs && r !in s.refs :: Update(r, s'.refs[r]);
    forall r | r in s'.refs && r !in s.refs ensures Update(r, s'.refs[r]) in edits {
    }
    assert s'.refs == s.refs + Updates(edits);
    assert Applies(s.refs, edits, s'.refs);
  }

  lemma {:induction false} RepairWrites(s: State, s': State)
    requires Repairs(s, s')
    ensures Writes(s, s')
  {
    hide RepairEdits, Recovered, RawRefs, RetainedRefs, PairsProven, Complete;
    forall i | i in RawRefs(s.refs) ensures WriterInverse(s.refs)[i] == RawRefs(s.refs)[i] {
      FromRaw(RawRefs(s.refs), Inputs(s.refs), i);
    }
    RepairCompletes(s.refs, WriterInverse(s.refs));
    assert Applies(s.refs, RepairEdits(RawRefs(s.refs), RetainedRefs(s.refs), WriterInverse(s.refs)), s'.refs);
  }

  // ----- The methods take these steps ----------------------------------------------------------

  /** The pairs of a normalized history record exactly the entries of its generation. */
  lemma {:induction false} NormalizeRecordsGeneration(cut: set<Object>, history: set<Object>, pairs: seq<Pair>)
    requires RawHistory(cut, history) && Generation(cut, history, pairs)
    ensures Agreeing(map[], Changed(pairs)) && EntriesOf(pairs) == GenerationEntries(cut, history)
  {
    hide Normal, RawHistory, GenerationEntries, EntriesOf, Generation, Changed;
    GenerationIs(cut, history, pairs);
    GenerationAgrees(cut, history, pairs);
    GenerationEntriesAre(cut, history);
    EntriesHavePairs(pairs);
    var entries, given := GenerationEntries(cut, history), EntriesOf(pairs);
    forall n | n in entries ensures n in given && given[n] == entries[n] {
      assert Pair(entries[n], n) in Changed(pairs);
    }
    forall n | n in given ensures n in entries {
      EntryHasPair(pairs, n);
    }
    assert given == entries;
  }

  lemma {:induction false} GenerationAgrees(cut: set<Object>, history: set<Object>, pairs: seq<Pair>)
    requires RawHistory(cut, history) && forall q <- pairs :: q.raw in history && q.input == Normal(cut, q.raw)
    ensures Agreeing(map[], Changed(pairs))
  {
    hide Normal, RawHistory, Changed;
    RawHistoryUnstamped(cut, history);
    NormalsAreDistinct(cut, history);
  }

  lemma {:induction false} AncestryInClosure(c: Object, x: Object)
    requires x in Ancestry({}, c)
    ensures x in Closure({}, c)
    decreases c
  {
    if x != c {
      var k :| 0 <= k < |c.parents| && x in Ancestry({}, c.parents[k]);
      AncestryInClosure(c.parents[k], x);
      ParentLink(c, k);
    }
  }

  /** The graphs that recording copies are all that its entries need. */
  lemma {:induction false} RecordKeepsGraphs(objects: set<Object>, cut: set<Object>, tips: seq<Object>, entries: CommitMap)
    requires forall t <- tips :: AllCommits(cut, t) && ObjectCopy.Copyable({}, objects, [Normal(cut, t)])
    requires forall n <- entries :: entries[n] in objects && entries[n] in AncestryOf(cut, tips) && n == Normal(cut, entries[n])
    ensures Kept(objects, entries, entries.Keys)
  {
    hide Normal;
    forall n | n in entries ensures ObjectCopy.Copyable({}, objects, [n]) {
      var t :| t in tips && entries[n] in Ancestry(cut, t);
      NormalOfAncestor(cut, t, entries[n]);
      AncestryInClosure(Normal(cut, t), n);
      CopyableIs({}, objects, Normal(cut, t));
      ClosureIsTransitive({}, Normal(cut, t), n);
      CopyableIs({}, objects, n);
    }
  }

  /** An export anchored by the inverse and a generation read back from it starts from valid anchors. */
  lemma {:induction false} WitnessAnchors(inverse: CommitMap, pairs: seq<Pair>, all: CommitMap)
    requires Valid(inverse)
    requires forall q <- pairs :: q.raw == MapOrSelf(inverse, q.input) && q.raw.Commit? && Clean(q.raw)
    ensures Agreeing(inverse, pairs)
    ensures Adds(inverse, pairs, all) ==> AnchorsFrom(inverse, {}, {}, WithOriginals(all))
  {
    hide Clean, Valid, WithOriginals, AnchorsFrom;
    if Adds(inverse, pairs, all) {
      forall c | c in all ensures all[c] == MapOrSelf(inverse, c) && all[c].Commit? && Clean(all[c]) {
        if c in inverse {
          ValidIsClean(inverse, c);
        } else {
          assert Pair(all[c], c) in pairs;
        }
      }
      OriginalsComplete(inverse, {}, {}, all);
    }
  }

  /** What an export walk maps is what recording it enters. */
  lemma {:induction false} DenormalizeRecordsExport(anchors: CommitMap, mapped: CommitMap, pairs: seq<Pair>)
    requires forall x <- mapped :: mapped[x] == Denormal(anchors, x)
    requires forall q: Pair :: q in pairs <==> q.input in mapped && q.raw == mapped[q.input]
    ensures Agreeing(map[], Changed(pairs)) && EntriesOf(pairs) == ExportEntries(anchors, mapped.Keys)
  {
    hide Denormal;
    var entries := ExportEntries(anchors, mapped.Keys);
    forall x | x in entries ensures x in EntriesOf(pairs) && EntriesOf(pairs)[x] == entries[x] {
      assert Pair(mapped[x], x) in Changed(pairs);
    }
  }

  /** An export keeps the complete graph of everything it enters, because it keeps that of its tip. */
  lemma {:induction false} ExportKeepsGraphs(objects: set<Object>, cut: set<Object>, tip: Object, entries: CommitMap)
    requires ObjectCopy.Copyable({}, objects, [tip])
    requires forall x <- entries :: entries[x] in objects && x in Ancestry(cut, tip)
    ensures Kept(objects, entries, entries.Keys)
  {
    forall x | x in entries ensures ObjectCopy.Copyable({}, objects, [x]) {
      UncutAncestry(cut, tip, x);
      AncestryInClosure(tip, x);
      CopyableIs({}, objects, tip);
      ClosureIsTransitive({}, tip, x);
      CopyableIs({}, objects, x);
    }
  }

  lemma {:induction false} UncutAncestry(cut: set<Object>, c: Object, x: Object)
    requires x in Ancestry(cut, c)
    ensures x in Ancestry({}, c)
    decreases c
  {
    if x != c {
      var p :| p in Parents(cut, c) && x in Ancestry(cut, p);
      UncutAncestry(cut, p, x);
      assert p in Parents({}, c);
    }
  }

  /** A successful recording is a repair, where one is needed, and then the step that enters the pairs. */
  lemma {:induction false} RecordingIsStep(s: State, s': State, normalized: Normalized) returns (mid: State)
    requires Sound(s) && s'.shallow == s.shallow && Retains(s.objects, s.refs, s'.objects, s'.refs, normalized)
    requires Kept(s'.objects, EntriesOf(normalized.pairs), EntriesOf(normalized.pairs).Keys)
    ensures mid == s || Repairs(s, mid)
    ensures Sound(mid) && Paired(mid.refs) && RawRefs(mid.refs) == WriterInverse(s.refs) && mid.shallow == s.shallow
    ensures Records(mid, s', EntriesOf(normalized.pairs))
  {
    hide Sound, Valid, Kept, Accepts, RawRefs, RetainedRefs, RepairEdits, WriterInverse, PairRefs, Misleading, Witnessed, EntriesOf, WellFormed;
    mid := s;
    if Paired(s.refs) {
      SoundInverse(s);
    } else {
      RepairedIsRecovered(s.objects, RawRefs(s.refs), RetainedRefs(s.refs));
      mid := s.(refs := s.refs + Updates(RepairEdits(RawRefs(s.refs), RetainedRefs(s.refs), WriterInverse(s.refs))));
      RepairKeepsSound(s, mid);
      SoundInverse(mid);
    }
    var entries := EntriesOf(normalized.pairs);
    RecordingExtends(s, mid, s');
    RecordingWrites(mid, s', entries);
    RecordingKeeps(mid, s', entries);
    CompleteIsClosed(s'.refs, RawRefs(mid.refs) + entries);
  }

  lemma {:induction false} RecordingExtends(s: State, mid: State, s': State)
    requires mid == s || Repairs(s, mid)
    requires Submap(s.refs, s'.refs) && Paired(mid.refs) && Paired(s'.refs)
    requires forall i <- RawRefs(mid.refs) :: i in RawRefs(s'.refs) && RawRefs(s'.refs)[i] == RawRefs(mid.refs)[i]
    ensures Submap(mid.refs, s'.refs)
  {
    hide RawRefs, RetainedRefs, Paired, Accepts, WriterInverse, RepairEdits, WellFormed;
    forall r | r in mid.refs ensures r in s'.refs && s'.refs[r] == mid.refs[r] {
      if r.GenerationRef? {
        if mid != s {
          RepairAddsNoGeneration(s, mid, r);
        }
      } else {
        PairedNames(mid.refs, r);
        PairedRefs(mid.refs, r.input);
        PairedRefs(s'.refs, r.input);
      }
    }
  }

  lemma {:induction false} RepairAddsNoGeneration(s: State, s': State, r: RefName)
    requires Repairs(s, s') && r.GenerationRef? && r in s'.refs
    ensures r in s.refs && s.refs[r] == s'.refs[r]
  {
    hide RawRefs, RetainedRefs, Accepts, WriterInverse, RepairEdits, WellFormed, Paired;
    RepairedIsRecovered(s.objects, RawRefs(s.refs), RetainedRefs(s.refs));
    var inverse := WriterInverse(s.refs);
    var edits := RepairEdits(RawRefs(s.refs), RetainedRefs(s.refs), inverse);
    if r in Updates(edits) {
      var e :| e in edits && e.Update? && e.name == r;
      RepairEditCases(RawRefs(s.refs), RetainedRefs(s.refs), inverse, e);
    }
  }

  lemma {:induction false} RecordingWrites(s: State, s': State, entries: CommitMap)
    requires Paired(s.refs) && Paired(s'.refs) && RawRefs(s'.refs) == RawRefs(s.refs) + entries && Submap(s.refs, s'.refs)
    ensures forall r <- s'.refs :: r.GenerationRef? || r in s.refs || (r in PairRefs(entries) && s'.refs[r] == PairRefs(entries)[r])
  {
    hide RawRefs, RetainedRefs, Paired, PairRefs;
    forall r | r in s'.refs && !r.GenerationRef?
      ensures r in s.refs || (r in PairRefs(entries) && s'.refs[r] == PairRefs(entries)[r])
    {
      PairedNames(s'.refs, r);
      PairedRefs(s'.refs, r.input);
      PairedRefs(s.refs, r.input);
      PairRefsAre(entries, r);
    }
  }

  lemma {:induction false} RecordingKeeps(s: State, s': State, entries: CommitMap)
    requires Sound(s) && Paired(s.refs) && s.objects <= s'.objects && Kept(s'.objects, entries, entries.Keys)
    requires Paired(s'.refs) && RawRefs(s'.refs) == RawRefs(s.refs) + entries
    ensures Kept(s'.objects, RawRefs(s.refs) + entries, Inputs(s'.refs))
  {
    hide RawRefs, RetainedRefs, Paired, Accepts, Valid, Witnessed, Survives, WellFormed;
    SoundInverse(s);
    PairedInputs(s'.refs);
    forall i | i in RawRefs(s.refs) && i !in entries ensures ObjectCopy.Copyable({}, s'.objects, [i]) {
      assert ObjectCopy.Copyable({}, s.objects, [i]);
    }
  }

  /** Complete pairs lose no parent and no raw reference. */
  lemma {:induction false} CompleteIsClosed(refs: RefMap, full: CommitMap)
    requires Paired(refs) && RawRefs(refs) == full
    ensures ParentClosed(full, Inputs(refs)) && forall i <- Inputs(refs) :: i in RawRefs(refs)
  {
    hide RawRefs, RetainedRefs, Paired;
    PairedInputs(refs);
  }

  /** So recording what normalizing gave is a step that records the generation of the tips. */
  lemma {:induction false} NormalizedIsRecorded(s: State, s': State, tips: seq<Object>, normalized: Normalized) returns (mid: State)
    requires Sound(s) && s'.shallow == s.shallow && Retains(s.objects, s.refs, s'.objects, s'.refs, normalized)
    requires RawHistory(s.shallow, AncestryOf(s.shallow, tips))
    requires Generation(s.shallow, AncestryOf(s.shallow, tips), normalized.pairs) && normalized.tips == TipMap(s.shallow, tips)
    ensures mid == s || Repairs(s, mid)
    ensures RecordsGeneration(mid, s', AncestryOf(s.shallow, tips)) && Step(mid, s')
  {
    hide Sound, Records, Repairs, Generation, GenerationEntries, EntriesOf, Normal, RawRefs, RetainedRefs, Paired, Accepts, WriterInverse, WellFormed, Kept, Clean, Agreeing;
    var cut, history := s.shallow, AncestryOf(s.shallow, tips);
    NormalizeRecordsGeneration(cut, history, normalized.pairs);
    GenerationEntriesAre(cut, history);
    EntriesHavePairs(normalized.pairs);
    var entries := EntriesOf(normalized.pairs);
    forall t | t in tips ensures AllCommits(cut, t) && ObjectCopy.Copyable({}, s'.objects, [Normal(cut, t)]) {
      AncestryOfIsClosed(cut, tips);
      AncestryWithin(cut, t, history);
      assert Normal(cut, t) == TipMap(cut, tips)[t];
    }
    forall n | n in entries ensures entries[n] in s'.objects {
      EntryHasPair(normalized.pairs, n);
    }
    RecordKeepsGraphs(s'.objects, cut, tips, entries);
    mid := RecordingIsStep(s, s', normalized);
    assert RecordsGeneration(mid, s', history);
  }

  lemma EntryHasPair(pairs: seq<Pair>, n: Object)
    requires Agreeing(map[], Changed(pairs)) && n in EntriesOf(pairs)
    ensures Pair(EntriesOf(pairs)[n], n) in Changed(pairs)
  {
  }

  /** And recording what exporting gave is one that records the export. */
  lemma {:induction false} ExportIsRecorded(s: State, s': State, cut: set<Object>, history: set<Object>, anchors: CommitMap, tip: Object, normalized: Normalized)
    requires Sound(s) && Paired(s.refs) && s'.shallow == s.shallow && Retains(s.objects, s.refs, s'.objects, s'.refs, normalized)
    requires AnchorsFrom(RawRefs(s.refs), cut, history, anchors) && Exportable(anchors, s'.objects, tip)
    requires BringsParents(RawRefs(s.refs), anchors, Ancestry(anchors.Keys, tip))
    requires normalized.tips == map[Denormal(anchors, tip) := tip]
    requires forall q: Pair :: q in normalized.pairs <==> q.input in Ancestry(anchors.Keys, tip) && q.raw == Denormal(anchors, q.input)
    ensures RecordsExport(s, s', cut, history, anchors, Ancestry(anchors.Keys, tip)) && Step(s, s')
  {
    hide Sound, Records, Repairs, EntriesOf, Normal, Denormal, RawRefs, RetainedRefs, Paired, Accepts, WriterInverse, WellFormed, Kept, Clean, Agreeing, AnchorsFrom, BringsParents, ExportEntries;
    var exported := Ancestry(anchors.Keys, tip);
    var mapped := map x | x in exported :: Denormal(anchors, x);
    DenormalizeRecordsExport(anchors, mapped, normalized.pairs);
    var entries := EntriesOf(normalized.pairs);
    assert mapped.Keys == exported;
    forall x | x in entries ensures entries[x] in s'.objects && x in exported {
      EntryHasPair(normalized.pairs, x);
    }
    assert tip in normalized.tips.Values by {
      assert normalized.tips[Denormal(anchors, tip)] == tip;
    }
    ExportKeepsGraphs(s'.objects, anchors.Keys, tip, entries);
    var mid := RecordingIsStep(s, s', normalized);
    CompleteIsUnrepaired(s, mid);
    SoundInverse(s);
    ExportIsNewHistory(RawRefs(s.refs), cut, history, anchors, s'.objects, tip);
    assert RecordsExport(s, s', cut, history, anchors, exported);
  }

  lemma CompleteIsUnrepaired(s: State, mid: State)
    requires Paired(s.refs) && (mid == s || Repairs(s, mid))
    ensures mid == s
  {
  }

  lemma {:induction false} ExportIsNewHistory(inverse: CommitMap, cut: set<Object>, history: set<Object>, anchors: CommitMap, objects: set<Object>, tip: Object)
    requires Valid(inverse) && AnchorsFrom(inverse, cut, history, anchors) && Exportable(anchors, objects, tip)
    ensures NewHistory(anchors, Ancestry(anchors.Keys, tip))
  {
    hide Clean, Normal, Valid;
    forall x | x in Ancestry(anchors.Keys, tip)
      ensures x.Commit? && forall p <- Parents(anchors.Keys, x) :: p in Ancestry(anchors.Keys, tip)
    {
      if x in inverse {
        ValidIsCommit(inverse, x);
      } else if x in anchors && anchors[x] != x {
        NormalIsGraphMap(cut, anchors[x]);
      } else {
        assert MapOrSelf(anchors, x).Commit?;
      }
      forall p | p in Parents(anchors.Keys, x) ensures p in Ancestry(anchors.Keys, tip) {
        AncestryStep(anchors.Keys, tip, x, p);
      }
    }
  }

  /** Adding the originals that stand for themselves completes the anchors of an export. */
  lemma {:induction false} OriginalsComplete(inverse: CommitMap, cut: set<Object>, history: set<Object>, all: CommitMap)
    requires RawHistory(cut, history) && Submap(inverse, all)
    requires forall x <- history :: Normal(cut, x) in all && all[Normal(cut, x)] == x
    requires forall c <- all :: c in inverse || all[c] == c || (all[c] in history && c == Normal(cut, all[c]))
    requires forall c <- all :: all[c].Commit? && Clean(all[c])
    ensures AnchorsFrom(inverse, cut, history, WithOriginals(all))
  {
    hide Clean, Normal, RawHistory;
    forall c | c in WithOriginals(all) && c !in all ensures c.Commit? && Clean(c) {
      var d :| d in all && all[d] == c;
    }
  }

  /** The pairs of a fresh normalization, recorded or not, are anchors of their generation. */
  lemma {:induction false} NormalizeAnchors(inverse: CommitMap, cut: set<Object>, history: set<Object>, pairs: seq<Pair>)
    requires Valid(inverse) && RawHistory(cut, history) && Generation(cut, history, pairs) && Agreeing(inverse, pairs)
    ensures AnchorsFrom(inverse, cut, history, ExportAnchors(inverse, pairs))
  {
    hide Clean, Normal, Valid, Given, RawHistory, WithOriginals, AnchorsFrom;
    GivenIs(pairs);
    var all := inverse + Given(pairs);
    GenerationIs(cut, history, pairs);
    forall c | c in all
      ensures all[c].Commit? && Clean(all[c]) && (c in inverse ==> all[c] == inverse[c])
      ensures c in inverse || (all[c] in history && c == Normal(cut, all[c]))
    {
      if c in inverse {
        ValidIsClean(inverse, c);
      } else {
        RawIsClean(cut, history, all[c]);
      }
      if c in Given(pairs) {
        assert Pair(Given(pairs)[c], c) in pairs;
      }
    }
    forall x | x in history ensures Normal(cut, x) in all && all[Normal(cut, x)] == x {
      assert Pair(x, Normal(cut, x)) in pairs;
    }
    OriginalsComplete(inverse, cut, history, all);
  }

  lemma {:induction false} ValidIsClean(inverse: CommitMap, i: Object)
    requires Valid(inverse) && i in inverse
    ensures inverse[i].Commit? && Clean(inverse[i])
  {
    hide Clean;
    assert ValidEntry(inverse, i);
  }

  lemma RawIsClean(cut: set<Object>, history: set<Object>, x: Object)
    requires RawHistory(cut, history) && x in history
    ensures x.Commit? && Clean(x)
  {
  }

  lemma GenerationIs(cut: set<Object>, history: set<Object>, pairs: seq<Pair>)
    requires Generation(cut, history, pairs)
    ensures forall q <- pairs :: q.raw in history && q.input == Normal(cut, q.raw)
    ensures forall x <- history :: Pair(x, Normal(cut, x)) in pairs
  {
  }

  /** Pins of generations, and some of the pair references of the entries. */
  ghost predicate PartOf(refs: RefMap, entries: CommitMap, part: RefMap) {
    forall r <- part ::
      if r.GenerationRef? then r in refs ==> refs[r] == part[r]
      else r in PairRefs(entries) && part[r] == PairRefs(entries)[r]
  }

  /**
   A recording that is interrupted after its copies is a step as well, whatever part of its pair
   references it leaves, on the exact conditions under which repair can restore what is lost.
   */
  lemma {:induction false} InterruptedRecordingIsStep(s: State, s': State, entries: CommitMap, part: RefMap)
    requires Sound(s) && Paired(s.refs) && s'.shallow == s.shallow && s.objects <= s'.objects
    requires forall i <- entries :: i in RawRefs(s.refs) ==> RawRefs(s.refs)[i] == entries[i]
    requires Kept(s'.objects, entries, entries.Keys)
    requires PartOf(s.refs, entries, part) && s'.refs == s.refs + part
    requires ParentClosed(RawRefs(s.refs) + entries, Inputs(s'.refs))
    requires forall i <- Inputs(s'.refs) :: i in RawRefs(s.refs) + entries ==> i in RawRefs(s'.refs) || !Misleading(RawRefs(s.refs) + entries, i)
    ensures Records(s, s', entries)
  {
    hide Sound, RawRefs, RetainedRefs, Paired, PairRefs, Misleading, Witnessed, Accepts, Valid, ParentClosed;
    forall r | r in s.refs ensures s'.refs[r] == s.refs[r] {
      if r in part && !r.GenerationRef? {
        PairRefsAre(entries, r);
        PairedNames(s.refs, r);
        PairedRefs(s.refs, r.input);
      }
    }
    PartKeeps(s, s', entries, part);
  }

  lemma {:induction false} PartKeeps(s: State, s': State, entries: CommitMap, part: RefMap)
    requires Sound(s) && Paired(s.refs) && s.objects <= s'.objects && Kept(s'.objects, entries, entries.Keys)
    requires PartOf(s.refs, entries, part) && s'.refs == s.refs + part
    ensures Kept(s'.objects, RawRefs(s.refs) + entries, Inputs(s'.refs))
  {
    hide RawRefs, RetainedRefs, Paired, PairRefs, Accepts, Valid, Witnessed, Survives, WellFormed;
    SoundInverse(s);
    forall i | i in RawRefs(s.refs) && i !in entries ensures ObjectCopy.Copyable({}, s'.objects, [i]) {
      assert ObjectCopy.Copyable({}, s.objects, [i]);
    }
    forall i | i in Inputs(s'.refs) ensures i in RawRefs(s.refs) + entries {
      RefsFrom(s'.refs, i);
      var r := if RawRef(i) in s'.refs then RawRef(i) else NormalizedRef(i);
      if r in part {
        PairRefsAre(entries, r);
      } else {
        PairedNames(s.refs, r);
      }
    }
  }

  // ----- What a recorded generation can rely on forever ----------------------------------------

  /** The generation was written out completely. */
  ghost predicate Completed(s': State, cut: set<Object>, history: set<Object>)
    requires RawHistory(cut, history) && Sound(s')
  {
    Submap(GenerationEntries(cut, history), WriterInverse(s'.refs))
  }

  lemma {:induction false} EntriesStay(states: seq<State>, i: nat, j: nat, cut: set<Object>, history: set<Object>)
    requires Run(states) && i <= j < |states| && RawHistory(cut, history)
    requires Sound(states[i]) && Completed(states[i], cut, history)
    ensures
      Sound(states[j]) && var inverse := WriterInverse(states[j].refs);
      Valid(inverse) && forall x <- history :: Normal(cut, x) != x ==> Normal(cut, x) in inverse && inverse[Normal(cut, x)] == x
  {
    hide Normal, ValidEntry, GenerationEntries, Recovered;
    RunsAreSound(states, i, j);
    GenerationEntriesAre(cut, history);
  }

  /**
   After any later run, each commit of a recorded generation is still sent back to its original,
   and retaining an original never walks past the cut of that generation.
   */
  lemma {:induction false} GenerationsLast(states: seq<State>, i: nat, j: nat, cut: set<Object>, history: set<Object>, x: Object)
    requires Run(states) && i <= j < |states| && RawHistory(cut, history)
    requires Sound(states[i]) && Completed(states[i], cut, history) && x in history
    ensures
      Sound(states[j]) && var inverse := WriterInverse(states[j].refs);
      && MapOrSelf(inverse, Normal(cut, x)) == x
      && Ancestry(RetentionBoundaries(inverse, states[j].shallow), x) <= Ancestry(cut, x)
  {
    hide Completed, Run, Valid, Kept, Recovered, Survives, Normal, RetentionBoundaries, WriterInverse;
    EntriesStay(states, i, j, cut, history);
    var inverse := WriterInverse(states[j].refs);
    WitnessIsExact(inverse, cut, history, x);
    AncestryWithin(cut, x, history);
    RetentionStopsAtHistoricalCut(inverse, states[j].shallow, cut, x);
  }

  /**
   Retention needs none of this: in every run whatever, once the entries of a cut history are
   recorded, retaining its tip never walks past that cut.
   */
  lemma {:induction false} RetentionLasts(states: seq<State>, i: nat, j: nat, cut: set<Object>, x: Object)
    requires AnyRun(states) && i <= j < |states| && AllCommits(cut, x)
    requires forall y <- Ancestry(cut, x) :: Normal(cut, y) != y ==>
               Normal(cut, y) in RawRefs(states[i].refs) && RawRefs(states[i].refs)[Normal(cut, y)] == y
    ensures Ancestry(RetentionBoundaries(RawRefs(states[j].refs), states[j].shallow), x) <= Ancestry(cut, x)
  {
    hide Normal, RawRefs, AnyRun, RetentionBoundaries;
    ReferencesStay(states, i, j);
    RetentionStopsAtHistoricalCut(RawRefs(states[j].refs), states[j].shallow, cut, x);
  }

  /** Reading a generation back gives exactly the pairs that normalizing its tip gave. */
  lemma {:induction false} WitnessRebuildsGeneration(states: seq<State>, i: nat, j: nat, cut: set<Object>, history: set<Object>, tip: Object, pairs: seq<Pair>)
    requires Run(states) && i <= j < |states| && RawHistory(cut, history)
    requires Sound(states[i]) && Completed(states[i], cut, history) && tip in history
    requires Sound(states[j]) && WitnessedPairs(WriterInverse(states[j].refs), Ancestry({}, Normal(cut, tip)), pairs)
    ensures forall q: Pair :: q in pairs <==> q.raw in Ancestry(cut, tip) && q.input == Normal(cut, q.raw)
  {
    hide Completed, Run, Valid, Kept, Recovered, Survives, Normal, RetentionBoundaries, WriterInverse;
    var inverse := WriterInverse(states[j].refs);
    AncestryWithin(cut, tip, history);
    forall x | x in Ancestry(cut, tip) ensures MapOrSelf(inverse, Normal(cut, x)) == x && Pair(x, Normal(cut, x)) in pairs {
      GenerationsLast(states, i, j, cut, history, x);
      NormalOfAncestor(cut, tip, x);
    }
    forall q | q in pairs ensures q.raw in Ancestry(cut, tip) && q.input == Normal(cut, q.raw) {
      var x := AncestorOfNormal(cut, tip, q.input);
    }
  }

  /** History without stamps exports unchanged. */
  lemma {:induction false} CleanExportsUnchanged(inverse: CommitMap, cut: set<Object>, history: set<Object>, anchors: CommitMap, x: Object)
    requires Valid(inverse) && AnchorsFrom(inverse, cut, history, anchors) && Clean(x)
    ensures Denormal(anchors, x) == x
    decreases x
  {
    if x in anchors {
      if anchors[x] != x {
        ChangedAnchorIsStamped(inverse, cut, history, anchors, x);
      }
    } else if x.Commit? {
      CleanIsUnstamped(x);
      forall p | p in x.parents ensures Denormal(anchors, p) == p {
        CleanParents(x, p);
        CleanExportsUnchanged(inverse, cut, history, anchors, p);
      }
      assert DenormalParents(anchors, x) == x.parents;
    }
  }

  /** So every normalized commit exports to exactly the raw commit it came from. */
  lemma {:induction false} NormalizedExportsExactly(states: seq<State>, i: nat, j: nat, cut: set<Object>, history: set<Object>,
                                                    newCut: set<Object>, newHistory: set<Object>, anchors: CommitMap, x: Object)
    requires Run(states) && i <= j < |states| && RawHistory(cut, history)
    requires Sound(states[i]) && Completed(states[i], cut, history) && x in history
    requires Sound(states[j]) && AnchorsFrom(WriterInverse(states[j].refs), newCut, newHistory, anchors)
    ensures Denormal(anchors, Normal(cut, x)) == x
  {
    hide Completed, Run, Kept, Recovered, Survives, WriterInverse;
    EntriesStay(states, i, j, cut, history);
    if Normal(cut, x) == x {
      CleanExportsUnchanged(WriterInverse(states[j].refs), newCut, newHistory, anchors, x);
    }
  }

  // ----- The gap ------------------------------------------------------------------------------

  /**
   An interruption can leave both references of a child and none of its rewritten parent. Nothing
   looks incomplete then, no repair is proposed, and the parent is read back as its own original.
   */
  lemma {:induction false} OrphanGoesUnnoticed(tree: Object, meta: Meta, below: Object)
    ensures
      var boundary := Commit(tree, [below], meta, []);
      var child := Commit(tree, [boundary], meta, []);
      var cut := {boundary};
      var refs := PairRefs(map[Normal(cut, child) := child]);
      && Paired(refs)
      && Normal(cut, boundary) in Normal(cut, child).parents
      && MapOrSelf(RawRefs(refs), Normal(cut, boundary)) != boundary
  {
    hide Normal;
    var child := Commit(tree, [Commit(tree, [below], meta, [])], meta, []);
    var root, n := BoundaryNormalForm(tree, meta, below);
    var refs := PairRefs(map[n := child]);
    assert RawRef(n) in refs && NormalizedRef(n) in refs;
    PersistsInverse(refs, map[n := child]);
  }
}
