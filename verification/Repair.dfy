/**
 Completing the paired references of normalization after an interrupted write, from the
 surviving half, the provenance stamps, and the parent relations of exported commits.
 */
module Repair {
  import opened Wrappers
  import opened Objects
  import opened Normalization
  import opened Ledger
  import opened Refs
  import opened Walks
  import ObjectCopy

  /** The values of the provenance headers of a commit, in order. */
  function Stamps(headers: seq<Header>): (values: seq<HeaderValue>)
    ensures values == [] <==> forall h <- headers :: !h.key.Provenance?
  {
    if headers == [] then []
    else
      var h := headers[|headers| - 1];
      Stamps(headers[..|headers| - 1]) + if h.key.Provenance? then [h.value] else []
  }

  /** What the loop finds for an input: its raw reference, its only stamp, or its rebuilt export. */
  ghost function Recovered(raws: CommitMap, inputs: set<Object>, input: Object): Option<Object>
    decreases input
  {
    if input in raws then Some(raws[input])
    else if !input.Commit? then None
    else if Stamps(input.headers) != [] then
      var stamps := Stamps(input.headers);
      if |stamps| == 1 && stamps[0].Hex? then Some(stamps[0].id) else None
    else if exists p <- input.parents :: p in inputs && Recovered(raws, inputs, p).None? then None
    else
      var parents := RecoveredParents(raws, inputs, input);
      if parents == input.parents then None else Some(Rewritten(input, parents, None))
  }

  ghost function RecoveredParents(raws: CommitMap, inputs: set<Object>, input: Object): (parents: seq<Object>)
    requires input.Commit? && forall p <- input.parents :: p in inputs ==> Recovered(raws, inputs, p).Some?
    ensures |parents| == |input.parents|
    ensures forall i | 0 <= i < |parents| ::
      parents[i] == if input.parents[i] in inputs then Recovered(raws, inputs, input.parents[i]).value else input.parents[i]
    decreases input, 0
  {
    var ps := input.parents;
    seq(|ps|, i requires 0 <= i < |ps| => if ps[i] in inputs then Recovered(raws, inputs, ps[i]).value else ps[i])
  }

  ghost predicate AllRecovered(raws: CommitMap, inputs: set<Object>) {
    forall i <- inputs :: Recovered(raws, inputs, i).Some?
  }

  ghost function Repaired(raws: CommitMap, inputs: set<Object>): CommitMap
    requires AllRecovered(raws, inputs)
  {
    map i | i in inputs :: Recovered(raws, inputs, i).value
  }

  /** A pair that the repair may persist. */
  predicate Proven(inverse: CommitMap, input: Object, raw: Object) {
    NormalRelation(inverse, input, raw) || ExportRelation(inverse, input, raw)
  }

  /** The originals of root inputs, which are all the boundaries a repair may rely on. */
  function Roots(inverse: CommitMap): set<Object> {
    set i | i in inverse && i.Commit? && i.parents == [] :: inverse[i]
  }

  ghost predicate PairsProven(objects: set<Object>, inverse: CommitMap) {
    forall i <- inverse :: inverse[i] != i && i in objects && inverse[i] in objects && Proven(inverse, i, inverse[i])
  }

  ghost predicate Complete(cut: set<Object>, objects: set<Object>, tips: set<Object>) {
    forall t <- tips :: ObjectCopy.Copyable(cut, objects, [t])
  }

  /** Everything a repair checks before it persists anything. */
  ghost predicate Accepts(objects: set<Object>, raws: CommitMap, retained: set<Object>) {
    var inputs := raws.Keys + retained;
    && AllRecovered(raws, inputs)
    && var inverse := Repaired(raws, inputs);
    && PairsProven(objects, inverse)
    && Complete({}, objects, inputs)
    && Complete(Roots(inverse), objects, inverse.Values)
  }

  // ----- Exactness ---------------------------------------------------------------------------

  /** Of the references of `inverse`, those in `raws` and `retained` survived. */
  ghost predicate Survives(inverse: CommitMap, raws: CommitMap, retained: set<Object>) {
    && (forall i <- raws :: i in inverse && raws[i] == inverse[i])
    && (forall i <- retained :: i in inverse)
  }

  /** The surviving inputs are closed under rewritten parents. */
  ghost predicate ParentClosed(inverse: CommitMap, inputs: set<Object>) {
    forall i <- inputs, p | i.Commit? && p in i.parents :: p in inverse ==> p in inputs
  }

  /** A lost raw reference can be told again: the input carries no stamp, or just that of its original. */
  ghost predicate Witnessed(inverse: CommitMap, raws: CommitMap, i: Object)
    requires i in inverse
  {
    i in raws || !i.Commit? || Stamps(i.headers) == [] || Stamps(i.headers) == [Hex(inverse[i])]
  }

  /** What recording keeps in the repository for each input. */
  ghost predicate Kept(objects: set<Object>, inverse: CommitMap, inputs: set<Object>) {
    forall i <- inputs :: i in inverse && inverse[i] in objects && ObjectCopy.Copyable({}, objects, [i])
  }

  /** A normalized input always carries exactly the stamp of its original. */
  lemma {:induction false} NormalInputsAreWitnessed(inverse: CommitMap, i: Object)
    requires i in inverse && NormalRelation(inverse, i, inverse[i])
    ensures Stamps(i.headers) == [Hex(inverse[i])]
  {
    var raw := inverse[i];
    var kept := Strip(raw.headers);
    assert (kept + [Stamp(raw)])[..|kept|] == kept;
    assert Stamps(kept) == [];
  }

  /** An input without a stamp was exported, and its parents made it differ. */
  lemma {:induction false} UnstampedIsExported(inverse: CommitMap, i: Object)
    requires Valid(inverse) && i in inverse && i.Commit? && Stamps(i.headers) == []
    ensures
      var parents := Originals(inverse, i.parents);
      inverse[i] == Rewritten(i, parents, None) && parents != i.parents
  {
    hide Stamps, Rewritten, Originals, Clean;
    assert ValidEntry(inverse, i);
    if NormalRelation(inverse, i, inverse[i]) {
      NormalInputsAreWitnessed(inverse, i);
    }
    Unstamped(i);
  }

  lemma Unstamped(i: Object)
    requires i.Commit? && Stamps(i.headers) == []
    ensures !HasProvenance(i)
  {
  }

  lemma {:induction false} RecoveredFromParents(raws: CommitMap, inputs: set<Object>, i: Object, parents: seq<Object>)
    requires i !in raws && i.Commit? && Stamps(i.headers) == [] && |parents| == |i.parents| && parents != i.parents
    requires forall k | 0 <= k < |parents| ::
      if i.parents[k] in inputs then Recovered(raws, inputs, i.parents[k]) == Some(parents[k]) else parents[k] == i.parents[k]
    ensures Recovered(raws, inputs, i) == Some(Rewritten(i, parents, None))
  {
    hide Stamps, Rewritten;
    assert RecoveredParents(raws, inputs, i) == parents;
  }

  lemma {:induction false} RecoveredOutright(inverse: CommitMap, raws: CommitMap, inputs: set<Object>, i: Object)
    requires i in inverse && Witnessed(inverse, raws, i) && (i in raws ==> raws[i] == inverse[i])
    requires i in raws || (i.Commit? && Stamps(i.headers) != [])
    ensures Recovered(raws, inputs, i) == Some(inverse[i])
  {
    hide Stamps, Rewritten;
  }

  lemma {:induction false} RecoveredIsOriginal(inverse: CommitMap, raws: CommitMap, inputs: set<Object>, i: Object)
    requires Valid(inverse) && (forall j <- raws :: j in inverse && raws[j] == inverse[j])
    requires inputs <= inverse.Keys && ParentClosed(inverse, inputs) && forall j <- inputs :: Witnessed(inverse, raws, j)
    requires i in inputs
    ensures Recovered(raws, inputs, i) == Some(inverse[i])
    decreases i
  {
    hide Recovered, Stamps, Rewritten, Valid, Witnessed;
    ValidIsCommit(inverse, i);
    if i in raws || Stamps(i.headers) != [] {
      RecoveredOutright(inverse, raws, inputs, i);
    } else {
      UnstampedIsExported(inverse, i);
      forall p | p in i.parents && p in inputs ensures Recovered(raws, inputs, p) == Some(inverse[p]) {
        RecoveredIsOriginal(inverse, raws, inputs, p);
      }
      RecoveredFromParents(raws, inputs, i, Originals(inverse, i.parents));
    }
  }

  lemma {:induction false} ValidIsCommit(inverse: CommitMap, i: Object)
    requires Valid(inverse) && i in inverse
    ensures i.Commit?
  {
    assert ValidEntry(inverse, i);
  }

  ghost function Restricted(inverse: CommitMap, inputs: set<Object>): CommitMap
    requires inputs <= inverse.Keys
  {
    map i | i in inputs :: inverse[i]
  }

  lemma RestrictedOriginals(inverse: CommitMap, inputs: set<Object>, i: Object)
    requires inputs <= inverse.Keys && i in inputs && i.Commit? && ParentClosed(inverse, inputs)
    ensures Originals(Restricted(inverse, inputs), i.parents) == Originals(inverse, i.parents)
  {
  }

  lemma {:induction false} RestrictedIsProven(inverse: CommitMap, inputs: set<Object>, i: Object)
    requires Valid(inverse) && inputs <= inverse.Keys && i in inputs && ParentClosed(inverse, inputs)
    ensures inverse[i] != i && Proven(Restricted(inverse, inputs), i, inverse[i])
  {
    assert ValidEntry(inverse, i);
    RestrictedOriginals(inverse, inputs, i);
  }

  lemma {:induction false} ClosureAntitone(cut: set<Object>, o: Object, x: Object)
    requires x in Closure(cut, o)
    ensures x in Closure({}, o)
    decreases o
  {
    if x != o {
      LinksAreSmaller(cut, o);
      var l :| l in Links(cut, o) && x in Closure(cut, l.id);
      ClosureAntitone(cut, l.id, x);
      assert l in Links({}, o);
    }
  }

  lemma FewerLinks(cut: set<Object>, o: Object, l: Link)
    requires l in Links(cut, o)
    ensures l in Links({}, o)
  {
  }

  lemma {:induction false} CopyableIs(cut: set<Object>, objects: set<Object>, t: Object)
    ensures ObjectCopy.Copyable(cut, objects, [t]) <==>
      forall x <- Closure(cut, t) :: x in objects && forall l <- Links(cut, x) :: ObjectCopy.Typed(l)
  {
    assert ClosureOf(cut, [t]) == Closure(cut, t);
  }

  lemma {:induction false} CopyableAntitone(cut: set<Object>, objects: set<Object>, t: Object)
    requires ObjectCopy.Copyable({}, objects, [t])
    ensures ObjectCopy.Copyable(cut, objects, [t])
  {
    CopyableIs({}, objects, t);
    CopyableIs(cut, objects, t);
    forall x, l | x in Closure(cut, t) && l in Links(cut, x) ensures ObjectCopy.Typed(l) {
      ClosureAntitone(cut, t, x);
      FewerLinks(cut, x, l);
    }
    forall x | x in Closure(cut, t) ensures x in objects {
      ClosureAntitone(cut, t, x);
    }
  }

  lemma {:induction false} CopyableLink(cut: set<Object>, objects: set<Object>, o: Object, l: Link)
    requires ObjectCopy.Copyable(cut, objects, [o]) && l in Links(cut, o)
    ensures ObjectCopy.Copyable(cut, objects, [l.id]) && ObjectCopy.Typed(l)
  {
    CopyableIs(cut, objects, o);
    CopyableIs(cut, objects, l.id);
    LinksAreSmaller(cut, o);
    assert o in Closure(cut, o);
    forall x | x in Closure(cut, l.id) ensures x in Closure(cut, o) {
    }
  }

  lemma {:induction false} CopyableFromLinks(cut: set<Object>, objects: set<Object>, o: Object)
    requires o in objects && forall l <- Links(cut, o) :: ObjectCopy.Typed(l) && ObjectCopy.Copyable(cut, objects, [l.id])
    ensures ObjectCopy.Copyable(cut, objects, [o])
  {
    CopyableIs(cut, objects, o);
    LinksAreSmaller(cut, o);
    forall x | x in Closure(cut, o) ensures x in objects && forall l <- Links(cut, x) :: ObjectCopy.Typed(l) {
      if x != o {
        var l :| l in Links(cut, o) && x in Closure(cut, l.id);
        CopyableIs(cut, objects, l.id);
      }
    }
  }

  lemma {:induction false} ParentLink(o: Object, i: nat)
    requires o.Commit? && i < |o.parents|
    ensures Link(o.parents[i], CommitKind) in Links({}, o)
  {
    assert Links({}, o)[i + 1] == Link(o.parents[i], CommitKind);
  }

  lemma CommitLinks(cut: set<Object>, o: Object, l: Link)
    requires o.Commit? && l in Links(cut, o)
    ensures l == Link(o.tree, TreeKind) || (o !in cut && exists i | 0 <= i < |o.parents| :: l == Link(o.parents[i], CommitKind))
  {
  }

  lemma {:induction false} TreeLink(cut: set<Object>, o: Object)
    requires o.Commit?
    ensures Link(o.tree, TreeKind) in Links(cut, o)
  {
    assert Links(cut, o)[0] == Link(o.tree, TreeKind);
  }

  /** Raw history below an input, cut at the recorded roots, is present whenever the complete inputs are. */
  lemma {:induction false} RawIsCopyable(objects: set<Object>, inverse: CommitMap, inputs: set<Object>, i: Object)
    requires Valid(inverse) && inputs <= inverse.Keys && ParentClosed(inverse, inputs) && Kept(objects, inverse, inputs)
    requires i in inputs
    ensures ObjectCopy.Copyable(Roots(Restricted(inverse, inputs)), objects, [inverse[i]])
    decreases i
  {
    var cut, raw := Roots(Restricted(inverse, inputs)), inverse[i];
    assert ValidEntry(inverse, i);
    assert raw.Commit? && raw.tree == i.tree;
    forall l | l in Links(cut, raw) ensures ObjectCopy.Typed(l) && ObjectCopy.Copyable(cut, objects, [l.id]) {
      CommitLinks(cut, raw, l);
      if l == Link(raw.tree, TreeKind) {
        TreeLink({}, i);
        CopyableLink({}, objects, i, l);
        CopyableAntitone(cut, objects, l.id);
      } else {
        var k :| 0 <= k < |raw.parents| && l == Link(raw.parents[k], CommitKind);
        assert i in Restricted(inverse, inputs);
        assert i.parents != [] && raw.parents == Originals(inverse, i.parents);
        var p := i.parents[k];
        if p in inverse {
          RawIsCopyable(objects, inverse, inputs, p);
          assert ValidEntry(inverse, p);
        } else {
          ParentLink(i, k);
          CopyableLink({}, objects, i, Link(p, CommitKind));
          CopyableAntitone(cut, objects, p);
        }
      }
    }
    CopyableFromLinks(cut, objects, raw);
  }

  // ----- Foreign stamps ------------------------------------------------------------------------

  /** An export whose provenance headers are not exactly the stamp of what it was exported as. */
  ghost predicate Misleading(inverse: CommitMap, i: Object)
    requires i in inverse
  {
    && Exported(inverse, i, inverse[i])
    && Stamps(i.headers) != [] && Stamps(i.headers) != [Hex(Rewritten(i, Originals(inverse, i.parents), None))]
  }

  /** A lost raw reference can be told again unless the input is an export with a foreign stamp. */
  lemma {:induction false} WitnessedUnlessMisleading(inverse: CommitMap, raws: CommitMap, i: Object)
    requires Valid(inverse) && i in inverse
    ensures Witnessed(inverse, raws, i) <==> i in raws || !Misleading(inverse, i)
  {
    hide Stamps, Rewritten, Clean;
    assert ValidEntry(inverse, i);
    if NormalRelation(inverse, i, inverse[i]) {
      NormalInputsAreWitnessed(inverse, i);
    }
  }

  /** Neither normalized commits nor exports without a provenance header are misleading. */
  lemma {:induction false} PlainIsNotMisleading(inverse: CommitMap, i: Object)
    requires i in inverse && (NormalRelation(inverse, i, inverse[i]) || !HasProvenance(i))
    ensures !Misleading(inverse, i)
  {
    hide Rewritten;
    if NormalRelation(inverse, i, inverse[i]) {
      NormalInputsAreWitnessed(inverse, i);
    }
  }

  /**
   What the repair of `i` relies on is in order: its raw reference survived, or its stamp is its
   own, or it carries none and the same holds for each of its rewritten parents.
   */
  ghost predicate Traceable(inverse: CommitMap, raws: CommitMap, inputs: set<Object>, i: Object)
    decreases i
  {
    && i in inputs && i in inverse
    && (|| i in raws
        || (i.Commit? && Stamps(i.headers) != [] && !Misleading(inverse, i))
        || (i.Commit? && Stamps(i.headers) == [] && forall p <- i.parents :: p in inverse ==> Traceable(inverse, raws, inputs, p)))
  }

  /**
   What repair restores in general, whatever was lost: exactly the traceable inputs get their
   original back, and a stamped input without its raw reference always gets what its stamp names.
   */
  lemma {:induction false} RestoresTraceable(inverse: CommitMap, raws: CommitMap, retained: set<Object>, i: Object)
    requires Valid(inverse) && Survives(inverse, raws, retained) && AllRecovered(raws, raws.Keys + retained)
    requires i in raws.Keys + retained
    ensures Repaired(raws, raws.Keys + retained)[i] == inverse[i] <==> Traceable(inverse, raws, raws.Keys + retained, i)
    ensures i !in raws && i.Commit? && Stamps(i.headers) != [] ==>
              Stamps(i.headers) == [Hex(Repaired(raws, raws.Keys + retained)[i])]
    decreases i
  {
    hide Stamps, Rewritten, Valid, Recovered, Misleading;
    var inputs := raws.Keys + retained;
    assert Recovered(raws, inputs, i).Some?;
    ValidIsCommit(inverse, i);
    if i in raws {
      FromRaw(raws, inputs, i);
    } else if Stamps(i.headers) != [] {
      FromStamps(raws, inputs, i);
      WitnessedUnlessMisleading(inverse, raws, i);
    } else {
      forall p | p in i.parents && p in inputs
        ensures Repaired(raws, inputs)[p] == inverse[p] <==> Traceable(inverse, raws, inputs, p)
      {
        RestoresTraceable(inverse, raws, retained, p);
      }
      forall p | p in i.parents && p in inverse && p !in inputs ensures inverse[p] != p {
        ValidIsMoved(inverse, p);
      }
      UnstampedIsExported(inverse, i);
      RebuiltIsOriginal(inverse, raws, inputs, i);
    }
  }

  lemma FromRaw(raws: CommitMap, inputs: set<Object>, i: Object)
    requires i in raws
    ensures Recovered(raws, inputs, i) == Some(raws[i])
  {
  }

  lemma {:induction false} ValidIsMoved(inverse: CommitMap, i: Object)
    requires Valid(inverse) && i in inverse
    ensures inverse[i] != i
  {
    assert ValidEntry(inverse, i);
  }

  /** A rebuilt export is the original exactly when its parents were told right. */
  lemma {:induction false} RebuiltIsOriginal(inverse: CommitMap, raws: CommitMap, inputs: set<Object>, i: Object)
    requires inputs <= inverse.Keys && AllRecovered(raws, inputs) && i in inputs
    requires i !in raws && i.Commit? && Stamps(i.headers) == []
    requires inverse[i] == Rewritten(i, Originals(inverse, i.parents), None)
    requires forall p <- i.parents :: p in inverse && p !in inputs ==> inverse[p] != p
    ensures Repaired(raws, inputs)[i] == inverse[i] <==>
            forall p <- i.parents :: p in inverse ==> p in inputs && Repaired(raws, inputs)[p] == inverse[p]
  {
    hide Stamps;
    var told, originals := RecoveredParents(raws, inputs, i), Originals(inverse, i.parents);
    assert Recovered(raws, inputs, i).Some?;
    assert Recovered(raws, inputs, i) == Some(Rewritten(i, told, None));
    assert Repaired(raws, inputs)[i] == inverse[i] <==> told == originals;
    if told == originals {
      forall p | p in i.parents && p in inverse ensures p in inputs && Repaired(raws, inputs)[p] == inverse[p] {
        var k :| 0 <= k < |i.parents| && i.parents[k] == p;
        assert told[k] == originals[k];
      }
    }
  }

  lemma {:induction false} RepairSucceeds(objects: set<Object>, inverse: CommitMap, raws: CommitMap, retained: set<Object>)
    requires Valid(inverse) && Survives(inverse, raws, retained) && Kept(objects, inverse, raws.Keys + retained)
    requires ParentClosed(inverse, raws.Keys + retained)
    requires forall i <- raws.Keys + retained :: Witnessed(inverse, raws, i)
    ensures AllRecovered(raws, raws.Keys + retained)
    ensures Repaired(raws, raws.Keys + retained) == Restricted(inverse, raws.Keys + retained)
    ensures Accepts(objects, raws, retained)
  {
    hide Recovered, Valid, Proven;
    var inputs := raws.Keys + retained;
    forall i | i in inputs ensures Recovered(raws, inputs, i) == Some(inverse[i]) {
      RecoveredIsOriginal(inverse, raws, inputs, i);
    }
    var repaired := Repaired(raws, inputs);
    assert repaired == Restricted(inverse, inputs);
    forall i | i in inputs
      ensures inverse[i] != i && Proven(repaired, i, inverse[i]) && i in objects
      ensures ObjectCopy.Copyable(Roots(repaired), objects, [inverse[i]])
    {
      RestrictedIsProven(inverse, inputs, i);
      RawIsCopyable(objects, inverse, inputs, i);
      CopyableIs({}, objects, i);
      assert i in Closure({}, i);
    }
  }

  /** A pair whose parent lost its entry is refused: its raw parents no longer match. */
  lemma {:induction false} OrphanIsRefused(inverse: CommitMap, inputs: set<Object>, i: Object, p: Object)
    requires Valid(inverse) && inputs <= inverse.Keys && i in inputs
    requires i.Commit? && p in i.parents && p in inverse && p !in inputs
    ensures !Proven(Restricted(inverse, inputs), i, inverse[i])
  {
    assert ValidEntry(inverse, i) && ValidEntry(inverse, p);
    var k :| 0 <= k < |i.parents| && i.parents[k] == p;
    assert inverse[i].parents == Originals(inverse, i.parents);
    assert Originals(Restricted(inverse, inputs), i.parents)[k] == p != inverse[i].parents[k];
  }

  /**
   After an interruption that leaves any part of the paired references, repair restores the
   original raw id of every surviving input exactly when those inputs are closed under rewritten
   parents and no input that lost its raw reference is an export with a foreign stamp.
   */
  lemma {:induction false} CrashRepairIsExact(objects: set<Object>, inverse: CommitMap, raws: CommitMap, retained: set<Object>)
    requires Valid(inverse) && Survives(inverse, raws, retained) && Kept(objects, inverse, raws.Keys + retained)
    ensures
      var inputs := raws.Keys + retained;
      (Accepts(objects, raws, retained) && Repaired(raws, inputs) == Restricted(inverse, inputs))
        <==> (ParentClosed(inverse, inputs) && forall i <- inputs :: i in raws || !Misleading(inverse, i))
  {
    hide Witnessed, Misleading, Recovered, Repaired, Kept, Valid, Complete, PairsProven;
    var inputs := raws.Keys + retained;
    forall i | i in inputs ensures Witnessed(inverse, raws, i) <==> i in raws || !Misleading(inverse, i) {
      WitnessedUnlessMisleading(inverse, raws, i);
    }
    if ParentClosed(inverse, inputs) && forall i <- inputs :: Witnessed(inverse, raws, i) {
      RepairSucceeds(objects, inverse, raws, retained);
    }
    if Accepts(objects, raws, retained) && Repaired(raws, inputs) == Restricted(inverse, inputs) {
      forall i | i in inputs ensures Witnessed(inverse, raws, i) {
        ExactIsWitnessed(objects, inverse, raws, retained, i);
      }
      forall i, p | i in inputs && i.Commit? && p in i.parents && p in inverse ensures p in inputs {
        ExactIsClosed(objects, inverse, raws, retained, i, p);
      }
    }
  }

  /**
   Without that condition repair can persist another original, and nothing it checks tells: the
   normalized form `i` of a foreign commit `s` was exported as `d`, its raw reference was lost, and
   the stamp that it still carries leads back to `s`.
   */
  lemma {:induction false} ForeignStampIsTrusted(meta: Meta, below: Object)
    ensures
      var tree := Tree([]);
      var s := Commit(tree, [below], meta, []);
      var i, d := Normal({s}, s), Denormal(map[], Normal({s}, s));
      var inverse, raws: CommitMap, objects := map[i := d], map[], {s, i, d, tree};
      && Valid(inverse) && Survives(inverse, raws, {i}) && Kept(objects, inverse, {i}) && ParentClosed(inverse, {i})
      && Misleading(inverse, i)
      && Accepts(objects, raws, {i}) && Repaired(raws, raws.Keys + {i}) == map[i := s] && s != d
  {
    var tree := Tree([]);
    var s := Commit(tree, [below], meta, []);
    var i, d := Rewritten(s, [], Some(s)), Commit(tree, [], meta, []);
    ForeignExport(meta, below);
    var inverse, raws: CommitMap, objects := map[i := d], map[], {s, i, d, tree};
    var inputs := raws.Keys + {i};
    assert inputs == {i};
    SingleStamp(s);
    assert Clean(d) by {
      assert Ancestry({}, d) == {d};
    }
    assert ExportRelation(inverse, i, d) && HasProvenance(i);
    assert ValidEntry(inverse, i);
    RootClosure({}, i, objects);
    RootClosure({s}, s, objects);
    FromStamps(raws, inputs, i);
    var repaired := Repaired(raws, inputs);
    assert repaired == map[i := s];
    assert NormalRelation(repaired, i, s);
    assert Roots(repaired) == {s} by {
      assert i in repaired && i.Commit? && i.parents == [] && repaired[i] == s;
    }
    assert PairsProven(objects, repaired);
    assert Complete({}, objects, inputs) && Complete(Roots(repaired), objects, repaired.Values);
  }

  lemma {:induction false} ForeignExport(meta: Meta, below: Object)
    ensures
      var s := Commit(Tree([]), [below], meta, []);
      var i := Rewritten(s, [], Some(s));
      && Normal({s}, s) == i && Denormal(map[], i) == Commit(Tree([]), [], meta, []) && HasProvenance(i) && i != s
      && Rewritten(i, [], None) == Commit(Tree([]), [], meta, [])
  {
    var s := Commit(Tree([]), [below], meta, []);
    var i := Rewritten(s, [], Some(s));
    assert NormalParents({s}, s) == [];
    RewrittenKeeps(s, [], Some(s));
    assert DenormalParents(map[], i) == [];
  }

  lemma {:induction false} SingleStamp(s: Object)
    requires s.Commit? && s.headers == []
    ensures Stamps(Rewritten(s, [], Some(s)).headers) == [Hex(s)]
  {
    var headers := Rewritten(s, [], Some(s)).headers;
    assert headers == [Stamp(s)] && headers[..0] == [];
  }

  /** A commit whose parents are cut off, on the empty tree, needs only itself and that tree. */
  lemma {:induction false} RootClosure(cut: set<Object>, c: Object, objects: set<Object>)
    requires c.Commit? && c.tree == Tree([]) && (c in cut || c.parents == []) && c in objects && Tree([]) in objects
    ensures ObjectCopy.Copyable(cut, objects, [c])
  {
    assert Links(cut, Tree([])) == [];
    CopyableFromLinks(cut, objects, Tree([]));
    forall l | l in Links(cut, c) ensures l == Link(Tree([]), TreeKind) {
      CommitLinks(cut, c, l);
    }
    CopyableFromLinks(cut, objects, c);
  }

  lemma {:induction false} ExactIsWitnessed(objects: set<Object>, inverse: CommitMap, raws: CommitMap, retained: set<Object>, i: Object)
    requires Survives(inverse, raws, retained) && Accepts(objects, raws, retained) && i in raws.Keys + retained
    requires Repaired(raws, raws.Keys + retained) == Restricted(inverse, raws.Keys + retained)
    ensures Witnessed(inverse, raws, i)
  {
    hide Complete, PairsProven, Stamps, ObjectCopy.Copyable;
    var inputs := raws.Keys + retained;
    assert Recovered(raws, inputs, i).value == Repaired(raws, inputs)[i] == inverse[i];
  }

  lemma {:induction false} ExactIsClosed(objects: set<Object>, inverse: CommitMap, raws: CommitMap, retained: set<Object>, i: Object, p: Object)
    requires Valid(inverse) && Survives(inverse, raws, retained) && Accepts(objects, raws, retained)
    requires Repaired(raws, raws.Keys + retained) == Restricted(inverse, raws.Keys + retained)
    requires i in raws.Keys + retained && i.Commit? && p in i.parents && p in inverse
    ensures p in raws.Keys + retained
  {
    var inputs := raws.Keys + retained;
    assert i in Repaired(raws, inputs);
    if p !in inputs {
      OrphanIsRefused(inverse, inputs, i, p);
    }
  }

  // ----- The recovery loop -------------------------------------------------------------------

  /** The inputs whose raw ids must be known before that of `i`. */
  function Needs(raws: CommitMap, inputs: set<Object>, i: Object): (needs: seq<Object>)
    ensures forall p <- needs :: i.Commit? && p in i.parents && p in inputs && p < i
    ensures i.Commit? && i !in raws && Stamps(i.headers) == [] ==> forall p <- i.parents :: p in inputs ==> p in needs
  {
    if !i.Commit? || i in raws || Stamps(i.headers) != [] then [] else Selected(i.parents, inputs)
  }

  function Selected(cs: seq<Object>, wanted: set<Object>): (kept: seq<Object>)
    ensures forall c :: c in kept <==> c in cs && c in wanted
  {
    if cs == [] then []
    else (if cs[0] in wanted then [cs[0]] else []) + Selected(cs[1..], wanted)
  }

  function EntersInOrder(nodes: seq<Object>): (work: seq<Work<Object>>)
    ensures |work| == |nodes| && forall i | 0 <= i < |nodes| :: work[i] == Enter(nodes[i])
  {
    seq(|nodes|, i requires 0 <= i < |nodes| => Enter(nodes[i]))
  }

  ghost predicate RecoveryWalk(raws: CommitMap, inputs: set<Object>, roots: seq<Object>,
                               pending: seq<Work<Object>>, active: set<Object>, done: set<Object>) {
    Walking((i: Object) => Needs(raws, inputs, i), inputs, roots, pending, active, done)
  }

  lemma {:induction false} RecoveryStarts(raws: CommitMap, inputs: set<Object>, roots: seq<Object>)
    requires raws.Keys <= inputs && forall r <- roots :: r in inputs
    ensures RecoveryWalk(raws, inputs, roots, Enters(roots), {}, raws.Keys)
  {
    Starts((i: Object) => Needs(raws, inputs, i), inputs, roots, raws.Keys);
  }

  lemma {:induction false} RecoveryTop(raws: CommitMap, inputs: set<Object>, roots: seq<Object>,
                                       rest: seq<Work<Object>>, top: Work<Object>, active: set<Object>, done: set<Object>)
    requires RecoveryWalk(raws, inputs, roots, rest + [top], active, done)
    ensures top.node in inputs
    ensures top.Enter? ==> top.node !in active
    ensures top.Exit? ==> top.node in active && top.node !in done && forall p <- Needs(raws, inputs, top.node) :: p in done
  {
    var next := (i: Object) => Needs(raws, inputs, i);
    Top(next, inputs, roots, rest, top, active, done);
    NoCycles(next, top.node);
  }

  lemma {:induction false} RecoverySkip(raws: CommitMap, inputs: set<Object>, roots: seq<Object>,
                                        rest: seq<Work<Object>>, top: Work<Object>, active: set<Object>, done: set<Object>)
    requires RecoveryWalk(raws, inputs, roots, rest + [top], active, done) && top.Enter?
    ensures RecoveryWalk(raws, inputs, roots, rest, active, done + {top.node})
    ensures Unseen(inputs, active, done + {top.node}) <= Unseen(inputs, active, done)
  {
    RecoveryTop(raws, inputs, roots, rest, top, active, done);
    Skip((i: Object) => Needs(raws, inputs, i), inputs, roots, rest, top, active, done);
  }

  lemma {:induction false} RecoveryEnter(raws: CommitMap, inputs: set<Object>, roots: seq<Object>,
                                         rest: seq<Work<Object>>, top: Work<Object>, active: set<Object>, done: set<Object>)
    requires RecoveryWalk(raws, inputs, roots, rest + [top], active, done) && top.Enter? && top.node !in done
    requires top.node.Commit? && top.node !in raws && Stamps(top.node.headers) == []
    ensures RecoveryWalk(raws, inputs, roots,
                         rest + [Exit(top.node)] + EntersInOrder(Selected(top.node.parents, inputs - done)), active + {top.node}, done)
    ensures Unseen(inputs, active + {top.node}, done) < Unseen(inputs, active, done)
  {
    RecoveryTop(raws, inputs, roots, rest, top, active, done);
    var next := (i: Object) => Needs(raws, inputs, i);
    var unresolved := Selected(top.node.parents, inputs - done);
    var items := EntersInOrder(unresolved);
    forall c | c in next(top.node) ensures c in done || Enter(c) in items {
      if c !in done {
        assert c in unresolved;
        var k :| 0 <= k < |unresolved| && unresolved[k] == c;
        assert items[k] == Enter(c);
      }
    }
    forall w | w in items ensures w.Enter? && w.node in next(top.node) {
      var k :| 0 <= k < |items| && items[k] == w;
      assert unresolved[k] in unresolved;
    }
    PushItems(next, inputs, roots, rest, top, items, active, done);
  }

  lemma {:induction false} RecoveryLeave(raws: CommitMap, inputs: set<Object>, roots: seq<Object>,
                                         rest: seq<Work<Object>>, top: Work<Object>, active: set<Object>, done: set<Object>)
    requires RecoveryWalk(raws, inputs, roots, rest + [top], active, done) && top.Exit?
    ensures RecoveryWalk(raws, inputs, roots, rest, active - {top.node}, done + {top.node})
    ensures Unseen(inputs, active - {top.node}, done + {top.node}) == Unseen(inputs, active, done)
  {
    Leave((i: Object) => Needs(raws, inputs, i), inputs, roots, rest, top, active, done);
  }

  lemma {:induction false} RecoveryEnds(raws: CommitMap, inputs: set<Object>, roots: seq<Object>, active: set<Object>, done: set<Object>)
    requires RecoveryWalk(raws, inputs, roots, [], active, done)
    ensures forall r <- roots :: r in done
  {
    Ends((i: Object) => Needs(raws, inputs, i), inputs, roots, active, done);
  }

  /** The raw ids found so far are the recovered ones. */
  ghost predicate Recovering(raws: CommitMap, inputs: set<Object>, inverse: CommitMap) {
    && raws.Keys <= inverse.Keys <= inputs
    && forall i <- inverse :: Recovered(raws, inputs, i) == Some(inverse[i])
  }

  lemma {:induction false} RebuiltFromParents(raws: CommitMap, inputs: set<Object>, inverse: CommitMap, i: Object)
    requires Recovering(raws, inputs, inverse) && i in inputs && i !in inverse
    requires i.Commit? && Stamps(i.headers) == [] && forall p <- i.parents :: p in inputs ==> p in inverse
    ensures
      var parents := Originals(inverse, i.parents);
      Recovered(raws, inputs, i) == if parents == i.parents then None else Some(Rewritten(i, parents, None))
  {
    assert Originals(inverse, i.parents) == RecoveredParents(raws, inputs, i);
  }

  lemma RecoveringOne(raws: CommitMap, inputs: set<Object>, inverse: CommitMap, i: Object, raw: Object)
    requires Recovering(raws, inputs, inverse) && i in inputs && Recovered(raws, inputs, i) == Some(raw)
    ensures Recovering(raws, inputs, inverse[i := raw]) && inverse[i := raw].Keys == inverse.Keys + {i}
  {
  }

  method Listing(s: set<Object>) returns (list: seq<Object>)
    ensures forall x :: x in list <==> x in s
  {
    list := [];
    var rest := s;
    while rest != {}
      invariant rest <= s && forall x :: x in list <==> x in s - rest
    {
      var x :| x in rest;
      list, rest := list + [x], rest - {x};
    }
  }

  /** Children only after parents: reconstructs the raw id of every input that lost its reference. */
  method RecoverRaws(objects: set<Object>, raws: CommitMap, retained: set<Object>)
    returns (error: Option<Error>, inverse: CommitMap)
    ensures error.None? ==> AllRecovered(raws, raws.Keys + retained) && inverse == Repaired(raws, raws.Keys + retained)
    ensures error.Some? ==> !error.value.Cycle? && !(AllRecovered(raws, raws.Keys + retained) && retained <= objects)
  {
    hide RecoveryWalk, Recovered, Stamps;
    error := None;
    inverse := raws;
    var inputs := raws.Keys + retained;
    var roots := Listing(retained - raws.Keys);
    var pending := Enters(roots);
    var active: set<Object> := {};
    RecoveryStarts(raws, inputs, roots);
    RecoveringStarts(raws, inputs);
    while pending != []
      invariant RecoveryWalk(raws, inputs, roots, pending, active, inverse.Keys)
      invariant Recovering(raws, inputs, inverse)
      invariant forall i <- active :: i.Commit? && Stamps(i.headers) == []
      decreases Unseen(inputs, active, inverse.Keys), |pending|
    {
      var n := |pending| - 1;
      var rest, top := pending[..n], pending[n];
      SplitLast(pending);
      RecoveryTop(raws, inputs, roots, rest, top, active, inverse.Keys);
      var input := top.node;
      if input in inverse {
        RecoverySkip(raws, inputs, roots, rest, top, active, inverse.Keys);
        assert inverse.Keys + {input} == inverse.Keys;
        pending := rest;
        continue;
      }
      if input !in objects || !input.Commit? {
        if !input.Commit? {
          NotACommit(raws, inputs, input);
        }
        return Some(if input !in objects then Missing(input) else WrongKind(input)), inverse;
      }
      var stamps := Stamps(input.headers);
      if stamps != [] {
        FromStamps(raws, inputs, input);
        if |stamps| > 1 {
          return Some(Ambiguous(input)), inverse;
        } else if stamps[0].Text? {
          return Some(Unproven(input)), inverse;
        }
        RecoverySkip(raws, inputs, roots, rest, top, active, inverse.Keys);
        RecoveringOne(raws, inputs, inverse, input, stamps[0].id);
        inverse, pending := inverse[input := stamps[0].id], rest;
      } else if top.Exit? {
        RebuiltFromParents(raws, inputs, inverse, input);
        var parents := Originals(inverse, input.parents);
        if parents == input.parents {
          return Some(Unproven(input)), inverse;
        }
        var raw := Rewritten(input, parents, None);
        RecoveryLeave(raws, inputs, roots, rest, top, active, inverse.Keys);
        RecoveringOne(raws, inputs, inverse, input, raw);
        inverse, active, pending := inverse[input := raw], active - {input}, rest;
      } else if input in active {
        return Some(Cycle(input)), inverse;
      } else {
        RecoveryEnter(raws, inputs, roots, rest, top, active, inverse.Keys);
        active := active + {input};
        pending := rest + [Exit(input)] + EntersInOrder(Selected(input.parents, inputs - inverse.Keys));
      }
    }
    RecoveryEnds(raws, inputs, roots, active, inverse.Keys);
    assert inverse.Keys == inputs;
  }

  lemma RecoveringStarts(raws: CommitMap, inputs: set<Object>)
    requires raws.Keys <= inputs
    ensures Recovering(raws, inputs, raws)
  {
  }

  lemma NotACommit(raws: CommitMap, inputs: set<Object>, i: Object)
    requires i !in raws && !i.Commit?
    ensures Recovered(raws, inputs, i).None?
  {
  }

  lemma FromStamps(raws: CommitMap, inputs: set<Object>, i: Object)
    requires i !in raws && i.Commit? && Stamps(i.headers) != []
    ensures
      var stamps := Stamps(i.headers);
      Recovered(raws, inputs, i) == if |stamps| == 1 && stamps[0].Hex? then Some(stamps[0].id) else None
  {
  }

  // ----- References --------------------------------------------------------------------------

  function RawRefs(refs: RefMap): CommitMap {
    map r | r in refs && r.RawRef? :: r.input := refs[r]
  }

  function RetainedRefs(refs: RefMap): set<Object> {
    set r | r in refs && r.NormalizedRef? :: r.input
  }

  predicate WellFormed(refs: RefMap) {
    forall r <- refs :: r.NormalizedRef? ==> refs[r] == r.input
  }

  /** Every input has both halves of its pair. */
  predicate Paired(refs: RefMap) {
    WellFormed(refs) && RawRefs(refs).Keys == RetainedRefs(refs)
  }

  /** The references that persist an inverse. */
  function PairRefs(inverse: CommitMap): RefMap {
    (map i | i in inverse :: RawRef(i) := inverse[i]) + (map i | i in inverse :: NormalizedRef(i) := i)
  }

  /** Parents that a proof took for unmapped. */
  function IdentityParents(inverse: CommitMap): set<Object> {
    set i, p | i in inverse && i.Commit? && p in i.parents && p !in inverse :: p
  }

  function RawEdit(raws: CommitMap, inverse: CommitMap, i: Object): Edit
    requires i in inverse
  {
    if i in raws then VerifyIs(RawRef(i), inverse[i]) else Update(RawRef(i), inverse[i])
  }

  function NormalizedEdit(retained: set<Object>, i: Object): Edit {
    if i in retained then VerifyIs(NormalizedRef(i), i) else Update(NormalizedRef(i), i)
  }

  lemma EditTargets(raws: CommitMap, retained: set<Object>, inverse: CommitMap)
    ensures forall i <- inverse :: RawEdit(raws, inverse, i).name == RawRef(i) && RawEdit(raws, inverse, i).target == inverse[i]
    ensures forall i :: NormalizedEdit(retained, i).name == NormalizedRef(i) && NormalizedEdit(retained, i).target == i
  {
  }

  /** Writes the missing halves, and pins everything else that the proof relied on. */
  function RepairEdits(raws: CommitMap, retained: set<Object>, inverse: CommitMap): (edits: set<Edit>)
    ensures Coherent(edits)
  {
    EditTargets(raws, retained, inverse);
    (set i | i in inverse :: RawEdit(raws, inverse, i))
    + (set i | i in inverse :: NormalizedEdit(retained, i))
    + (set p | p in IdentityParents(inverse) :: VerifyAbsent(RawRef(p)))
    + (set p | p in IdentityParents(inverse) :: VerifyAbsent(NormalizedRef(p)))
  }

  lemma {:induction false} CompleteListed(cut: set<Object>, objects: set<Object>, tips: set<Object>, list: seq<Object>)
    requires forall x :: x in list <==> x in tips
    ensures ObjectCopy.Copyable(cut, objects, list) <==> Complete(cut, objects, tips)
  {
    if ObjectCopy.Copyable(cut, objects, list) {
      forall t | t in tips ensures ObjectCopy.Copyable(cut, objects, [t]) {
        forall x | x in ClosureOf(cut, [t]) ensures x in ClosureOf(cut, list) {
        }
      }
    }
    if Complete(cut, objects, tips) {
      forall x | x in ClosureOf(cut, list) ensures x in objects && forall l <- Links(cut, x) :: ObjectCopy.Typed(l) {
        var t :| t in list && x in Closure(cut, t);
        CopyableIs(cut, objects, t);
      }
    }
  }

  lemma ProvenIsCommit(inverse: CommitMap, input: Object, raw: Object)
    requires Proven(inverse, input, raw)
    ensures input.Commit?
  {
  }

  lemma NoRoots()
    ensures Roots(map[]) == {}
  {
  }

  lemma RootsGrow(done: CommitMap, input: Object, raw: Object)
    requires input !in done && input.Commit?
    ensures Roots(done[input := raw]) == Roots(done) + if input.parents == [] then {raw} else {}
  {
    var more := done[input := raw];
    forall i | i in done ensures more[i] == done[i] {
    }
    forall r | r in Roots(done) ensures r in Roots(more) {
      var i :| i in done && i.Commit? && i.parents == [] && done[i] == r;
      assert i in more && more[i] == r;
    }
  }

  /** Checks every pair, and collects the boundaries and identity parents that the checks rely on. */
  method ProvePairs(objects: set<Object>, inverse: CommitMap)
    returns (error: Option<Error>, boundaries: set<Object>, identities: set<Object>)
    ensures error.None? <==> PairsProven(objects, inverse)
    ensures error.None? ==> boundaries == Roots(inverse) && identities == IdentityParents(inverse)
    ensures error.Some? ==> !error.value.Cycle?
  {
    hide Proven, Roots;
    error, boundaries, identities := None, {}, {};
    NoRoots();
    var rest, done := inverse.Keys, map[];
    while rest != {}
      invariant rest !! done.Keys && rest + done.Keys == inverse.Keys
      invariant forall i <- done :: done[i] == inverse[i]
      invariant forall i <- done :: inverse[i] != i && i in objects && inverse[i] in objects && Proven(inverse, i, inverse[i])
      invariant boundaries == Roots(done)
      invariant identities == set i, p | i in done && i.Commit? && p in i.parents && p !in inverse :: p
      decreases rest
    {
      var input :| input in rest;
      var raw := inverse[input];
      if input == raw {
        return Some(Unproven(input)), boundaries, identities;
      } else if input !in objects || raw !in objects {
        return Some(Missing(input)), boundaries, identities;
      } else if !Proven(inverse, input, raw) {
        return Some(Contradictory(input)), boundaries, identities;
      }
      ProvenIsCommit(inverse, input, raw);
      RootsGrow(done, input, raw);
      if input.parents == [] {
        boundaries := boundaries + {raw};
      }
      identities := identities + set p | p in input.parents && p !in inverse;
      rest, done := rest - {input}, done[input := raw];
    }
    assert done == inverse;
  }

  /** Proposes the edits that complete the paired references, or none if they are complete. */
  method NormalizationRepairs(objects: set<Object>, refs: RefMap) returns (result: Result<set<Edit>>)
    ensures result.Ok? <==> WellFormed(refs) && (Paired(refs) || Accepts(objects, RawRefs(refs), RetainedRefs(refs)))
    ensures result.Ok? && Paired(refs) ==> result.value == {}
    ensures result.Ok? && !Paired(refs) ==>
      result.value == RepairEdits(RawRefs(refs), RetainedRefs(refs), Repaired(RawRefs(refs), RawRefs(refs).Keys + RetainedRefs(refs)))
  {
    hide Recovered, Proven, Roots, IdentityParents, RepairEdits, RawRefs, RetainedRefs;
    if !WellFormed(refs) {
      return Err(RefConflict);
    }
    var raws, retained := RawRefs(refs), RetainedRefs(refs);
    if raws.Keys == retained {
      return Ok({});
    }
    var inputs := raws.Keys + retained;
    var error, inverse := RecoverRaws(objects, raws, retained);
    if error.Some? {
      return Err(error.value);
    }
    var contradiction, boundaries, identities := ProvePairs(objects, inverse);
    if contradiction.Some? {
      return Err(contradiction.value);
    }
    var tips := Listing(inputs);
    CompleteListed({}, objects, inputs, tips);
    var checkedInputs := ObjectCopy.CheckObjects(objects, tips, {});
    if checkedInputs.Err? {
      return Err(checkedInputs.error);
    }
    var originals := Listing(inverse.Values);
    CompleteListed(boundaries, objects, inverse.Values, originals);
    var checkedRaws := ObjectCopy.CheckObjects(objects, originals, boundaries);
    if checkedRaws.Err? {
      return Err(checkedRaws.error);
    }
    result := Ok(RepairEdits(raws, retained, inverse));
  }

  lemma RepairEditCases(raws: CommitMap, retained: set<Object>, inverse: CommitMap, e: Edit)
    requires e in RepairEdits(raws, retained, inverse)
    ensures match e
            case Update(RawRef(i), t) => i in inverse && t == inverse[i] && i !in raws
            case Update(NormalizedRef(i), t) => i in inverse && t == i && i !in retained
            case Update(GenerationRef(_), _) => false
            case VerifyIs(RawRef(i), t) => i in inverse && t == inverse[i] && i in raws
            case VerifyIs(NormalizedRef(i), t) => i in inverse && t == i && i in retained
            case VerifyIs(GenerationRef(_), _) => false
            case VerifyAbsent(name) => name.input !in inverse && !name.GenerationRef?
  {
  }

  lemma RefsOf(refs: RefMap, r: RefName)
    requires r in refs
    ensures r.RawRef? ==> r.input in RawRefs(refs) && RawRefs(refs)[r.input] == refs[r]
    ensures r.NormalizedRef? ==> r.input in RetainedRefs(refs)
  {
  }

  lemma RefsFrom(refs: RefMap, i: Object)
    ensures i in RawRefs(refs) ==> RawRef(i) in refs && refs[RawRef(i)] == RawRefs(refs)[i]
    ensures i in RetainedRefs(refs) ==> NormalizedRef(i) in refs
  {
  }

  /** Two reference maps with these pair references persist this inverse. */
  lemma PersistsInverse(refs: RefMap, inverse: CommitMap)
    requires forall i <- inverse :: RawRef(i) in refs && refs[RawRef(i)] == inverse[i]
    requires forall i <- inverse :: NormalizedRef(i) in refs && refs[NormalizedRef(i)] == i
    requires forall r <- refs :: r.GenerationRef? || r.input in inverse
    ensures Paired(refs) && RawRefs(refs) == inverse
  {
  }

  /** Applied to the references it was computed from, a repair completes every pair and overwrites nothing. */
  lemma {:induction false} RepairCompletes(refs: RefMap, inverse: CommitMap)
    requires WellFormed(refs) && inverse.Keys == RawRefs(refs).Keys + RetainedRefs(refs)
    requires forall i <- RawRefs(refs) :: inverse[i] == RawRefs(refs)[i]
    ensures
      var edits := RepairEdits(RawRefs(refs), RetainedRefs(refs), inverse);
      var after := refs + Updates(edits);
      && (forall e <- edits :: Permits(refs, e))
      && (forall r <- refs :: after[r] == refs[r])
      && Paired(after) && RawRefs(after) == inverse
  {
    hide RepairEdits, RawRefs, RetainedRefs, Paired, WellFormed;
    var raws, retained := RawRefs(refs), RetainedRefs(refs);
    var edits := RepairEdits(raws, retained, inverse);
    var after := refs + Updates(edits);
    forall e | e in edits
      ensures Permits(refs, e) && (e.Update? ==> e.name !in refs && e.name.input in inverse && !e.name.GenerationRef?)
      ensures e.Update? ==> e.target == if e.name.RawRef? then inverse[e.name.input] else e.name.input
    {
      RepairEditCases(raws, retained, inverse, e);
      RefsFrom(refs, e.name.input);
      if e.name in refs {
        RefsOf(refs, e.name);
      }
      assert e.VerifyIs? && e.name.NormalizedRef? ==> refs[e.name] == e.target by { NormalizedTarget(refs, e.name); }
    }
    forall i | i in inverse
      ensures RawRef(i) in after && after[RawRef(i)] == inverse[i]
      ensures NormalizedRef(i) in after && after[NormalizedRef(i)] == i
    {
      RefsFrom(refs, i);
      MissingHalvesAreWritten(raws, retained, inverse, i);
      NormalizedTarget(refs, NormalizedRef(i));
    }
    forall r | r in after ensures r.GenerationRef? || r.input in inverse {
      if r in refs {
        RefsOf(refs, r);
      }
    }
    PersistsInverse(after, inverse);
  }

  lemma NormalizedTarget(refs: RefMap, r: RefName)
    requires WellFormed(refs)
    ensures r in refs && r.NormalizedRef? ==> refs[r] == r.input
  {
  }

  lemma MissingHalvesAreWritten(raws: CommitMap, retained: set<Object>, inverse: CommitMap, i: Object)
    requires i in inverse
    ensures i !in raws ==> Update(RawRef(i), inverse[i]) in RepairEdits(raws, retained, inverse)
    ensures i !in retained ==> Update(NormalizedRef(i), i) in RepairEdits(raws, retained, inverse)
  {
  }

  // ----- What a repair has checked and pinned ------------------------------------------------------

  /** The stamps are the values of the provenance headers, each once. */
  lemma {:induction false} StampsAreAll(headers: seq<Header>)
    ensures |Stamps(headers)| == |set i: nat | i < |headers| && headers[i].key.Provenance?|
    ensures forall v :: v in Stamps(headers) <==> exists h <- headers :: h.key.Provenance? && h.value == v
  {
    if headers != [] {
      var n := |headers| - 1;
      var front := headers[..n];
      StampsAreAll(front);
      var before := set i: nat | i < n && front[i].key.Provenance?;
      var all := set i: nat | i < |headers| && headers[i].key.Provenance?;
      assert all == before + if headers[n].key.Provenance? then {n} else {};
      assert forall h :: h in headers <==> h in front || h == headers[n];
    }
  }

  /**
   An accepted repair has seen, for every input, its commit and its original, with their trees, and
   every parent that the original names unless it is the original of a root input.
   */
  lemma {:induction false} AcceptedIsWhole(objects: set<Object>, raws: CommitMap, retained: set<Object>, i: Object)
    requires Accepts(objects, raws, retained) && i in raws.Keys + retained
    ensures
      var inverse := Repaired(raws, raws.Keys + retained);
      var raw := inverse[i];
      && i in objects && raw in objects && i.Commit? && raw.Commit? && i.tree in objects && raw.tree in objects
      && (forall p <- i.parents :: p in objects)
      && ((forall j <- inverse :: j.Commit? && |j.parents| == 0 ==> inverse[j] != raw) ==> forall p <- raw.parents :: p in objects)
  {
    hide Recovered, Stamps, Rewritten;
    var inverse := Repaired(raws, raws.Keys + retained);
    var raw, cut := inverse[i], Roots(inverse);
    ProvenIsCommit(inverse, i, raw);
    assert raw in inverse.Values;
    CopyableHasLinks({}, objects, i);
    CopyableHasLinks(cut, objects, raw);
    if raw in cut {
      var j :| j in inverse && j.Commit? && j.parents == [] && inverse[j] == raw;
      assert |j.parents| == 0;
    }
  }

  lemma {:induction false} CopyableHasLinks(cut: set<Object>, objects: set<Object>, c: Object)
    requires ObjectCopy.Copyable(cut, objects, [c]) && c.Commit?
    ensures c in objects && c.tree in objects && (c !in cut ==> forall p <- c.parents :: p in objects)
  {
    CopyableIs(cut, objects, c);
    assert c in Closure(cut, c);
    forall l | l in Links(cut, c) ensures l.id in objects {
      CopyableLink(cut, objects, c, l);
      CopyableIs(cut, objects, l.id);
      assert l.id in Closure(cut, l.id);
    }
    TreeLink(cut, c);
    if c !in cut {
      forall p | p in c.parents ensures p in objects {
        LinksAreChildren(cut, c, p, CommitKind);
      }
    }
  }

  /**
   The edits pin everything that the proof relied on: if they are permitted on references that others
   have changed meanwhile, every repaired pair is still proven by the references as they then are.
   */
  lemma {:induction false} RepairStaysProven(raws: CommitMap, retained: set<Object>, inverse: CommitMap, refs: RefMap, i: Object)
    requires i in inverse && Proven(inverse, i, inverse[i])
    requires Applies(refs, RepairEdits(raws, retained, inverse), refs + Updates(RepairEdits(raws, retained, inverse)))
    ensures
      var after := RawRefs(refs + Updates(RepairEdits(raws, retained, inverse)));
      i in after && after[i] == inverse[i] && Proven(after, i, after[i])
  {
    hide RepairEdits, RawRefs, Rewritten;
    var edits := RepairEdits(raws, retained, inverse);
    var later := refs + Updates(edits);
    forall j | j in inverse ensures j in RawRefs(later) && RawRefs(later)[j] == inverse[j] {
      PinnedRaw(raws, retained, inverse, refs, j);
    }
    ProvenIsCommit(inverse, i, inverse[i]);
    forall p | p in i.parents && p !in inverse ensures p !in RawRefs(later) {
      PinnedIdentity(raws, retained, inverse, refs, i, p);
    }
    assert Originals(RawRefs(later), i.parents) == Originals(inverse, i.parents);
  }

  lemma {:induction false} PinnedRaw(raws: CommitMap, retained: set<Object>, inverse: CommitMap, refs: RefMap, j: Object)
    requires j in inverse
    requires Applies(refs, RepairEdits(raws, retained, inverse), refs + Updates(RepairEdits(raws, retained, inverse)))
    ensures
      var after := RawRefs(refs + Updates(RepairEdits(raws, retained, inverse)));
      j in after && after[j] == inverse[j]
  {
    hide RawRefs, RepairEdits;
    var later := refs + Updates(RepairEdits(raws, retained, inverse));
    RepairStaysPaired(raws, retained, inverse, refs, j);
    RefsOf(later, RawRef(j));
  }

  lemma {:induction false} PinnedIdentity(raws: CommitMap, retained: set<Object>, inverse: CommitMap, refs: RefMap, i: Object, p: Object)
    requires i in inverse && i.Commit? && p in i.parents && p !in inverse
    requires Applies(refs, RepairEdits(raws, retained, inverse), refs + Updates(RepairEdits(raws, retained, inverse)))
    ensures p !in RawRefs(refs + Updates(RepairEdits(raws, retained, inverse)))
  {
    hide RepairEdits, RawRefs;
    var later := refs + Updates(RepairEdits(raws, retained, inverse));
    UnmappedStays(raws, retained, inverse, refs, i, p, RawRef(p));
    RefsFrom(later, p);
  }

  /** Neither reference of a parent that was taken for unmapped exists before or after the repair. */
  lemma {:induction false} UnmappedStays(raws: CommitMap, retained: set<Object>, inverse: CommitMap, refs: RefMap, i: Object, p: Object, r: RefName)
    requires i in inverse && i.Commit? && p in i.parents && p !in inverse && (r == RawRef(p) || r == NormalizedRef(p))
    requires Applies(refs, RepairEdits(raws, retained, inverse), refs + Updates(RepairEdits(raws, retained, inverse)))
    ensures r !in refs && r !in refs + Updates(RepairEdits(raws, retained, inverse))
  {
    var edits := RepairEdits(raws, retained, inverse);
    assert p in IdentityParents(inverse);
    assert VerifyAbsent(r) in edits;
    forall e | e in edits && e.Update? ensures e.name != r {
      RepairEditCases(raws, retained, inverse, e);
    }
  }

  /** Both references of every repaired input exist after the repair, whatever others wrote meanwhile. */
  lemma {:induction false} RepairStaysPaired(raws: CommitMap, retained: set<Object>, inverse: CommitMap, refs: RefMap, i: Object)
    requires i in inverse
    requires Applies(refs, RepairEdits(raws, retained, inverse), refs + Updates(RepairEdits(raws, retained, inverse)))
    ensures
      var later := refs + Updates(RepairEdits(raws, retained, inverse));
      && RawRef(i) in later && later[RawRef(i)] == inverse[i]
      && NormalizedRef(i) in later && later[NormalizedRef(i)] == i
  {
    var edits := RepairEdits(raws, retained, inverse);
    var raw, normalized := RawEdit(raws, inverse, i), NormalizedEdit(retained, i);
    assert raw in edits && normalized in edits;
    forall e | e in edits && e.Update?
      ensures e.name == RawRef(i) ==> e.target == inverse[i]
      ensures e.name == NormalizedRef(i) ==> e.target == i
    {
      RepairEditCases(raws, retained, inverse, e);
    }
  }
}
