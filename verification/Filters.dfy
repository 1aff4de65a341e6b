/**
 Projection filters that name source revisions. When a source history is normalized, the literal
 revisions in a filter follow the same rewrite; the memoised rewriting equals plain substitution,
 and the rewritten filter selects on normalized commits what the original selects on raw ones.
 */
module Filters {
  import opened Wrappers
  import opened Objects
  import opened Normalization
  import opened Ledger
  import opened SourceHistory

  datatype RevMatch = AncestorStrict(id: Object) | AncestorInclusive(id: Object) | Equal(id: Object) | Default

  datatype Arm = Arm(matcher: RevMatch, child: Filter)

  /** The operators that hold one other filter and no revision. */
  datatype Wrapper = MetaOp(text: string) | StarlarkOp(text: string) | TreeIdOp(text: string) | ExcludeOp | SelectOp | PinOp

  /** Filters, identified by content. `Plain` stands for every operator without filters or revisions. */
  datatype Filter =
    | Plain(text: string)
    | Rev(arms: seq<Arm>)
    | Unapply(id: Object, child: Filter)
    | Downstack(id: Object)
    | Wrapped(wrapper: Wrapper, child: Filter)
    | Compose(children: seq<Filter>)
    | Chain(children: seq<Filter>)
    | Subtract(left: Filter, right: Filter)

  function MapMatch(ids: CommitMap, m: RevMatch): RevMatch {
    match m
    case AncestorStrict(id) => AncestorStrict(MapOrSelf(ids, id))
    case AncestorInclusive(id) => AncestorInclusive(MapOrSelf(ids, id))
    case Equal(id) => Equal(MapOrSelf(ids, id))
    case Default => Default
  }

  // ----- Substitution, and the memoised walk that computes it ----------------------------------

  function Substituted(ids: CommitMap, f: Filter): Filter
    decreases f
  {
    match f
    case Plain(_) => f
    case Rev(arms) =>
      Rev(seq(|arms|, i requires 0 <= i < |arms| => Arm(MapMatch(ids, arms[i].matcher), Substituted(ids, arms[i].child))))
    case Unapply(id, child) => Unapply(MapOrSelf(ids, id), Substituted(ids, child))
    case Downstack(id) => Downstack(MapOrSelf(ids, id))
    case Wrapped(w, child) => Wrapped(w, Substituted(ids, child))
    case Compose(children) => Compose(seq(|children|, i requires 0 <= i < |children| => Substituted(ids, children[i])))
    case Chain(children) => Chain(seq(|children|, i requires 0 <= i < |children| => Substituted(ids, children[i])))
    case Subtract(left, right) => Subtract(Substituted(ids, left), Substituted(ids, right))
  }

  type Memo = map<Filter, Filter>

  ghost predicate Remembers(ids: CommitMap, memo: Memo) {
    forall f <- memo :: memo[f] == Substituted(ids, f)
  }

  method MapNode(f: Filter, ids: CommitMap, memo: Memo) returns (mapped: Filter, memo': Memo)
    requires Remembers(ids, memo)
    ensures mapped == Substituted(ids, f) && Remembers(ids, memo')
    decreases f, 2
  {
    if f in memo {
      return memo[f], memo;
    }
    memo' := memo;
    match f {
      case Rev(arms) =>
        var mappedArms;
        mappedArms, memo' := MapArms(f, ids, memo');
        mapped := Rev(mappedArms);
        assert mapped == Substituted(ids, f);
      case Unapply(id, child) =>
        var mappedChild;
        mappedChild, memo' := MapNode(child, ids, memo');
        mapped := Unapply(MapOrSelf(ids, id), mappedChild);
      case Downstack(id) =>
        mapped := Downstack(MapOrSelf(ids, id));
      case Wrapped(w, child) =>
        var mappedChild;
        mappedChild, memo' := MapNode(child, ids, memo');
        mapped := Wrapped(w, mappedChild);
      case Compose(children) =>
        var mappedChildren;
        mappedChildren, memo' := MapChildren(f, children, ids, memo');
        mapped := Compose(mappedChildren);
      case Chain(children) =>
        var mappedChildren;
        mappedChildren, memo' := MapChildren(f, children, ids, memo');
        mapped := Chain(mappedChildren);
      case Subtract(left, right) =>
        var mappedLeft, mappedRight;
        mappedLeft, memo' := MapNode(left, ids, memo');
        mappedRight, memo' := MapNode(right, ids, memo');
        mapped := Subtract(mappedLeft, mappedRight);
      case Plain(_) =>
        mapped := f;
    }
    memo' := memo'[f := mapped];
  }

  method MapArms(f: Filter, ids: CommitMap, memo: Memo) returns (mapped: seq<Arm>, memo': Memo)
    requires f.Rev? && Remembers(ids, memo)
    ensures Rev(mapped) == Substituted(ids, f) && Remembers(ids, memo')
    decreases f, 1
  {
    mapped, memo' := [], memo;
    var i := 0;
    while i < |f.arms|
      invariant 0 <= i <= |f.arms| && |mapped| == i && Remembers(ids, memo')
      invariant forall k | 0 <= k < i :: mapped[k] == Arm(MapMatch(ids, f.arms[k].matcher), Substituted(ids, f.arms[k].child))
    {
      assert f.arms[i] < f;
      var child;
      child, memo' := MapNode(f.arms[i].child, ids, memo');
      mapped, i := mapped + [Arm(MapMatch(ids, f.arms[i].matcher), child)], i + 1;
    }
    assert mapped == Substituted(ids, f).arms;
  }

  method MapChildren(ghost parent: Filter, children: seq<Filter>, ids: CommitMap, memo: Memo) returns (mapped: seq<Filter>, memo': Memo)
    requires Remembers(ids, memo) && forall c <- children :: c < parent
    ensures |mapped| == |children| && forall k | 0 <= k < |children| :: mapped[k] == Substituted(ids, children[k])
    ensures Remembers(ids, memo')
    decreases parent, 1
  {
    mapped, memo' := [], memo;
    var i := 0;
    while i < |children|
      invariant 0 <= i <= |children| && |mapped| == i && Remembers(ids, memo')
      invariant forall k | 0 <= k < i :: mapped[k] == Substituted(ids, children[k])
    {
      assert children[i] in children;
      var child;
      child, memo' := MapNode(children[i], ids, memo');
      mapped, i := mapped + [child], i + 1;
    }
  }

  lemma {:induction false} NothingToSubstitute(f: Filter)
    ensures Substituted(map[], f) == f
    decreases f
  {
    match f
    case Rev(arms) =>
      forall i | 0 <= i < |arms| ensures Substituted(map[], arms[i].child) == arms[i].child {
        assert arms[i] < f;
        NothingToSubstitute(arms[i].child);
      }
      assert Substituted(map[], f).arms == arms;
    case Unapply(_, child) => NothingToSubstitute(child);
    case Wrapped(_, child) => NothingToSubstitute(child);
    case Compose(children) =>
      forall i | 0 <= i < |children| ensures Substituted(map[], children[i]) == children[i] {
        NothingToSubstitute(children[i]);
      }
      assert Substituted(map[], f).children == children;
    case Chain(children) =>
      forall i | 0 <= i < |children| ensures Substituted(map[], children[i]) == children[i] {
        NothingToSubstitute(children[i]);
      }
      assert Substituted(map[], f).children == children;
    case Subtract(left, right) =>
      NothingToSubstitute(left);
      NothingToSubstitute(right);
    case _ =>
  }

  /** Collecting the pairs into a lookup table; of two entries for one revision the later one counts. */
  function ChangedIds(pairs: seq<Pair>): CommitMap {
    if pairs == [] then map[]
    else
      var last, before := pairs[|pairs| - 1], ChangedIds(pairs[..|pairs| - 1]);
      if last.raw == last.input then before else before[last.raw := last.input]
  }

  method MapSourceIds(f: Filter, pairs: seq<Pair>) returns (mapped: Filter)
    ensures mapped == Substituted(ChangedIds(pairs), f)
  {
    var ids: CommitMap := map[];
    var i := 0;
    while i < |pairs|
      invariant 0 <= i <= |pairs| && ids == ChangedIds(pairs[..i])
    {
      assert pairs[..i + 1][..i] == pairs[..i];
      if pairs[i].raw != pairs[i].input {
        ids := ids[pairs[i].raw := pairs[i].input];
      }
      i := i + 1;
    }
    assert pairs[..i] == pairs;
    if ids == map[] {
      NothingToSubstitute(f);
      return f;
    }
    var memo;
    mapped, memo := MapNode(f, ids, map[]);
  }

  // ----- Meaning -----------------------------------------------------------------------------

  /** Whether commit `c` is selected, where ancestry ends at `cut`. */
  ghost predicate Selects(cut: set<Object>, m: RevMatch, c: Object) {
    match m
    case AncestorStrict(id) => c != id && c in Ancestry(cut, id)
    case AncestorInclusive(id) => c in Ancestry(cut, id)
    case Equal(id) => c == id
    case Default => true
  }

  /** A strict match is an inclusive one that is no equal one, and an inclusive one follows paths of uncut parents. */
  lemma {:induction false} MatchesMean(cut: set<Object>, id: Object, c: Object)
    ensures Selects(cut, AncestorStrict(id), c) <==> Selects(cut, AncestorInclusive(id), c) && !Selects(cut, Equal(id), c)
    ensures Selects(cut, Equal(id), c) <==> c == id
    ensures Selects(cut, AncestorInclusive(id), c) <==> c == id || exists p <- Parents(cut, id) :: Selects(cut, AncestorInclusive(p), c)
  {
    AncestryIs(cut, id);
  }

  ghost predicate NamedIn(m: RevMatch, history: set<Object>) {
    m.Default? || m.id in history
  }

  lemma {:induction false} NormalAncestryIff(cut: set<Object>, history: set<Object>, x: Object, id: Object)
    requires RawHistory(cut, history) && x in history && id in history
    ensures Normal(cut, x) in Ancestry({}, Normal(cut, id)) <==> x in Ancestry(cut, id)
    ensures Normal(cut, x) == Normal(cut, id) <==> x == id
  {
    hide Normal;
    AncestryWithin(cut, id, history);
    RawHistoryUnstamped(cut, history);
    NormalsAreDistinct(cut, history);
    if x in Ancestry(cut, id) {
      NormalOfAncestor(cut, id, x);
    }
    if Normal(cut, x) in Ancestry({}, Normal(cut, id)) {
      var y := AncestorOfNormal(cut, id, Normal(cut, x));
      assert y in history;
    }
  }

  lemma {:induction false} ChangedIdsAre(pairs: seq<Pair>, cut: set<Object>)
    requires forall q <- pairs :: q.input == Normal(cut, q.raw)
    ensures forall r <- ChangedIds(pairs) :: ChangedIds(pairs)[r] == Normal(cut, r) != r
    ensures forall q <- pairs :: q.raw != q.input ==> q.raw in ChangedIds(pairs)
  {
    hide Normal;
    if pairs != [] {
      var before := pairs[..|pairs| - 1];
      assert pairs == before + [pairs[|pairs| - 1]];
      ChangedIdsAre(before, cut);
    }
  }

  /** A literal of the history is rewritten to its normal form. */
  lemma {:induction false} MapIdIsNormal(cut: set<Object>, history: set<Object>, pairs: seq<Pair>, id: Object)
    requires Generation(cut, history, pairs) && id in history
    ensures MapOrSelf(ChangedIds(pairs), id) == Normal(cut, id)
  {
    hide Normal;
    ChangedIdsAre(pairs, cut);
    assert Pair(id, Normal(cut, id)) in pairs;
  }

  /** One match on a normalized commit agrees with the original match on the raw commit in the cut graph. */
  lemma {:induction false} MatchKeepsMeaning(cut: set<Object>, history: set<Object>, pairs: seq<Pair>, m: RevMatch, x: Object)
    requires RawHistory(cut, history) && Generation(cut, history, pairs) && x in history && NamedIn(m, history)
    ensures Selects({}, MapMatch(ChangedIds(pairs), m), Normal(cut, x)) <==> Selects(cut, m, x)
  {
    hide Normal, Generation, RawHistory;
    if !m.Default? {
      MapIdIsNormal(cut, history, pairs, m.id);
      NormalAncestryIff(cut, history, x, m.id);
    }
  }

  /** The arm that a commit takes. */
  ghost function Taken(cut: set<Object>, arms: seq<Arm>, c: Object): (k: nat)
    ensures k <= |arms| && (k < |arms| ==> Selects(cut, arms[k].matcher, c))
    ensures forall i | 0 <= i < k :: !Selects(cut, arms[i].matcher, c)
  {
    if arms == [] then 0 else if Selects(cut, arms[0].matcher, c) then 0 else 1 + Taken(cut, arms[1..], c)
  }

  const NOTHING := Plain("")

  /** The filter as it applies to one commit: every revision switch replaced by the arm taken there. */
  ghost function At(cut: set<Object>, f: Filter, c: Object): Filter
    decreases f
  {
    match f
    case Plain(_) => f
    case Rev(arms) =>
      var k := Taken(cut, arms, c);
      if k == |arms| then NOTHING else (assert arms[k] < f; At(cut, arms[k].child, c))
    case Unapply(id, child) => Unapply(id, At(cut, child, c))
    case Downstack(_) => f
    case Wrapped(w, child) => Wrapped(w, At(cut, child, c))
    case Compose(children) => Compose(seq(|children|, i requires 0 <= i < |children| => At(cut, children[i], c)))
    case Chain(children) => Chain(seq(|children|, i requires 0 <= i < |children| => At(cut, children[i], c)))
    case Subtract(left, right) => Subtract(At(cut, left, c), At(cut, right, c))
  }

  /** Every revision that a filter switches on belongs to the history. */
  ghost predicate SwitchesIn(f: Filter, history: set<Object>)
    decreases f
  {
    match f
    case Plain(_) => true
    case Rev(arms) => forall i | 0 <= i < |arms| :: NamedIn(arms[i].matcher, history) && (assert arms[i] < f; SwitchesIn(arms[i].child, history))
    case Unapply(_, child) => SwitchesIn(child, history)
    case Downstack(_) => true
    case Wrapped(_, child) => SwitchesIn(child, history)
    case Compose(children) => forall i | 0 <= i < |children| :: SwitchesIn(children[i], history)
    case Chain(children) => forall i | 0 <= i < |children| :: SwitchesIn(children[i], history)
    case Subtract(left, right) => SwitchesIn(left, history) && SwitchesIn(right, history)
  }

  lemma TakenIsFirst(cut: set<Object>, arms: seq<Arm>, c: Object, k: nat)
    requires k <= |arms| && (k < |arms| ==> Selects(cut, arms[k].matcher, c))
    requires forall i | 0 <= i < k :: !Selects(cut, arms[i].matcher, c)
    ensures Taken(cut, arms, c) == k
  {
  }

  lemma {:induction false} SameArmTaken(cut: set<Object>, history: set<Object>, pairs: seq<Pair>, f: Filter, x: Object)
    requires RawHistory(cut, history) && Generation(cut, history, pairs) && x in history
    requires f.Rev? && SwitchesIn(f, history)
    ensures Taken({}, Substituted(ChangedIds(pairs), f).arms, Normal(cut, x)) == Taken(cut, f.arms, x)
  {
    hide Normal, Generation, RawHistory, Selects;
    var ids := ChangedIds(pairs);
    var k := Taken(cut, f.arms, x);
    forall i | 0 <= i < |f.arms|
      ensures Selects({}, Substituted(ids, f).arms[i].matcher, Normal(cut, x)) <==> Selects(cut, f.arms[i].matcher, x)
    {
      MatchKeepsMeaning(cut, history, pairs, f.arms[i].matcher, x);
    }
    TakenIsFirst({}, Substituted(ids, f).arms, Normal(cut, x), k);
  }

  /** At every commit, the rewritten filter is the rewriting of what the original filter is there. */
  lemma {:induction false} RewritingKeepsMeaning(cut: set<Object>, history: set<Object>, pairs: seq<Pair>, f: Filter, x: Object)
    requires RawHistory(cut, history) && Generation(cut, history, pairs) && x in history && SwitchesIn(f, history)
    ensures At({}, Substituted(ChangedIds(pairs), f), Normal(cut, x)) == Substituted(ChangedIds(pairs), At(cut, f, x))
    decreases f
  {
    hide Normal, Generation, RawHistory, Selects;
    var ids, n := ChangedIds(pairs), Normal(cut, x);
    match f
    case Rev(arms) =>
      SameArmTaken(cut, history, pairs, f, x);
      var k := Taken(cut, arms, x);
      if k < |arms| {
        assert arms[k] < f;
        RewritingKeepsMeaning(cut, history, pairs, arms[k].child, x);
      }
    case Unapply(_, child) => RewritingKeepsMeaning(cut, history, pairs, child, x);
    case Wrapped(_, child) => RewritingKeepsMeaning(cut, history, pairs, child, x);
    case Compose(children) =>
      forall i | 0 <= i < |children| ensures At({}, Substituted(ids, children[i]), n) == Substituted(ids, At(cut, children[i], x)) {
        RewritingKeepsMeaning(cut, history, pairs, children[i], x);
      }
      assert At({}, Substituted(ids, f), n).children == Substituted(ids, At(cut, f, x)).children;
    case Chain(children) =>
      forall i | 0 <= i < |children| ensures At({}, Substituted(ids, children[i]), n) == Substituted(ids, At(cut, children[i], x)) {
        RewritingKeepsMeaning(cut, history, pairs, children[i], x);
      }
      assert At({}, Substituted(ids, f), n).children == Substituted(ids, At(cut, f, x)).children;
    case Subtract(left, right) =>
      RewritingKeepsMeaning(cut, history, pairs, left, x);
      RewritingKeepsMeaning(cut, history, pairs, right, x);
    case _ =>
  }

  // ----- The ids that a filter names -----------------------------------------------------------------

  function MatchIds(m: RevMatch): set<Object> {
    if m.Default? then {} else {m.id}
  }

  function Indices<T>(s: seq<T>): (r: set<nat>)
    ensures forall i: nat :: i in r <==> i < |s|
  {
    if s == [] then {} else Indices(s[..|s| - 1]) + {|s| - 1}
  }

  /** Every revision that a filter names, in switches or elsewhere. */
  ghost function Named(f: Filter): set<Object>
    decreases f
  {
    match f
    case Plain(_) => {}
    case Rev(arms) => set i, x | i in Indices(arms) && x in ArmIds(f, i) :: x
    case Unapply(id, child) => {id} + Named(child)
    case Downstack(id) => {id}
    case Wrapped(_, child) => Named(child)
    case Compose(children) => set i, x | i in Indices(children) && x in ChildIds(f, children, i) :: x
    case Chain(children) => set i, x | i in Indices(children) && x in ChildIds(f, children, i) :: x
    case Subtract(left, right) => Named(left) + Named(right)
  }

  ghost function ArmIds(f: Filter, i: nat): set<Object>
    requires f.Rev? && i < |f.arms|
    decreases f, 0
  {
    assert f.arms[i] < f;
    MatchIds(f.arms[i].matcher) + Named(f.arms[i].child)
  }

  ghost function ChildIds(f: Filter, children: seq<Filter>, i: nat): set<Object>
    requires (f == Compose(children) || f == Chain(children)) && i < |children|
    decreases f, 0
  {
    Named(children[i])
  }

  ghost function MappedIds(ids: CommitMap, xs: set<Object>): set<Object> {
    set x | x in xs :: MapOrSelf(ids, x)
  }

  /** Substitution maps every named revision, wherever it stands, and names no other. */
  lemma {:induction false} SubstitutionMapsAll(ids: CommitMap, f: Filter)
    ensures Named(Substituted(ids, f)) == MappedIds(ids, Named(f))
    decreases f
  {
    var g := Substituted(ids, f);
    match f
    case Plain(_) =>
    case Downstack(_) =>
    case Unapply(_, child) => SubstitutionMapsAll(ids, child);
    case Wrapped(_, child) => SubstitutionMapsAll(ids, child);
    case Subtract(left, right) =>
      SubstitutionMapsAll(ids, left);
      SubstitutionMapsAll(ids, right);
    case Rev(arms) => SubstitutionMapsArms(ids, f);
    case Compose(children) => SubstitutionMapsChildren(ids, f, children);
    case Chain(children) => SubstitutionMapsChildren(ids, f, children);
  }

  lemma {:induction false} SubstitutionMapsArms(ids: CommitMap, f: Filter)
    requires f.Rev?
    ensures Named(Substituted(ids, f)) == MappedIds(ids, Named(f))
    decreases f, 0
  {
    var g := Substituted(ids, f);
    forall i | 0 <= i < |f.arms| ensures ArmIds(g, i) == MappedIds(ids, ArmIds(f, i)) {
      assert f.arms[i] < f;
      SubstitutionMapsAll(ids, f.arms[i].child);
    }
    forall y | y in MappedIds(ids, Named(f)) ensures y in Named(g) {
      var x :| x in Named(f) && y == MapOrSelf(ids, x);
      var i :| i in Indices(f.arms) && x in ArmIds(f, i);
      assert y in ArmIds(g, i);
    }
  }

  lemma {:induction false} SubstitutionMapsChildren(ids: CommitMap, f: Filter, children: seq<Filter>)
    requires f == Compose(children) || f == Chain(children)
    ensures Named(Substituted(ids, f)) == MappedIds(ids, Named(f))
    decreases f, 0
  {
    var g := Substituted(ids, f);
    forall i | 0 <= i < |children| ensures ChildIds(g, g.children, i) == MappedIds(ids, ChildIds(f, children, i)) {
      SubstitutionMapsAll(ids, children[i]);
    }
    forall y | y in MappedIds(ids, Named(f)) ensures y in Named(g) {
      var x :| x in Named(f) && y == MapOrSelf(ids, x);
      var i :| i in Indices(children) && x in ChildIds(f, children, i);
      assert y in ChildIds(g, g.children, i);
    }
  }

  /** So the revisions of the history that a rewritten filter names are their normal forms. */
  lemma {:induction false} NamedAreNormal(cut: set<Object>, history: set<Object>, pairs: seq<Pair>, f: Filter)
    requires RawHistory(cut, history) && Generation(cut, history, pairs) && Named(f) <= history
    ensures Named(Substituted(ChangedIds(pairs), f)) == set x | x in Named(f) :: Normal(cut, x)
  {
    hide Normal, Generation, RawHistory, Named, Substituted;
    SubstitutionMapsAll(ChangedIds(pairs), f);
    forall x | x in Named(f) ensures MapOrSelf(ChangedIds(pairs), x) == Normal(cut, x) {
      MapIdIsNormal(cut, history, pairs, x);
    }
  }
}
