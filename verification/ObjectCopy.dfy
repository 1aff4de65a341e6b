/**
 Copying object closures children first, so that an interrupted copy never leaves an object
 whose links are absent from the destination.
 */
module ObjectCopy {
  import opened Wrappers
  import opened Objects

  class Store {
    var objects: set<Object>

    constructor (objects: set<Object>)
      ensures this.objects == objects
    {
      this.objects := objects;
    }
  }

  /** What a copy of `tips` needs from its source. */
  ghost predicate Copyable(cut: set<Object>, source: set<Object>, tips: seq<Object>) {
    forall x <- ClosureOf(cut, tips) :: x in source && forall l <- Links(cut, x) :: Typed(l)
  }

  /** Nothing that these objects name is absent: tree entries but submodules, trees, uncut parents, targets. */
  ghost predicate Whole(cut: set<Object>, objects: set<Object>, present: set<Object>) {
    forall o <- objects, c, kind | Child(cut, o, c, kind) :: c in objects && c in present
  }

  /** Everything that these objects name is of the kind they say. */
  ghost predicate KindsRight(cut: set<Object>, objects: set<Object>) {
    forall o <- objects, c, kind | Child(cut, o, c, kind) :: c.Kind() == kind
  }

  lemma {:induction false} ClosureIsWhole(cut: set<Object>, tips: seq<Object>, present: set<Object>)
    requires ClosureOf(cut, tips) <= present
    ensures (forall t <- tips :: t in ClosureOf(cut, tips)) && Whole(cut, ClosureOf(cut, tips), present)
  {
    hide Links, ClosureOf, Child;
    ClosureOfIsClosed(cut, tips);
    forall o, c, kind | o in ClosureOf(cut, tips) && Child(cut, o, c, kind) ensures c in ClosureOf(cut, tips) {
      LinksAreChildren(cut, o, c, kind);
    }
  }

  lemma {:induction false} CopyableHasKinds(cut: set<Object>, source: set<Object>, tips: seq<Object>)
    requires Copyable(cut, source, tips)
    ensures KindsRight(cut, ClosureOf(cut, tips)) && ClosureOf(cut, tips) <= source
  {
    hide Links, ClosureOf, Child;
    forall o, c, kind | o in ClosureOf(cut, tips) && Child(cut, o, c, kind) ensures c.Kind() == kind {
      LinksAreChildren(cut, o, c, kind);
    }
  }

  /** A submodule entry brings nothing along. */
  lemma {:induction false} SubmodulesAreForeign(cut: set<Object>, name: string, foreign: Object)
    ensures Closure(cut, Tree([Entry(name, GitlinkMode, foreign)])) == {Tree([Entry(name, GitlinkMode, foreign)])}
  {
    var entries := [Entry(name, GitlinkMode, foreign)];
    assert entries[1..] == [];
    assert EntryLinks(entries) == EntryLinks([]);
  }

  /** Every write comes after the writes of its links, unless `base` already held them. */
  ghost predicate ChildrenFirst(cut: set<Object>, base: set<Object>, log: seq<Object>) {
    forall k | 0 <= k < |log| :: forall l <- Links(cut, log[k]) :: l.id in base || l.id in log[..k]
  }

  function Written(base: set<Object>, log: seq<Object>): set<Object> {
    base + set x | x in log
  }

  /** Whatever write a crash interrupts, the destination stays closed under links. */
  lemma {:induction false} EveryCrashPointIsClosed(cut: set<Object>, base: set<Object>, log: seq<Object>, k: nat)
    requires ChildrenFirst(cut, base, log) && Closed(cut, base) && k <= |log|
    ensures Closed(cut, Written(base, log[..k]))
  {
    forall o, l | o in Written(base, log[..k]) && l in Links(cut, o)
      ensures l.id in Written(base, log[..k])
    {
      if o !in base {
        var j :| 0 <= j < k && log[j] == o;
        assert log[..k][..j] == log[..j];
        assert l.id in base || l.id in log[..j];
      }
    }
  }

  // ----- The enter/exit walk, over any links that name smaller objects ------------------------

  type LinkFn = Object -> seq<Link>

  datatype Work = Visit(id: Object, expected: Option<Kind>) | Finish(id: Object)

  predicate KindAllowed(expected: Option<Kind>, o: Object) {
    expected.Some? ==> expected.value == o.Kind()
  }

  ghost predicate Typed(l: Link) {
    l.id.Kind() == l.kind
  }

  function Visits(links: seq<Link>): (work: seq<Work>)
    ensures |work| == |links|
    ensures forall i | 0 <= i < |links| :: work[|links| - 1 - i] == Visit(links[i].id, Some(links[i].kind))
    ensures forall w <- work :: w.Visit? && w.expected.Some? && Link(w.id, w.expected.value) in links
  {
    seq(|links|, i requires 0 <= i < |links| => Visit(links[|links| - 1 - i].id, Some(links[|links| - 1 - i].kind)))
  }

  /** The exit markers on the stack lead from a tip down to the item on top. */
  ghost predicate Descending(pending: seq<Work>) {
    forall j, k | 0 <= k < j < |pending| && pending[k].Finish? :: pending[j].id < pending[k].id
  }

  /** A stack item that will settle link `l`: a visit that checks its kind, or an open visit that did. */
  ghost predicate Answers(w: Work, l: Link) {
    w.id == l.id && if w.Visit? then w.expected == Some(l.kind) else Typed(l)
  }

  ghost predicate Settled(pending: seq<Work>, from: nat, done: set<Object>, l: Link) {
    (l.id in done && Typed(l)) || exists j | from <= j < |pending| :: Answers(pending[j], l)
  }

  /** Each open object waits only for links that are done or queued above it. */
  ghost predicate LinksQueued(links: LinkFn, pending: seq<Work>, done: set<Object>) {
    forall k, l | 0 <= k < |pending| && pending[k].Finish? && l in links(pending[k].id) :: Settled(pending, k + 1, done, l)
  }

  /** Each stack item is reachable, and its expected kind was stated by a reachable object. */
  ghost predicate Stated(links: LinkFn, w: Work, universe: set<Object>) {
    w.id in universe
    && (w.Visit? && w.expected.Some? ==> exists x <- universe :: Link(w.id, w.expected.value) in links(x))
  }

  ghost predicate TipsQueued(tips: seq<Object>, pending: seq<Work>, done: set<Object>) {
    forall t <- tips :: t in done || exists w <- pending :: w.id == t
  }

  ghost function Open(pending: seq<Work>): set<Object> {
    set w | w in pending && w.Finish? :: w.id
  }

  ghost predicate Walking(links: LinkFn, universe: set<Object>, tips: seq<Object>,
                          pending: seq<Work>, active: set<Object>, done: set<Object>) {
    && (forall w <- pending :: Stated(links, w, universe))
    && TipsQueued(tips, pending, done)
    && Descending(pending)
    && LinksQueued(links, pending, done)
    && active == Open(pending)
  }

  /** Popping an item that is settled keeps the walk in order. */
  lemma {:induction false} PopKeepsWalking(links: LinkFn, universe: set<Object>, tips: seq<Object>,
                                           rest: seq<Work>, top: Work, active: set<Object>, done: set<Object>)
    requires Walking(links, universe, tips, rest + [top], active, done)
    requires top.Visit? ==> KindAllowed(top.expected, top.id)
    ensures Walking(links, universe, tips, rest, if top.Visit? then active else active - {top.id}, done + {top.id})
  {
    var pending, done' := rest + [top], done + {top.id};
    forall k, l | 0 <= k < |rest| && rest[k].Finish? && l in links(rest[k].id)
      ensures Settled(rest, k + 1, done', l)
    {
      assert pending[k] == rest[k] && Settled(pending, k + 1, done, l);
      if !(l.id in done && Typed(l)) {
        var j :| k + 1 <= j < |pending| && Answers(pending[j], l);
        if j < |rest| {
          assert Answers(rest[j], l);
        }
      }
    }
    forall k | 0 <= k < |rest| && rest[k].Finish? ensures rest[k].id != top.id {
      assert pending[k] == rest[k] && pending[|rest|] == top;
    }
    assert forall w <- rest :: w in pending;
    assert forall w <- pending :: w in rest || w == top;
    forall j, k | 0 <= k < j < |rest| && rest[k].Finish? ensures rest[j].id < rest[k].id {
      assert pending[k] == rest[k] && pending[j] == rest[j];
    }
  }

  lemma {:induction false} PushKeepsDescending(rest: seq<Work>, top: Work, links: seq<Link>)
    requires Descending(rest + [top]) && forall l <- links :: l.id < top.id
    ensures Descending(rest + [Finish(top.id)] + Visits(links))
  {
    var pending, next := rest + [top], rest + [Finish(top.id)] + Visits(links);
    forall j, k | 0 <= k < j < |next| && next[k].Finish? ensures next[j].id < next[k].id {
      assert pending[|rest|] == top;
      if k < |rest| {
        assert pending[k] == rest[k] && top.id < rest[k].id;
        if j < |rest| {
          assert pending[j] == rest[j];
        }
      }
    }
  }

  lemma {:induction false} PushKeepsQueued(links: LinkFn, rest: seq<Work>, top: Work, done: set<Object>)
    requires top.Visit? && KindAllowed(top.expected, top.id) && LinksQueued(links, rest + [top], done)
    ensures LinksQueued(links, rest + [Finish(top.id)] + Visits(links(top.id)), done)
  {
    var children := links(top.id);
    var next, pending := rest + [Finish(top.id)] + Visits(children), rest + [top];
    forall k, l | 0 <= k < |next| && next[k].Finish? && l in links(next[k].id)
      ensures Settled(next, k + 1, done, l)
    {
      if k >= |rest| {
        assert k == |rest|;
        var i :| 0 <= i < |children| && children[i] == l;
        assert Answers(next[|rest| + 1 + (|children| - 1 - i)], l);
      } else {
        assert pending[k] == next[k] && Settled(pending, k + 1, done, l);
        if !(l.id in done && Typed(l)) {
          var j :| k + 1 <= j < |pending| && Answers(pending[j], l);
          assert Answers(next[j], l);
        }
      }
    }
  }

  /** Replacing a visit by an exit marker and its links keeps the walk in order. */
  lemma {:induction false} PushKeepsWalking(links: LinkFn, universe: set<Object>, tips: seq<Object>,
                                            rest: seq<Work>, top: Work, active: set<Object>, done: set<Object>)
    requires Walking(links, universe, tips, rest + [top], active, done)
    requires top.Visit? && KindAllowed(top.expected, top.id)
    requires forall l <- links(top.id) :: l.id < top.id && l.id in universe
    ensures Walking(links, universe, tips, rest + [Finish(top.id)] + Visits(links(top.id)), active + {top.id}, done)
  {
    var pending, next := rest + [top], rest + [Finish(top.id)] + Visits(links(top.id));
    PushKeepsDescending(rest, top, links(top.id));
    PushKeepsQueued(links, rest, top, done);
    assert top in pending;
    assert next[|rest|] == Finish(top.id);
    assert forall w <- rest :: w in pending && w in next;
    assert forall w <- pending :: w in rest || w == top;
    assert forall w <- next :: w in rest || w == Finish(top.id) || w in Visits(links(top.id));
    assert Open(next) == Open(pending) + {top.id};
  }

  /** What the item on top of the stack tells about an ongoing walk. */
  lemma {:induction false} TopOfWalk(links: LinkFn, universe: set<Object>, tips: seq<Object>,
                                     rest: seq<Work>, top: Work, active: set<Object>, done: set<Object>)
    requires Walking(links, universe, tips, rest + [top], active, done)
    ensures top.id in universe
    ensures top.Visit? ==> top.id !in active
    ensures top.Finish? ==> top.id in active && forall l <- links(top.id) :: l.id in done && Typed(l)
    ensures top.Visit? && !KindAllowed(top.expected, top.id) ==> exists x <- universe, l <- links(x) :: !Typed(l)
  {
    var pending := rest + [top];
    assert pending[|rest|] == top && top in pending;
    if top.Finish? {
      forall l | l in links(top.id) ensures l.id in done && Typed(l) {
        assert Settled(pending, |rest| + 1, done, l);
      }
    } else if !KindAllowed(top.expected, top.id) {
      var x :| x in universe && Link(top.id, top.expected.value) in links(x);
      assert !Typed(Link(top.id, top.expected.value));
    }
  }

  lemma {:induction false} WalkStarts(links: LinkFn, universe: set<Object>, tips: seq<Object>, pending: seq<Work>)
    requires |pending| == |tips| && forall i | 0 <= i < |tips| :: pending[i] == Visit(tips[|tips| - 1 - i], None)
    requires forall t <- tips :: t in universe
    ensures Walking(links, universe, tips, pending, {}, {})
  {
    forall t | t in tips ensures exists w <- pending :: w.id == t {
      var i :| 0 <= i < |tips| && tips[i] == t;
      assert pending[|tips| - 1 - i].id == t;
    }
  }

  lemma {:induction false} TipsClosureWithin(cut: set<Object>, tips: seq<Object>, objects: set<Object>)
    requires Closed(cut, objects) && forall t <- tips :: t in objects
    ensures ClosureOf(cut, tips) <= objects
  {
    forall t | t in tips ensures Closure(cut, t) <= objects {
      ClosedContainsClosure(cut, objects, t);
    }
  }

  /** Every finished object is in the source, typed, and finished after its links. */
  ghost predicate Finished(cut: set<Object>, source: set<Object>, done: set<Object>) {
    forall o <- done :: o in source && forall l <- Links(cut, o) :: Typed(l) && l.id in done
  }

  lemma FinishOne(cut: set<Object>, source: set<Object>, done: set<Object>, id: Object)
    requires Finished(cut, source, done) && id in source && forall l <- Links(cut, id) :: l.id in done && Typed(l)
    ensures Finished(cut, source, done + {id})
  {
  }

  lemma {:induction false} WriteOne(cut: set<Object>, base: set<Object>, log: seq<Object>, id: Object)
    requires ChildrenFirst(cut, base, log) && forall l <- Links(cut, id) :: l.id in base || l.id in log
    ensures ChildrenFirst(cut, base, log + [id])
    ensures Written(base, log + [id]) == Written(base, log) + {id}
  {
    var log' := log + [id];
    forall k, l | 0 <= k < |log'| && l in Links(cut, log'[k]) ensures l.id in base || l.id in log'[..k] {
      if k < |log| {
        assert log'[..k] == log[..k] && log'[k] == log[k];
      } else {
        assert log'[..k] == log;
      }
    }
  }

  lemma {:induction false} FinishedIsCopyable(cut: set<Object>, source: set<Object>, tips: seq<Object>, done: set<Object>)
    requires Finished(cut, source, done) && forall t <- tips :: t in done
    ensures Copyable(cut, source, tips)
  {
    TipsClosureWithin(cut, tips, done);
  }

  lemma {:induction false} CopiedIsComplete(cut: set<Object>, base: set<Object>, log: seq<Object>, tips: seq<Object>)
    requires ChildrenFirst(cut, base, log) && Closed(cut, base)
    requires forall t <- tips :: t in Written(base, log)
    ensures ClosureOf(cut, tips) <= Written(base, log)
  {
    EveryCrashPointIsClosed(cut, base, log, |log|);
    assert log[..|log|] == log;
    TipsClosureWithin(cut, tips, Written(base, log));
  }

  // ----- The walk of a copy ----------------------------------------------------------------

  /** Objects still to enter; strictly shrinks whenever the walk enters one. */
  ghost function Unseen(cut: set<Object>, tips: seq<Object>, active: set<Object>, done: set<Object>): set<Object> {
    ClosureOf(cut, tips) - done - active
  }

  ghost predicate CopyWalk(cut: set<Object>, tips: seq<Object>, pending: seq<Work>, active: set<Object>, done: set<Object>) {
    Walking((o: Object) => Links(cut, o), ClosureOf(cut, tips), tips, pending, active, done) && active !! done
  }

  lemma {:induction false} CopyStarts(cut: set<Object>, tips: seq<Object>, pending: seq<Work>)
    requires |pending| == |tips| && forall i | 0 <= i < |tips| :: pending[i] == Visit(tips[|tips| - 1 - i], None)
    ensures CopyWalk(cut, tips, pending, {}, {})
  {
    ClosureOfIsClosed(cut, tips);
    WalkStarts((o: Object) => Links(cut, o), ClosureOf(cut, tips), tips, pending);
  }

  lemma CopyEnds(cut: set<Object>, tips: seq<Object>, active: set<Object>, done: set<Object>)
    requires CopyWalk(cut, tips, [], active, done)
    ensures forall t <- tips :: t in done
  {
  }

  lemma {:induction false} CopyTop(cut: set<Object>, tips: seq<Object>, rest: seq<Work>, top: Work, active: set<Object>, done: set<Object>)
    requires CopyWalk(cut, tips, rest + [top], active, done)
    ensures top.id in ClosureOf(cut, tips)
    ensures top.Visit? ==> top.id !in active
    ensures top.Finish? ==> top.id in active && forall l <- Links(cut, top.id) :: l.id in done && Typed(l)
    ensures top.Visit? && !KindAllowed(top.expected, top.id) ==> exists x <- ClosureOf(cut, tips), l <- Links(cut, x) :: !Typed(l)
  {
    TopOfWalk((o: Object) => Links(cut, o), ClosureOf(cut, tips), tips, rest, top, active, done);
  }

  lemma {:induction false} CopySkip(cut: set<Object>, tips: seq<Object>, rest: seq<Work>, top: Work, active: set<Object>, done: set<Object>)
    requires CopyWalk(cut, tips, rest + [top], active, done) && top.Visit? && KindAllowed(top.expected, top.id)
    ensures CopyWalk(cut, tips, rest, active, done + {top.id})
    ensures Unseen(cut, tips, active, done + {top.id}) <= Unseen(cut, tips, active, done)
  {
    CopyTop(cut, tips, rest, top, active, done);
    PopKeepsWalking((o: Object) => Links(cut, o), ClosureOf(cut, tips), tips, rest, top, active, done);
  }

  lemma {:induction false} CopyEnter(cut: set<Object>, tips: seq<Object>, rest: seq<Work>, top: Work, active: set<Object>, done: set<Object>)
    requires CopyWalk(cut, tips, rest + [top], active, done) && top.Visit? && KindAllowed(top.expected, top.id)
    requires top.id !in done
    ensures CopyWalk(cut, tips, rest + [Finish(top.id)] + Visits(Links(cut, top.id)), active + {top.id}, done)
    ensures Unseen(cut, tips, active + {top.id}, done) < Unseen(cut, tips, active, done)
  {
    hide Walking, Links, ClosureOf, KindAllowed, Visits;
    CopyTop(cut, tips, rest, top, active, done);
    LinksAreSmaller(cut, top.id);
    ClosureOfIsClosed(cut, tips);
    PushKeepsWalking((o: Object) => Links(cut, o), ClosureOf(cut, tips), tips, rest, top, active, done);
    assert top.id in Unseen(cut, tips, active, done);
  }

  lemma {:induction false} CopyLeave(cut: set<Object>, tips: seq<Object>, rest: seq<Work>, top: Work, active: set<Object>, done: set<Object>)
    requires CopyWalk(cut, tips, rest + [top], active, done) && top.Finish?
    ensures CopyWalk(cut, tips, rest, active - {top.id}, done + {top.id})
    ensures Unseen(cut, tips, active - {top.id}, done + {top.id}) == Unseen(cut, tips, active, done)
  {
    CopyTop(cut, tips, rest, top, active, done);
    PopKeepsWalking((o: Object) => Links(cut, o), ClosureOf(cut, tips), tips, rest, top, active, done);
  }

  /** Why a visit is refused, in the order of the checks; `known` visits need no reading. */
  function Refusal(source: set<Object>, active: set<Object>, known: bool, id: Object, expected: Option<Kind>): Option<Error> {
    if !known && id in active then Some(Cycle(id))
    else if !known && id !in source then Some(Missing(id))
    else if !KindAllowed(expected, id) then Some(WrongKind(id))
    else None
  }

  lemma {:induction false} RefusalIsJustified(cut: set<Object>, source: set<Object>, tips: seq<Object>,
                                              rest: seq<Work>, top: Work, active: set<Object>, done: set<Object>, known: bool)
    requires CopyWalk(cut, tips, rest + [top], active, done)
    requires top.Visit? && Refusal(source, active, known, top.id, top.expected).Some?
    ensures !Refusal(source, active, known, top.id, top.expected).value.Cycle? && !Copyable(cut, source, tips)
  {
    CopyTop(cut, tips, rest, top, active, done);
  }

  /** The state of the destination after the writes in `log`. */
  ghost predicate Copied(cut: set<Object>, base: set<Object>, skips: bool, source: set<Object>, tips: seq<Object>,
                         log: seq<Object>, active: set<Object>, done: set<Object>) {
    && ChildrenFirst(cut, if skips then base else {}, log)
    && (forall o <- log :: o in source && o in ClosureOf(cut, tips))
    && active <= source
    && (forall o <- done :: o in log || (skips && o in base))
  }

  lemma {:induction false} CopyWrites(cut: set<Object>, base: set<Object>, skips: bool, source: set<Object>, tips: seq<Object>,
                                      log: seq<Object>, active: set<Object>, done: set<Object>, id: Object)
    requires Copied(cut, base, skips, source, tips, log, active, done)
    requires id in active && id in ClosureOf(cut, tips) && forall l <- Links(cut, id) :: l.id in done
    ensures Copied(cut, base, skips, source, tips, log + [id], active - {id}, done + {id})
    ensures Written(base, log + [id]) == Written(base, log) + {id}
  {
    WriteOne(cut, if skips then base else {}, log, id);
  }

  lemma {:induction false} CopyDone(cut: set<Object>, base: set<Object>, skips: bool, source: set<Object>, tips: seq<Object>,
                                    log: seq<Object>, active: set<Object>, done: set<Object>)
    requires CopyWalk(cut, tips, [], active, done) && Copied(cut, base, skips, source, tips, log, active, done)
    ensures (skips ==> Closed(cut, base)) ==> ClosureOf(cut, tips) <= Written(base, log)
  {
    CopyEnds(cut, tips, active, done);
    if skips ==> Closed(cut, base) {
      var skipped := if skips then base else {};
      forall t | t in tips ensures t in Written(skipped, log) {
        assert t in done;
      }
      CopiedIsComplete(cut, skipped, log, tips);
      assert Written(skipped, log) <= Written(base, log);
    }
  }

  /**
   Copies the closures of `tips`. `log` lists the destination writes in order.
   */
  method CopyObjects(source: set<Object>, destination: Store, tips: seq<Object>, cut: set<Object>, skipPresent: bool)
    returns (result: Result<()>, log: seq<Object>)
    modifies destination
    ensures destination.objects == Written(old(destination.objects), log)
    ensures ChildrenFirst(cut, if skipPresent then old(destination.objects) else {}, log)
    ensures forall o <- log :: o in source && o in ClosureOf(cut, tips)
    // The walk never reports a cycle; it fails only on absent or mistyped objects.
    ensures result.Err? ==> (result.error.Missing? || result.error.WrongKind?) && !Copyable(cut, source, tips)
    ensures result.Ok? && !skipPresent ==> Copyable(cut, source, tips)
    ensures result.Ok? && (skipPresent ==> Closed(cut, old(destination.objects)))
      ==> ClosureOf(cut, tips) <= destination.objects
    // So the tips have arrived, and with every object that arrived everything that it names.
    ensures result.Ok? && (skipPresent ==> Closed(cut, old(destination.objects)))
      ==> (forall t <- tips :: t in ClosureOf(cut, tips)) && Whole(cut, ClosureOf(cut, tips), destination.objects)
    ensures result.Ok? && !skipPresent ==> KindsRight(cut, ClosureOf(cut, tips))
  {
    hide CopyWalk, Links, ClosureOf, Whole, KindsRight, Copyable;
    var complete: set<Object> := {};
    var active: set<Object> := {};
    log := [];
    var pending: seq<Work> := seq(|tips|, i requires 0 <= i < |tips| => Visit(tips[|tips| - 1 - i], None));
    ghost var base := destination.objects;
    CopyStarts(cut, tips, pending);
    while pending != []
      invariant CopyWalk(cut, tips, pending, active, complete)
      invariant destination.objects == Written(base, log)
      invariant Copied(cut, base, skipPresent, source, tips, log, active, complete)
      invariant skipPresent || Finished(cut, source, complete)
      decreases Unseen(cut, tips, active, complete), |pending|
    {
      var n := |pending| - 1;
      var rest, top := pending[..n], pending[n];
      SplitLast(pending);
      match top {
        case Visit(id, expected) =>
          var known := id in complete || (skipPresent && id in destination.objects);
          var refusal := Refusal(source, active, known, id, expected);
          if refusal.Some? {
            RefusalIsJustified(cut, source, tips, rest, top, active, complete, known);
            return Err(refusal.value), log;
          } else if known {
            CopySkip(cut, tips, rest, top, active, complete);
            assert id in complete ==> complete + {id} == complete;
            pending, complete := rest, complete + {id};
          } else {
            CopyEnter(cut, tips, rest, top, active, complete);
            pending, active := rest + [Finish(id)] + Visits(Links(cut, id)), active + {id};
          }
        case Finish(id) =>
          CopyTop(cut, tips, rest, top, active, complete);
          if !skipPresent {
            FinishOne(cut, source, complete, id);
          }
          CopyWrites(cut, base, skipPresent, source, tips, log, active, complete, id);
          CopyLeave(cut, tips, rest, top, active, complete);
          destination.objects := destination.objects + {id};
          log := log + [id];
          pending, active, complete := rest, active - {id}, complete + {id};
      }
    }
    CopyDone(cut, base, skipPresent, source, tips, log, active, complete);
    if !skipPresent {
      CopyEnds(cut, tips, active, complete);
      FinishedIsCopyable(cut, source, tips, complete);
      CopyableHasKinds(cut, source, tips);
    }
    if skipPresent ==> Closed(cut, base) {
      ClosureIsWhole(cut, tips, destination.objects);
    }
    result := Ok(());
  }

  /** The same walk without a destination: checks that a closure can be copied. */
  method CheckObjects(source: set<Object>, tips: seq<Object>, cut: set<Object>) returns (result: Result<()>)
    ensures result.Ok? <==> Copyable(cut, source, tips)
    ensures result.Err? ==> !result.error.Cycle?
    ensures result.Ok? ==> (forall t <- tips :: t in source) && Whole(cut, ClosureOf(cut, tips), source) && KindsRight(cut, ClosureOf(cut, tips))
  {
    hide CopyWalk, Links, ClosureOf, Whole, KindsRight, Copyable;
    var complete: set<Object> := {};
    var active: set<Object> := {};
    var pending: seq<Work> := seq(|tips|, i requires 0 <= i < |tips| => Visit(tips[|tips| - 1 - i], None));
    CopyStarts(cut, tips, pending);
    while pending != []
      invariant CopyWalk(cut, tips, pending, active, complete)
      invariant active <= source && Finished(cut, source, complete)
      decreases Unseen(cut, tips, active, complete), |pending|
    {
      var n := |pending| - 1;
      var rest, top := pending[..n], pending[n];
      SplitLast(pending);
      match top {
        case Visit(id, expected) =>
          var refusal := Refusal(source, active, id in complete, id, expected);
          if refusal.Some? {
            RefusalIsJustified(cut, source, tips, rest, top, active, complete, id in complete);
            return Err(refusal.value);
          } else if id in complete {
            CopySkip(cut, tips, rest, top, active, complete);
            assert complete + {id} == complete;
            pending := rest;
          } else {
            CopyEnter(cut, tips, rest, top, active, complete);
            pending, active := rest + [Finish(id)] + Visits(Links(cut, id)), active + {id};
          }
        case Finish(id) =>
          CopyTop(cut, tips, rest, top, active, complete);
          FinishOne(cut, source, complete, id);
          CopyLeave(cut, tips, rest, top, active, complete);
          pending, active, complete := rest, active - {id}, complete + {id};
      }
    }
    CopyEnds(cut, tips, active, complete);
    FinishedIsCopyable(cut, source, tips, complete);
    CopyableHasKinds(cut, source, tips);
    ClosureIsWhole(cut, tips, source);
    result := Ok(());
  }
}
