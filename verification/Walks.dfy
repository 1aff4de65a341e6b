/**
 The iterative enter/exit depth-first walk shared by the history converters, over an arbitrary
 finite graph. Exit markers on the stack always lead down to the item on top, which is why an
 open node can be met again exactly when it lies on a cycle.
 */
module Walks {

  datatype Work<T> = Enter(node: T) | Exit(node: T)

  // ----- Paths -------------------------------------------------------------------------------

  ghost predicate IsPath<T(!new)>(next: T -> seq<T>, p: seq<T>) {
    forall i | 0 < i < |p| :: p[i] in next(p[i - 1])
  }

  /** There is a path of at least one edge from `a` to `b`. */
  ghost predicate Leads<T(!new)>(next: T -> seq<T>, a: T, b: T) {
    exists p: seq<T> :: |p| >= 2 && p[0] == a && p[|p| - 1] == b && IsPath(next, p)
  }

  lemma {:induction false} EdgeLeads<T(!new)>(next: T -> seq<T>, a: T, b: T)
    requires b in next(a)
    ensures Leads(next, a, b)
  {
    var p := [a, b];
    assert p[0] == a && p[1] == b && IsPath(next, p);
  }

  lemma {:induction false} LeadsOn<T(!new)>(next: T -> seq<T>, a: T, b: T, c: T)
    requires Leads(next, a, b) && c in next(b)
    ensures Leads(next, a, c)
  {
    var p: seq<T> :| |p| >= 2 && p[0] == a && p[|p| - 1] == b && IsPath(next, p);
    var q := p + [c];
    forall i | 0 < i < |q| ensures q[i] in next(q[i - 1]) {
      if i < |p| {
        assert q[i] == p[i] && q[i - 1] == p[i - 1];
      }
    }
    assert q[0] == a && q[|q| - 1] == c && IsPath(next, q);
  }

  // ----- The state of a walk -----------------------------------------------------------------

  function Enters<T>(nodes: seq<T>): (work: seq<Work<T>>)
    ensures |work| == |nodes|
    ensures forall i | 0 <= i < |nodes| :: work[|nodes| - 1 - i] == Enter(nodes[i])
    ensures forall w <- work :: w.Enter? && w.node in nodes
  {
    seq(|nodes|, i requires 0 <= i < |nodes| => Enter(nodes[|nodes| - 1 - i]))
  }

  /** Exit markers lead to every item above them, and no node is open twice. */
  ghost predicate Chained<T(!new)>(next: T -> seq<T>, pending: seq<Work<T>>) {
    forall j, k | 0 <= k < j < |pending| && pending[k].Exit? ::
      Leads(next, pending[k].node, pending[j].node) && (pending[j].Exit? ==> pending[j].node != pending[k].node)
  }

  ghost predicate Awaited<T>(pending: seq<Work<T>>, from: nat, done: set<T>, node: T) {
    node in done || exists j | from <= j < |pending| :: pending[j].node == node
  }

  /** Each open node waits only for nodes that are done or queued above it. */
  ghost predicate Queued<T>(next: T -> seq<T>, pending: seq<Work<T>>, done: set<T>) {
    forall k, c | 0 <= k < |pending| && pending[k].Exit? && c in next(pending[k].node) ::
      Awaited(pending, k + 1, done, c)
  }

  ghost function Open<T>(pending: seq<Work<T>>): set<T> {
    set w | w in pending && w.Exit? :: w.node
  }

  ghost predicate Walking<T(!new)>(next: T -> seq<T>, universe: set<T>, roots: seq<T>,
                                   pending: seq<Work<T>>, active: set<T>, done: set<T>) {
    && (forall w <- pending :: w.node in universe)
    && (forall r <- roots :: Awaited(pending, 0, done, r))
    && Chained(next, pending)
    && Queued(next, pending, done)
    && active == Open(pending)
    && active !! done
    && done <= universe
  }

  /** Nodes still to enter: shrinks with every node entered, and never grows. */
  ghost function Unseen<T>(universe: set<T>, active: set<T>, done: set<T>): set<T> {
    universe - done - active
  }

  lemma {:induction false} Starts<T(!new)>(next: T -> seq<T>, universe: set<T>, roots: seq<T>, done: set<T>)
    requires (forall r <- roots :: r in universe) && done <= universe
    ensures Walking(next, universe, roots, Enters(roots), {}, done)
  {
    forall r | r in roots ensures Awaited(Enters(roots), 0, done, r) {
      var i :| 0 <= i < |roots| && roots[i] == r;
      assert Enters(roots)[|roots| - 1 - i].node == r;
    }
  }

  lemma {:induction false} Ends<T(!new)>(next: T -> seq<T>, universe: set<T>, roots: seq<T>, active: set<T>, done: set<T>)
    requires Walking(next, universe, roots, [], active, done)
    ensures active == {} && forall r <- roots :: r in done
  {
    forall r | r in roots ensures r in done {
      assert Awaited<T>([], 0, done, r);
    }
  }

  /** What the item on top says. Meeting an open node closes a cycle. */
  lemma {:induction false} Top<T(!new)>(next: T -> seq<T>, universe: set<T>, roots: seq<T>,
                                 rest: seq<Work<T>>, top: Work<T>, active: set<T>, done: set<T>)
    requires Walking(next, universe, roots, rest + [top], active, done)
    ensures top.node in universe
    ensures top.Enter? && top.node in active ==> Leads(next, top.node, top.node)
    ensures top.Exit? ==> top.node in active && top.node !in done && forall c <- next(top.node) :: c in done
  {
    var pending := rest + [top];
    assert pending[|rest|] == top && top in pending;
    if top.Exit? {
      forall c | c in next(top.node) ensures c in done {
        assert Awaited(pending, |rest| + 1, done, c);
      }
    } else if top.node in active {
      var k :| 0 <= k < |pending| && pending[k].Exit? && pending[k].node == top.node;
      assert Leads(next, pending[k].node, pending[|rest|].node);
    }
  }

  lemma {:induction false} PopQueued<T(!new)>(next: T -> seq<T>, rest: seq<Work<T>>, top: Work<T>, done: set<T>)
    requires Queued(next, rest + [top], done)
    ensures Queued(next, rest, done + {top.node})
  {
    var pending := rest + [top];
    forall k, c | 0 <= k < |rest| && rest[k].Exit? && c in next(rest[k].node)
      ensures Awaited(rest, k + 1, done + {top.node}, c)
    {
      assert pending[k] == rest[k] && Awaited(pending, k + 1, done, c);
      if c !in done + {top.node} {
        var j :| k + 1 <= j < |pending| && pending[j].node == c;
        assert rest[j].node == c;
      }
    }
  }

  lemma {:induction false} PopRoots<T(!new)>(roots: seq<T>, rest: seq<Work<T>>, top: Work<T>, done: set<T>)
    requires forall r <- roots :: Awaited(rest + [top], 0, done, r)
    ensures forall r <- roots :: Awaited(rest, 0, done + {top.node}, r)
  {
    var pending := rest + [top];
    forall r | r in roots ensures Awaited(rest, 0, done + {top.node}, r) {
      if r !in done + {top.node} {
        var j :| 0 <= j < |pending| && pending[j].node == r;
        assert rest[j].node == r;
      }
    }
  }

  lemma {:induction false} Pop<T(!new)>(next: T -> seq<T>, universe: set<T>, roots: seq<T>,
                                 rest: seq<Work<T>>, top: Work<T>, active: set<T>, done: set<T>)
    requires Walking(next, universe, roots, rest + [top], active, done)
    requires top.Enter? ==> top.node !in active
    ensures Walking(next, universe, roots, rest, active - {top.node}, done + {top.node})
  {
    var pending := rest + [top];
    PopQueued(next, rest, top, done);
    PopRoots(roots, rest, top, done);
    assert pending[|rest|] == top && top in pending;
    assert forall k | 0 <= k < |rest| :: pending[k] == rest[k];
    assert forall w <- rest :: w in pending;
    assert forall w <- pending :: w in rest || w == top;
    forall w | w in rest && w.Exit? ensures w.node != top.node {
      var k :| 0 <= k < |rest| && rest[k] == w;
      if top.Exit? {
        assert pending[|rest|].node != pending[k].node;
      } else {
        assert w.node in active;
      }
    }
    forall j, k | 0 <= k < j < |rest| && rest[k].Exit?
      ensures Leads(next, rest[k].node, rest[j].node) && (rest[j].Exit? ==> rest[j].node != rest[k].node)
    {
      assert pending[k] == rest[k] && pending[j] == rest[j];
    }
    assert Open(rest) == active - {top.node};
  }

  /** A node whose result is known is dropped from the stack. */
  lemma {:induction false} Skip<T(!new)>(next: T -> seq<T>, universe: set<T>, roots: seq<T>,
                                  rest: seq<Work<T>>, top: Work<T>, active: set<T>, done: set<T>)
    requires Walking(next, universe, roots, rest + [top], active, done) && top.Enter? && top.node !in active
    ensures Walking(next, universe, roots, rest, active, done + {top.node})
    ensures Unseen(universe, active, done + {top.node}) <= Unseen(universe, active, done)
  {
    Pop(next, universe, roots, rest, top, active, done);
    assert active - {top.node} == active;
  }

  /** A node whose successors are all done is closed. */
  lemma {:induction false} Leave<T(!new)>(next: T -> seq<T>, universe: set<T>, roots: seq<T>,
                                   rest: seq<Work<T>>, top: Work<T>, active: set<T>, done: set<T>)
    requires Walking(next, universe, roots, rest + [top], active, done) && top.Exit?
    ensures Walking(next, universe, roots, rest, active - {top.node}, done + {top.node})
    ensures Unseen(universe, active - {top.node}, done + {top.node}) == Unseen(universe, active, done)
  {
    Top(next, universe, roots, rest, top, active, done);
    Pop(next, universe, roots, rest, top, active, done);
  }

  /** The items that opening a node may queue: successors only, and all that are not done. */
  ghost predicate Opens<T(!new)>(next: T -> seq<T>, node: T, items: seq<Work<T>>, done: set<T>) {
    && (forall w <- items :: w.Enter? && w.node in next(node))
    && (forall c <- next(node) :: c in done || Enter(c) in items)
  }

  lemma {:induction false} PushChained<T(!new)>(next: T -> seq<T>, rest: seq<Work<T>>, top: Work<T>, items: seq<Work<T>>)
    requires Chained(next, rest + [top])
    requires forall w <- rest :: w.Exit? ==> w.node != top.node
    requires forall w <- items :: w.Enter? && w.node in next(top.node)
    ensures Chained(next, rest + [Exit(top.node)] + items)
  {
    var pending, after := rest + [top], rest + [Exit(top.node)] + items;
    forall j, k | 0 <= k < j < |after| && after[k].Exit?
      ensures Leads(next, after[k].node, after[j].node) && (after[j].Exit? ==> after[j].node != after[k].node)
    {
      assert pending[|rest|] == top;
      if j > |rest| {
        assert after[j] in items;
      }
      if k < |rest| {
        assert pending[k] == rest[k] && after[k] in rest;
        assert Leads(next, pending[k].node, pending[|rest|].node);
        if j < |rest| {
          assert pending[j] == rest[j];
        } else if j > |rest| {
          LeadsOn(next, rest[k].node, top.node, after[j].node);
        }
      } else {
        assert k == |rest|;
        EdgeLeads(next, top.node, after[j].node);
      }
    }
  }

  lemma {:induction false} PushQueued<T(!new)>(next: T -> seq<T>, rest: seq<Work<T>>, top: Work<T>, items: seq<Work<T>>, done: set<T>)
    requires Queued(next, rest + [top], done) && top.Enter? && Opens(next, top.node, items, done)
    ensures Queued(next, rest + [Exit(top.node)] + items, done)
  {
    var pending, after := rest + [top], rest + [Exit(top.node)] + items;
    forall k, c | 0 <= k < |after| && after[k].Exit? && c in next(after[k].node)
      ensures Awaited(after, k + 1, done, c)
    {
      if c !in done {
        if k >= |rest| {
          assert k == |rest|;
          var i :| 0 <= i < |items| && items[i] == Enter(c);
          assert after[|rest| + 1 + i].node == c;
        } else {
          assert pending[k] == after[k] && Awaited(pending, k + 1, done, c);
          var j :| k + 1 <= j < |pending| && pending[j].node == c;
          assert after[j].node == c;
        }
      }
    }
  }

  lemma {:induction false} PushRoots<T(!new)>(roots: seq<T>, rest: seq<Work<T>>, top: Work<T>, items: seq<Work<T>>, done: set<T>)
    requires forall r <- roots :: Awaited(rest + [top], 0, done, r)
    ensures forall r <- roots :: Awaited(rest + [Exit(top.node)] + items, 0, done, r)
  {
    var pending, after := rest + [top], rest + [Exit(top.node)] + items;
    forall r | r in roots ensures Awaited(after, 0, done, r) {
      if r !in done {
        var j :| 0 <= j < |pending| && pending[j].node == r;
        assert after[j].node == r;
      }
    }
  }

  /** A new node is opened above the rest, below its queued successors. */
  lemma {:induction false} PushItems<T(!new)>(next: T -> seq<T>, universe: set<T>, roots: seq<T>,
                                       rest: seq<Work<T>>, top: Work<T>, items: seq<Work<T>>, active: set<T>, done: set<T>)
    requires Walking(next, universe, roots, rest + [top], active, done) && top.Enter?
    requires top.node !in active && top.node !in done && Opens(next, top.node, items, done)
    requires forall c <- next(top.node) :: c in universe
    ensures Walking(next, universe, roots, rest + [Exit(top.node)] + items, active + {top.node}, done)
    ensures Unseen(universe, active + {top.node}, done) < Unseen(universe, active, done)
  {
    var pending, after := rest + [top], rest + [Exit(top.node)] + items;
    assert pending[|rest|] == top && top in pending;
    assert after[|rest|] == Exit(top.node);
    assert forall w <- rest :: w in pending && w in after;
    assert forall w <- pending :: w in rest || w == top;
    assert forall w <- after :: w in rest || w == Exit(top.node) || w in items;
    PushQueued(next, rest, top, items, done);
    PushChained(next, rest, top, items);
    PushRoots(roots, rest, top, items, done);
    assert Open(after) == active + {top.node};
    assert top.node in Unseen(universe, active, done);
  }

  /** The usual case: all successors are queued, the first one on top. */
  lemma {:induction false} Push<T(!new)>(next: T -> seq<T>, universe: set<T>, roots: seq<T>,
                                  rest: seq<Work<T>>, top: Work<T>, active: set<T>, done: set<T>)
    requires Walking(next, universe, roots, rest + [top], active, done) && top.Enter?
    requires top.node !in active && top.node !in done && forall c <- next(top.node) :: c in universe
    ensures Walking(next, universe, roots, rest + [Exit(top.node)] + Enters(next(top.node)), active + {top.node}, done)
    ensures Unseen(universe, active + {top.node}, done) < Unseen(universe, active, done)
  {
    var children := next(top.node);
    forall c | c in children ensures Enter(c) in Enters(children) {
      var i :| 0 <= i < |children| && children[i] == c;
      assert Enters(children)[|children| - 1 - i] == Enter(c);
    }
    PushItems(next, universe, roots, rest, top, Enters(children), active, done);
  }

  // ----- Orders and cycles -------------------------------------------------------------------

  /** Every node after its successors: the order in which a walk leaves nodes. */
  ghost predicate Ordered<T(!new)>(next: T -> seq<T>, order: seq<T>) {
    forall i, c | 0 <= i < |order| && c in next(order[i]) :: c in order[..i]
  }

  lemma {:induction false} OrderedOne<T(!new)>(next: T -> seq<T>, order: seq<T>, x: T)
    requires Ordered(next, order) && forall c <- next(x) :: c in order
    ensures Ordered(next, order + [x])
  {
    var more := order + [x];
    forall i, c | 0 <= i < |more| && c in next(more[i]) ensures c in more[..i] {
      assert more[..i] == if i < |order| then order[..i] else order;
    }
  }

  lemma {:induction false} PathGoesEarlier<T(!new)>(next: T -> seq<T>, order: seq<T>, p: seq<T>, i: nat)
    requires Ordered(next, order) && IsPath(next, p) && |p| >= 2 && i < |order| && p[0] == order[i]
    ensures p[|p| - 1] in order[..i]
    decreases |p|
  {
    assert p[1] in next(p[0]);
    if |p| > 2 {
      var j :| 0 <= j < i && order[j] == p[1];
      assert IsPath(next, p[1..]) by {
        forall k | 0 < k < |p[1..]| ensures p[1..][k] in next(p[1..][k - 1]) {
          assert p[k + 1] in next(p[k]);
        }
      }
      PathGoesEarlier(next, order, p[1..], j);
      assert order[..j] <= order[..i];
    }
  }

  lemma {:induction false} FirstIndex<T(!new)>(order: seq<T>, x: T) returns (i: nat)
    requires x in order
    ensures i < |order| && order[i] == x && x !in order[..i]
  {
    if order[0] == x {
      i := 0;
    } else {
      var j := FirstIndex(order[1..], x);
      i := j + 1;
      assert order[..i] == [order[0]] + order[1..][..j];
    }
  }

  /** What a walk has left lies on no cycle. */
  lemma {:induction false} OrderedIsAcyclic<T(!new)>(next: T -> seq<T>, order: seq<T>, x: T)
    requires Ordered(next, order) && x in order
    ensures !Leads(next, x, x)
  {
    if Leads(next, x, x) {
      var p: seq<T> :| |p| >= 2 && p[0] == x && p[|p| - 1] == x && IsPath(next, p);
      var i := FirstIndex(order, x);
      PathGoesEarlier(next, order, p, i);
    }
  }

  /** From a root in any number of steps. */
  ghost predicate Reachable<T(!new)>(next: T -> seq<T>, roots: seq<T>, x: T) {
    x in roots || exists r <- roots :: Leads(next, r, x)
  }

  lemma {:induction false} ReachableNext<T(!new)>(next: T -> seq<T>, roots: seq<T>, x: T, c: T)
    requires Reachable(next, roots, x) && c in next(x)
    ensures Reachable(next, roots, c)
  {
    if x in roots {
      EdgeLeads(next, x, c);
    } else {
      var r :| r in roots && Leads(next, r, x);
      LeadsOn(next, r, x, c);
    }
  }

  lemma {:induction false} PathStaysWithin<T(!new)>(next: T -> seq<T>, nodes: set<T>, p: seq<T>)
    requires IsPath(next, p) && p != [] && p[0] in nodes && forall x <- nodes, c <- next(x) :: c in nodes
    ensures p[|p| - 1] in nodes
    decreases |p|
  {
    var n := |p| - 1;
    if n > 0 {
      PathStaysWithin(next, nodes, p[..n]);
      assert p[n] in next(p[n - 1]);
    }
  }

  lemma {:induction false} ReachableWithin<T(!new)>(next: T -> seq<T>, roots: seq<T>, nodes: set<T>, x: T)
    requires Reachable(next, roots, x) && (forall r <- roots :: r in nodes) && forall x <- nodes, c <- next(x) :: c in nodes
    ensures x in nodes
  {
    if x !in roots {
      var r :| r in roots && Leads(next, r, x);
      var p: seq<T> :| |p| >= 2 && p[0] == r && p[|p| - 1] == x && IsPath(next, p);
      PathStaysWithin(next, nodes, p);
    }
  }
}
