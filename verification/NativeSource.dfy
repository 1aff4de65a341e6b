/**
 A captured native history: commits by id, with no promise that their parents exist or that the
 graph is acyclic. Validation accepts exactly the complete, acyclic, well-rooted captures.
 */
module NativeSource {
  import opened Wrappers
  import opened Walks

  type Id = nat

  /** The part of a commit that validation looks at. */
  datatype Commit = Commit(parents: seq<Id>, content: string)

  type Commits = map<Id, Commit>

  datatype Verdict =
    | Accepted
    | BadRoot
    | Cyclic(id: Id)
    | MissingCommit(id: Id)
    | NoParents(id: Id)
    | MixedRoot(id: Id)
    | Unrelated

  function ParentsOf(commits: Commits, id: Id): seq<Id> {
    if id in commits then commits[id].parents else []
  }

  predicate WellRooted(commits: Commits, root: Id, id: Id)
    requires id in commits
  {
    var parents := commits[id].parents;
    id == root || (parents != [] && (|parents| == 1 || root !in parents))
  }

  /** A capture: the synthetic root, and precisely the ancestry of the given ids, sound and acyclic. */
  ghost predicate Complete(commits: Commits, roots: seq<Id>, root: Id, rootCommit: Commit) {
    var next := (id: Id) => ParentsOf(commits, id);
    && root in commits && commits[root] == rootCommit
    && (forall id <- commits :: Reachable(next, roots, id) && WellRooted(commits, root, id) && !Leads(next, id, id))
    && (forall id: Id :: Reachable(next, roots, id) ==> id in commits)
  }

  ghost function Mentioned(commits: Commits, roots: seq<Id>): set<Id> {
    (set id | id in roots) + commits.Keys + set id, p | id in commits && p in commits[id].parents :: p
  }

  ghost function Universe(commits: Commits, roots: seq<Id>): set<Id> {
    set id | id in Mentioned(commits, roots) && Reachable((id: Id) => ParentsOf(commits, id), roots, id)
  }

  lemma {:induction false} UniverseIsClosed(commits: Commits, roots: seq<Id>)
    ensures forall r <- roots :: r in Universe(commits, roots)
    ensures forall id <- Universe(commits, roots), p <- ParentsOf(commits, id) :: p in Universe(commits, roots)
  {
    var next := (id: Id) => ParentsOf(commits, id);
    forall r | r in roots ensures r in Universe(commits, roots) {
      assert r in Mentioned(commits, roots) && Reachable(next, roots, r);
    }
    forall id, p | id in Universe(commits, roots) && p in ParentsOf(commits, id) ensures p in Universe(commits, roots) {
      ReachableNext(next, roots, id, p);
    }
  }

  ghost predicate Validating(commits: Commits, roots: seq<Id>, root: Id,
                             pending: seq<Work<Id>>, active: set<Id>, done: set<Id>, order: seq<Id>) {
    var next := (id: Id) => ParentsOf(commits, id);
    && Walking(next, Universe(commits, roots), roots, pending, active, done)
    && Ordered(next, order) && done == (set id | id in order)
    && forall id <- active + done :: id in commits && WellRooted(commits, root, id)
  }

  lemma {:induction false} ValidationTop(commits: Commits, roots: seq<Id>, root: Id,
                                         rest: seq<Work<Id>>, top: Work<Id>, active: set<Id>, done: set<Id>, order: seq<Id>)
    requires Validating(commits, roots, root, rest + [top], active, done, order)
    ensures top.node in Universe(commits, roots)
    ensures top.Enter? && top.node in active ==> Leads((id: Id) => ParentsOf(commits, id), top.node, top.node)
    ensures top.Exit? ==> top.node in active
  {
    Top((id: Id) => ParentsOf(commits, id), Universe(commits, roots), roots, rest, top, active, done);
  }

  lemma {:induction false} ValidationSkip(commits: Commits, roots: seq<Id>, root: Id,
                                          rest: seq<Work<Id>>, top: Work<Id>, active: set<Id>, done: set<Id>, order: seq<Id>)
    requires Validating(commits, roots, root, rest + [top], active, done, order) && top.Enter? && top.node in done
    ensures Validating(commits, roots, root, rest, active, done, order)
  {
    Skip((id: Id) => ParentsOf(commits, id), Universe(commits, roots), roots, rest, top, active, done);
    assert done + {top.node} == done;
  }

  lemma {:induction false} ValidationEnter(commits: Commits, roots: seq<Id>, root: Id,
                                           rest: seq<Work<Id>>, top: Work<Id>, active: set<Id>, done: set<Id>, order: seq<Id>)
    requires Validating(commits, roots, root, rest + [top], active, done, order) && top.Enter?
    requires top.node !in active && top.node !in done && top.node in commits && WellRooted(commits, root, top.node)
    ensures Validating(commits, roots, root, rest + [Exit(top.node)] + Enters(ParentsOf(commits, top.node)), active + {top.node}, done, order)
    ensures Unseen(Universe(commits, roots), active + {top.node}, done) < Unseen(Universe(commits, roots), active, done)
  {
    ValidationTop(commits, roots, root, rest, top, active, done, order);
    UniverseIsClosed(commits, roots);
    Push((id: Id) => ParentsOf(commits, id), Universe(commits, roots), roots, rest, top, active, done);
  }

  lemma {:induction false} ValidationLeave(commits: Commits, roots: seq<Id>, root: Id,
                                           rest: seq<Work<Id>>, top: Work<Id>, active: set<Id>, done: set<Id>, order: seq<Id>)
    requires Validating(commits, roots, root, rest + [top], active, done, order) && top.Exit?
    ensures Validating(commits, roots, root, rest, active - {top.node}, done + {top.node}, order + [top.node])
    ensures Unseen(Universe(commits, roots), active - {top.node}, done + {top.node}) == Unseen(Universe(commits, roots), active, done)
  {
    var next := (id: Id) => ParentsOf(commits, id);
    Top(next, Universe(commits, roots), roots, rest, top, active, done);
    Leave(next, Universe(commits, roots), roots, rest, top, active, done);
    OrderedOne(next, order, top.node);
    assert (set id | id in order + [top.node]) == done + {top.node};
  }

  lemma {:induction false} OrderedParents(commits: Commits, order: seq<Id>, id: Id, p: Id)
    requires Ordered((id: Id) => ParentsOf(commits, id), order) && id in order && p in ParentsOf(commits, id)
    ensures p in order
  {
    var next := (id: Id) => ParentsOf(commits, id);
    var i :| 0 <= i < |order| && order[i] == id;
    assert p in next(order[i]);
    assert p in order[..i];
  }

  /** A finished walk has left exactly what is reachable, and none of it lies on a cycle. */
  lemma {:induction false} ValidationEnds(commits: Commits, roots: seq<Id>, root: Id, active: set<Id>, done: set<Id>, order: seq<Id>)
    requires Validating(commits, roots, root, [], active, done, order)
    ensures
      var next := (id: Id) => ParentsOf(commits, id);
      && (forall id: Id :: Reachable(next, roots, id) <==> id in done)
      && (forall id <- done :: id in commits && WellRooted(commits, root, id) && !Leads(next, id, id))
  {
    var next := (id: Id) => ParentsOf(commits, id);
    Ends(next, Universe(commits, roots), roots, active, done);
    forall id, p | id in done && p in next(id) ensures p in done {
      OrderedParents(commits, order, id, p);
    }
    forall id: Id | Reachable(next, roots, id) ensures id in done {
      ReachableWithin(next, roots, done, id);
    }
    forall id | id in done ensures !Leads(next, id, id) {
      OrderedIsAcyclic(next, order, id);
    }
  }

  lemma {:induction false} SameSize<T>(part: set<T>, whole: set<T>)
    requires part <= whole && |part| == |whole|
    ensures part == whole
  {
    assert |whole - part| == |whole| - |part|;
  }

  /** Validates a capture of the ancestry of `referenced` ids; each refusal names its fault. */
  method ValidateGraph(referenced: seq<Id>, commits: Commits, root: Id, rootCommit: Commit) returns (verdict: Verdict)
    ensures verdict.Accepted? <==> Complete(commits, referenced + [root], root, rootCommit)
    ensures
      var next := (id: Id) => ParentsOf(commits, id);
      match verdict
      case Cyclic(id) => Reachable(next, referenced + [root], id) && Leads(next, id, id)
      case MissingCommit(id) => Reachable(next, referenced + [root], id) && id !in commits
      case NoParents(id) => id in commits && id != root && commits[id].parents == []
      case MixedRoot(id) => id in commits && id != root && |commits[id].parents| != 1 && root in commits[id].parents
      case Unrelated =>
        && root in commits && commits[root] == rootCommit
        && forall id: Id :: Reachable(next, referenced + [root], id) ==>
             id in commits && WellRooted(commits, root, id) && !Leads(next, id, id)
      case BadRoot => root !in commits || commits[root] != rootCommit
      case Accepted => true
  {
    hide Validating, Complete, Reachable, Leads;
    if root !in commits || commits[root] != rootCommit {
      NotComplete(commits, referenced + [root], root, rootCommit, root);
      return BadRoot;
    }
    var roots := referenced + [root];
    // The recorded ids are pushed in order, so the synthetic root is on top.
    var pending := seq(|roots|, i requires 0 <= i < |roots| => Enter(roots[i]));
    var active: set<Id> := {};
    var done: set<Id> := {};
    ghost var order: seq<Id> := [];
    ValidationStartsInOrder(commits, roots, root, pending);
    while pending != []
      invariant Validating(commits, roots, root, pending, active, done, order)
      decreases Unseen(Universe(commits, roots), active, done), |pending|
    {
      var n := |pending| - 1;
      var rest, top := pending[..n], pending[n];
      SplitLast(pending);
      ValidationTop(commits, roots, root, rest, top, active, done, order);
      var id := top.node;
      if top.Exit? {
        ValidationLeave(commits, roots, root, rest, top, active, done, order);
        pending, active, done, order := rest, active - {id}, done + {id}, order + [id];
        continue;
      }
      if id in done {
        ValidationSkip(commits, roots, root, rest, top, active, done, order);
        pending := rest;
        continue;
      }
      InUniverse(commits, roots, id);
      if id in active {
        NotComplete(commits, roots, root, rootCommit, id);
        return Cyclic(id);
      }
      if id !in commits {
        NotComplete(commits, roots, root, rootCommit, id);
        return MissingCommit(id);
      }
      if id != root {
        if commits[id].parents == [] {
          NotComplete(commits, roots, root, rootCommit, id);
          return NoParents(id);
        }
        if |commits[id].parents| != 1 && root in commits[id].parents {
          NotComplete(commits, roots, root, rootCommit, id);
          return MixedRoot(id);
        }
      }
      ValidationEnter(commits, roots, root, rest, top, active, done, order);
      pending, active := rest + [Exit(id)] + Enters(commits[id].parents), active + {id};
    }
    ValidationEnds(commits, roots, root, active, done, order);
    assert done <= commits.Keys;
    if |done| != |commits| {
      ExtraCommits(commits, roots, root, rootCommit, done);
      return Unrelated;
    }
    SameSize(done, commits.Keys);
    IsComplete(commits, roots, root, rootCommit, done);
    verdict := Accepted;
  }

  lemma {:induction false} ValidationStartsInOrder(commits: Commits, roots: seq<Id>, root: Id, pending: seq<Work<Id>>)
    requires |pending| == |roots| && forall i | 0 <= i < |roots| :: pending[i] == Enter(roots[i])
    ensures Validating(commits, roots, root, pending, {}, {}, [])
  {
    UniverseIsClosed(commits, roots);
    forall r | r in roots ensures Awaited(pending, 0, {}, r) {
      var i :| 0 <= i < |roots| && roots[i] == r;
      assert pending[i].node == r;
    }
  }

  lemma InUniverse(commits: Commits, roots: seq<Id>, id: Id)
    requires id in Universe(commits, roots)
    ensures Reachable((id: Id) => ParentsOf(commits, id), roots, id)
  {
  }

  lemma NotComplete(commits: Commits, roots: seq<Id>, root: Id, rootCommit: Commit, id: Id)
    requires
      var next := (id: Id) => ParentsOf(commits, id);
      || (root !in commits || commits[root] != rootCommit)
      || (Reachable(next, roots, id) && (id !in commits || Leads(next, id, id) || !WellRooted(commits, root, id)))
    ensures !Complete(commits, roots, root, rootCommit)
  {
  }

  lemma {:induction false} ExtraCommits(commits: Commits, roots: seq<Id>, root: Id, rootCommit: Commit, done: set<Id>)
    requires forall id: Id :: Reachable((id: Id) => ParentsOf(commits, id), roots, id) <==> id in done
    ensures Complete(commits, roots, root, rootCommit) ==> |done| == |commits|
  {
    if Complete(commits, roots, root, rootCommit) {
      assert done == commits.Keys;
    }
  }

  lemma IsComplete(commits: Commits, roots: seq<Id>, root: Id, rootCommit: Commit, done: set<Id>)
    requires root in commits && commits[root] == rootCommit && done == commits.Keys
    requires
      var next := (id: Id) => ParentsOf(commits, id);
      && (forall id: Id :: Reachable(next, roots, id) <==> id in done)
      && (forall id <- done :: WellRooted(commits, root, id) && !Leads(next, id, id))
    ensures Complete(commits, roots, root, rootCommit)
  {
  }
}
