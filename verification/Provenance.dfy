/**
 Installing preserved source evidence in a destination cache: objects first, then the shallow
 boundaries, and references only at the end.
 */
module Provenance {
  import opened Wrappers
  import opened Objects
  import ObjectCopy

  type Evidence = map<string, Object>

  /** One durable write of an installation, in the order in which they happen. */
  datatype Write = WroteObject(id: Object) | WroteShallow | WroteRef(name: string, target: Object)

  class Destination {
    const store: ObjectCopy.Store
    var refs: Evidence
    var shallow: Option<set<Object>>

    constructor (store: ObjectCopy.Store)
      ensures this.store == store && refs == map[] && shallow == None
    {
      this.store, this.refs, this.shallow := store, map[], None;
    }
  }

  datatype Cache = Cache(
    objects: set<Object>,
    refs: Evidence,
    shallow: Option<set<Object>>,
    boundaries: set<Object>,
    generations: seq<Object>)

  /** Boundary policy is replaced only where there is no history to conflict with. */
  predicate BoundariesAgree(cache: Cache, refs: Evidence, shallow: Option<set<Object>>) {
    shallow == cache.shallow || (shallow.None? && refs == map[])
  }

  predicate RefsAgree(cache: Cache, refs: Evidence) {
    forall name <- cache.refs :: name in refs ==> refs[name] == cache.refs[name]
  }

  /** The objects that the first writes of a trace have put in place. */
  ghost function ObjectsWritten(trace: seq<Write>): set<Object> {
    set w | w in trace && w.WroteObject? :: w.id
  }

  ghost predicate RefsFollowObjects(cut: set<Object>, base: set<Object>, trace: seq<Write>) {
    forall k | 0 <= k < |trace| && trace[k].WroteRef? ::
      Closure(cut, trace[k].target) <= base + ObjectsWritten(trace[..k])
  }

  function ObjectWrites(log: seq<Object>): (trace: seq<Write>)
    ensures |trace| == |log| && forall i | 0 <= i < |log| :: trace[i] == WroteObject(log[i])
  {
    seq(|log|, i requires 0 <= i < |log| => WroteObject(log[i]))
  }

  lemma {:induction false} ObjectWritesWrite(log: seq<Object>)
    ensures ObjectsWritten(ObjectWrites(log)) == set o | o in log
  {
    forall o | o in log ensures WroteObject(o) in ObjectWrites(log) {
      var i :| 0 <= i < |log| && log[i] == o;
      assert ObjectWrites(log)[i] == WroteObject(o);
    }
  }

  lemma JoinedWrites(a: seq<Object>, b: seq<Object>)
    ensures ObjectWrites(a + b) == ObjectWrites(a) + ObjectWrites(b)
  {
  }

  /** No reference is written along with the objects. */
  lemma ObjectsComeFirst(cut: set<Object>, base: set<Object>, log: seq<Object>)
    ensures RefsFollowObjects(cut, base, ObjectWrites(log))
    ensures log == [] ==> ObjectWrites(log) == [] && ObjectsWritten([]) == {}
  {
  }

  lemma {:induction false} TargetsArrive(cache: Cache, targets: seq<Object>, objects: set<Object>)
    requires ClosureOf(cache.boundaries, targets) <= objects && forall name <- cache.refs :: cache.refs[name] in targets
    ensures forall name <- cache.refs :: Closure(cache.boundaries, cache.refs[name]) <= objects
  {
    hide Closure;
    forall name | name in cache.refs ensures Closure(cache.boundaries, cache.refs[name]) <= objects {
      forall x | x in Closure(cache.boundaries, cache.refs[name]) ensures x in objects {
        assert x in ClosureOf(cache.boundaries, targets);
      }
    }
  }

  lemma {:induction false} AppendedWrites(a: seq<Write>, b: seq<Write>)
    ensures ObjectsWritten(a + b) == ObjectsWritten(a) + ObjectsWritten(b)
  {
    assert forall w :: w in a + b <==> w in a || w in b;
  }

  /** A reference whose whole closure is in place may be written next. */
  lemma {:induction false} RefMayFollow(cut: set<Object>, base: set<Object>, trace: seq<Write>, w: Write)
    requires RefsFollowObjects(cut, base, trace)
    requires w.WroteRef? ==> Closure(cut, w.target) <= base + ObjectsWritten(trace)
    ensures RefsFollowObjects(cut, base, trace + [w])
  {
    var more := trace + [w];
    forall k | 0 <= k < |more| && more[k].WroteRef?
      ensures Closure(cut, more[k].target) <= base + ObjectsWritten(more[..k])
    {
      assert more[..k] == if k < |trace| then trace[..k] else trace;
    }
  }

  /** Which of the last two writes the file system refuses, if any. */
  datatype Fault = NoFault | ShallowFails | RefsFail

  /** The objects that the evidence needs are all in place. */
  ghost predicate Arrived(cache: Cache, objects: set<Object>) {
    && ClosureOf({}, cache.generations) <= objects
    && forall name <- cache.refs :: Closure(cache.boundaries, cache.refs[name]) <= objects
  }

  /**
   Installs a cache: objects, then the shallow file, then all references in one transaction.
   `trace` lists the durable writes; a crash leaves any prefix of them.
   */
  method Populate(cache: Cache, destination: Destination, fault: Fault) returns (result: Result<()>, trace: seq<Write>)
    modifies destination, destination.store
    ensures RefsFollowObjects(cache.boundaries, old(destination.store.objects), trace)
    ensures destination.store.objects == old(destination.store.objects) + ObjectsWritten(trace)
    ensures result.Ok? ==> BoundariesAgree(cache, old(destination.refs), old(destination.shallow)) && RefsAgree(cache, old(destination.refs))
    // The boundary policy of a cache with history is never replaced by another.
    ensures destination.shallow != old(destination.shallow) ==> old(destination.shallow).None? && old(destination.refs) == map[]
    ensures result.Ok? ==> destination.refs == old(destination.refs) + cache.refs && destination.shallow == cache.shallow
    // Nothing that was there is overwritten, and all evidence arrives complete.
    ensures forall name <- old(destination.refs) :: name in destination.refs && destination.refs[name] == old(destination.refs)[name]
    ensures result.Ok? ==> Arrived(cache, destination.store.objects)
    // A failure leaves no reference. If it comes from the last two writes the objects are complete,
    // the shallow file may have been replaced, and populating again is not refused.
    ensures result.Err? ==> destination.refs == old(destination.refs)
    ensures result.Err? && result.error != Unwritten ==> destination.shallow == old(destination.shallow)
    ensures result == Err(Unwritten) ==>
              && !fault.NoFault? && Arrived(cache, destination.store.objects)
              && destination.shallow == (if fault.RefsFail? then cache.shallow else old(destination.shallow))
              && BoundariesAgree(cache, destination.refs, destination.shallow) && RefsAgree(cache, destination.refs)
    ensures result.Ok? ==> fault.NoFault? || (fault.ShallowFails? && old(destination.shallow) == cache.shallow)
  {
    hide Closure, ClosureOf, RefsFollowObjects, ObjectsWritten, ObjectCopy.Copyable, ObjectCopy.ChildrenFirst;
    trace := [];
    ghost var base := destination.store.objects;
    ObjectsComeFirst(cache.boundaries, base, []);
    if !BoundariesAgree(cache, destination.refs, destination.shallow) || !RefsAgree(cache, destination.refs) {
      return Err(RefConflict), trace;
    }
    var copiedGenerations, log1 := ObjectCopy.CopyObjects(cache.objects, destination.store, cache.generations, {}, false);
    trace := ObjectWrites(log1);
    ObjectWritesWrite(log1);
    ObjectsComeFirst(cache.boundaries, base, log1);
    if copiedGenerations.Err? {
      return Err(copiedGenerations.error), trace;
    }
    var targets := Targets(cache.refs);
    var copiedRefs, log2 := ObjectCopy.CopyObjects(cache.objects, destination.store, targets, cache.boundaries, false);
    ObjectWritesWrite(log2);
    AppendedWrites(trace, ObjectWrites(log2));
    JoinedWrites(log1, log2);
    ObjectsComeFirst(cache.boundaries, base, log1 + log2);
    trace := trace + ObjectWrites(log2);
    if copiedRefs.Err? {
      return Err(copiedRefs.error), trace;
    }
    TargetsArrive(cache, targets, destination.store.objects);
    if destination.shallow != cache.shallow {
      if fault.ShallowFails? {
        return Err(Unwritten), trace;
      }
      destination.shallow := cache.shallow;
      RefMayFollow(cache.boundaries, old(destination.store.objects), trace, WroteShallow);
      AppendedWrites(trace, [WroteShallow]);
      NoObjects(WroteShallow);
      trace := trace + [WroteShallow];
    }
    if fault.RefsFail? {
      return Err(Unwritten), trace;
    }
    trace := WriteRefs(cache, destination, trace, old(destination.store.objects));
    result := Ok(());
  }

  method Targets(refs: Evidence) returns (targets: seq<Object>)
    ensures forall name <- refs :: refs[name] in targets
  {
    targets := [];
    var rest := refs.Keys;
    while rest != {}
      invariant rest <= refs.Keys && forall name <- refs.Keys - rest :: refs[name] in targets
    {
      var name :| name in rest;
      targets, rest := targets + [refs[name]], rest - {name};
    }
  }

  method WriteRefs(cache: Cache, destination: Destination, before: seq<Write>, ghost base: set<Object>) returns (trace: seq<Write>)
    requires RefsFollowObjects(cache.boundaries, base, before)
    requires destination.store.objects == base + ObjectsWritten(before)
    requires forall name <- cache.refs :: Closure(cache.boundaries, cache.refs[name]) <= destination.store.objects
    modifies destination`refs
    ensures destination.refs == old(destination.refs) + cache.refs
    ensures RefsFollowObjects(cache.boundaries, base, trace) && ObjectsWritten(trace) == ObjectsWritten(before)
  {
    hide RefsFollowObjects, Closure, ObjectsWritten;
    trace := before;
    var rest := cache.refs.Keys;
    while rest != {}
      invariant rest <= cache.refs.Keys
      invariant destination.refs == old(destination.refs) + (map name | name in cache.refs && name !in rest :: cache.refs[name])
      invariant RefsFollowObjects(cache.boundaries, base, trace) && ObjectsWritten(trace) == ObjectsWritten(before)
    {
      var name :| name in rest;
      var w := WroteRef(name, cache.refs[name]);
      RefMayFollow(cache.boundaries, base, trace, w);
      AppendedWrites(trace, [w]);
      NoObjects(w);
      trace := trace + [w];
      destination.refs := destination.refs[name := cache.refs[name]];
      rest := rest - {name};
    }
    assert (map name | name in cache.refs && name !in rest :: cache.refs[name]) == cache.refs;
  }

  lemma NoObjects(w: Write)
    requires !w.WroteObject?
    ensures ObjectsWritten([w]) == {}
  {
  }
}
