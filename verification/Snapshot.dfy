/**
 A snapshot of a file, cached behind a lock and reloaded when the file's modification time moves on.
 Threads, writers and removals interleave step by step; every time a writer changes the file it gets
 a later modification time than it ever had.
 */
module Snapshot {
  import opened Wrappers

  datatype Disk = Missing | Present(content: string, modified: nat)

  /** The epoch, 0, tags values that did not come from the file. */
  datatype Snap = Snap(value: string, modified: nat)

  /** Why the write lock is wanted: the cache was old, was empty, or a refresh is forced. */
  datatype Intent = Reload | Load | Refresh

  datatype Result = Failed | Got(snap: Option<Snap>)

  /** Where a thread is: `Reading` holds the read lock, `Holding` and `Opening` the write lock. */
  datatype Thread =
    | Idle
    | Reading
    | Clearing
    | Waiting(intent: Intent)
    | Holding(intent: Intent)
    | Opening(modified: nat)
    | Done(result: Result)

  /** `versions` remembers what the file held at each modification time, `clock` the latest of them. */
  datatype State = State(disk: Disk, cache: Option<Snap>, threads: seq<Thread>, clock: nat, versions: map<nat, string>)

  predicate Reads(t: Thread) {
    t.Reading?
  }

  predicate Writes(t: Thread) {
    t.Holding? || t.Opening?
  }

  ghost predicate NoWriter(s: State) {
    forall i | 0 <= i < |s.threads| :: !Writes(s.threads[i])
  }

  ghost predicate Unlocked(s: State) {
    NoWriter(s) && forall i | 0 <= i < |s.threads| :: !Reads(s.threads[i])
  }

  // ----- Steps --------------------------------------------------------------------------------------

  /** The decision made under the read lock, from the cache and the file's modification time. */
  function Decision(cache: Option<Snap>, disk: Disk): Thread {
    match (cache, disk)
    case (None, Missing) => Done(Got(None))
    case (Some(_), Missing) => Clearing
    case (Some(snap), Present(_, modified)) => if snap.modified < modified then Waiting(Reload) else Done(Got(cache))
    case (None, Present(_, _)) => Waiting(Load)
  }

  /** Under the write lock, whether the situation still calls for opening the file. */
  predicate StillWanted(intent: Intent, cache: Option<Snap>) {
    match intent
    case Reload => cache.Some?
    case Load => cache.None?
    case Refresh => true
  }

  /** What opening the file yields, tagged with the time looked up before. */
  function Opened(disk: Disk, modified: nat): Option<Snap> {
    match disk
    case Missing => None
    case Present(content, _) => Some(Snap(content, modified))
  }

  /** How thread `t` goes on to `u` and the cache to `cache`. */
  ghost predicate Moves(s: State, t: Thread, u: Thread, cache: Option<Snap>) {
    match t
    case Idle => cache == s.cache && ((u == Reading && NoWriter(s)) || u == Waiting(Refresh))
    case Done(_) => cache == s.cache && ((u == Reading && NoWriter(s)) || u == Waiting(Refresh))
    case Reading => cache == s.cache && u == Decision(s.cache, s.disk)
    case Clearing => Unlocked(s) && cache == None && u == Done(Got(None))
    case Waiting(intent) => Unlocked(s) && cache == s.cache && u == Holding(intent)
    case Holding(intent) =>
      if StillWanted(intent, s.cache) && s.disk.Present? then cache == s.cache && u == Opening(s.disk.modified)
      else cache == (if intent == Refresh then None else s.cache) && u == Done(Got(cache))
    case Opening(modified) =>
      || (cache == s.cache && u == Done(Failed))
      || (cache == Opened(s.disk, modified) && u == Done(Got(cache)))
  }

  ghost predicate ThreadStep(s: State, s': State, i: nat) {
    && i < |s.threads| && |s'.threads| == |s.threads|
    && s' == s.(threads := s.threads[i := s'.threads[i]], cache := s'.cache)
    && Moves(s, s.threads[i], s'.threads[i], s'.cache)
  }

  /** A change of the file gets a modification time after all earlier ones and after the epoch. */
  ghost predicate WriteStep(s: State, s': State) {
    && s'.disk.Present? && s'.disk.modified > s.clock
    && s' == s.(disk := s'.disk, clock := s'.disk.modified, versions := s.versions[s'.disk.modified := s'.disk.content])
  }

  ghost predicate RemoveStep(s: State, s': State) {
    s' == s.(disk := Missing)
  }

  ghost predicate Next(s: State, s': State) {
    WriteStep(s, s') || RemoveStep(s, s') || exists i: nat :: ThreadStep(s, s', i)
  }

  /** Nothing was loaded yet, though a value that is in no file may be cached. */
  ghost predicate Init(s: State) {
    && s.disk.Missing? && s.clock == 0 && s.versions == map[]
    && (s.cache.Some? ==> s.cache.value.modified == 0)
    && forall i | 0 <= i < |s.threads| :: s.threads[i].Idle?
  }

  ghost predicate Run(run: seq<State>) {
    run != [] && Init(run[0]) && forall i | 0 <= i < |run| - 1 :: Next(run[i], run[i + 1])
  }

  // ----- The invariant ------------------------------------------------------------------------------

  /** The tag of a snapshot is never later than its value. */
  ghost predicate Honest(versions: map<nat, string>, snap: Snap) {
    snap.modified == 0 || exists t :: t in versions && snap.modified <= t && versions[t] == snap.value
  }

  ghost predicate DiskRight(s: State) {
    && (forall t <- s.versions :: 0 < t <= s.clock)
    && (s.disk.Present? ==> s.disk.modified == s.clock && s.clock in s.versions && s.versions[s.clock] == s.disk.content)
  }

  ghost predicate ThreadRight(s: State, t: Thread) {
    match t
    case Opening(modified) => 0 < modified <= s.clock
    case Done(Got(Some(snap))) => Honest(s.versions, snap)
    case _ => true
  }

  /** A thread with the write lock is alone. */
  ghost predicate Exclusive(s: State) {
    forall i, j | 0 <= i < |s.threads| && 0 <= j < |s.threads| && i != j && Writes(s.threads[i]) ::
      !Writes(s.threads[j]) && !Reads(s.threads[j])
  }

  ghost predicate Valid(s: State) {
    && DiskRight(s) && Exclusive(s)
    && (s.cache.Some? ==> Honest(s.versions, s.cache.value))
    && forall i | 0 <= i < |s.threads| :: ThreadRight(s, s.threads[i])
  }

  lemma {:induction false} MoveIsRight(s: State, t: Thread, u: Thread, cache: Option<Snap>)
    requires Valid(s) && ThreadRight(s, t) && Moves(s, t, u, cache)
    ensures ThreadRight(s, u) && (cache.Some? ==> Honest(s.versions, cache.value))
  {
    if t.Opening? && s.disk.Present? {
      assert Honest(s.versions, Snap(s.disk.content, t.modified)) by {
        assert s.clock in s.versions && t.modified <= s.clock && s.versions[s.clock] == s.disk.content;
      }
    }
  }

  /** Locks are taken only when they are free. */
  lemma {:induction false} MoveIsExclusive(s: State, s': State, i: nat)
    requires Exclusive(s) && ThreadStep(s, s', i)
    ensures Exclusive(s')
  {
    forall j, k | 0 <= j < |s'.threads| && 0 <= k < |s'.threads| && j != k && Writes(s'.threads[j])
      ensures !Writes(s'.threads[k]) && !Reads(s'.threads[k])
    {
      assert s'.threads[j] == (if j == i then s'.threads[i] else s.threads[j]);
      assert s'.threads[k] == (if k == i then s'.threads[i] else s.threads[k]);
    }
  }

  lemma {:induction false} ThreadStepKeepsValid(s: State, s': State, i: nat)
    requires Valid(s) && ThreadStep(s, s', i)
    ensures Valid(s')
  {
    MoveIsExclusive(s, s', i);
    MoveIsRight(s, s.threads[i], s'.threads[i], s'.cache);
    forall j | 0 <= j < |s'.threads| ensures ThreadRight(s', s'.threads[j]) {
      if j != i {
        assert s'.threads[j] == s.threads[j];
      }
    }
  }

  lemma {:induction false} VersionsKeepHonest(s: State, s': State, snap: Snap)
    requires DiskRight(s) && WriteStep(s, s') && Honest(s.versions, snap)
    ensures Honest(s'.versions, snap)
  {
    if snap.modified != 0 {
      var t :| t in s.versions && snap.modified <= t && s.versions[t] == snap.value;
      assert t in s'.versions && s'.versions[t] == snap.value;
    }
  }

  lemma {:induction false} WriteStepKeepsValid(s: State, s': State)
    requires Valid(s) && WriteStep(s, s')
    ensures Valid(s')
  {
    if s.cache.Some? {
      VersionsKeepHonest(s, s', s.cache.value);
    }
    forall i | 0 <= i < |s'.threads| ensures ThreadRight(s', s'.threads[i]) {
      assert ThreadRight(s, s.threads[i]);
      match s.threads[i] {
        case Done(Got(Some(snap))) => VersionsKeepHonest(s, s', snap);
        case _ =>
      }
    }
  }

  lemma {:induction false} NextKeepsValid(s: State, s': State)
    requires Valid(s) && Next(s, s')
    ensures Valid(s')
  {
    if WriteStep(s, s') {
      WriteStepKeepsValid(s, s');
    } else if i: nat :| ThreadStep(s, s', i) {
      ThreadStepKeepsValid(s, s', i);
    }
  }

  lemma {:induction false} RunsAreValid(run: seq<State>, k: nat)
    requires Run(run) && k < |run|
    ensures Valid(run[k])
  {
    if k > 0 {
      RunsAreValid(run, k - 1);
      assert Next(run[k - 1], run[k - 1 + 1]);
      NextKeepsValid(run[k - 1], run[k]);
    }
  }

  /** A value whose tag is the file's modification time is the file's content. */
  lemma {:induction false} TagDeterminesContent(s: State, snap: Snap)
    requires DiskRight(s) && Honest(s.versions, snap) && s.disk.Present? && s.disk.modified <= snap.modified
    ensures snap.value == s.disk.content && snap.modified == s.disk.modified
  {
    var t :| t in s.versions && snap.modified <= t && s.versions[t] == snap.value;
  }

  /**
   In every interleaving, a cached or returned snapshot whose tag equals the file's current
   modification time has the file's current content, and its tag is never ahead of the file.
   */
  lemma {:induction false} RunsAreCurrent(run: seq<State>, k: nat, snap: Snap)
    requires Run(run) && k < |run| && run[k].disk.Present?
    requires run[k].cache == Some(snap) || exists i :: 0 <= i < |run[k].threads| && run[k].threads[i] == Done(Got(Some(snap)))
    ensures snap.modified == run[k].disk.modified ==> snap.value == run[k].disk.content
    ensures snap.modified <= run[k].disk.modified
  {
    RunsAreValid(run, k);
    if i :| 0 <= i < |run[k].threads| && run[k].threads[i] == Done(Got(Some(snap))) {
      assert ThreadRight(run[k], run[k].threads[i]);
    }
    if run[k].disk.modified <= snap.modified {
      TagDeterminesContent(run[k], snap);
    }
  }

  // ----- A call on its own --------------------------------------------------------------------------

  /** The file is what the result says. */
  predicate Exact(disk: Disk, snap: Option<Snap>) {
    match disk
    case Missing => snap == None
    case Present(content, modified) => snap == Some(Snap(content, modified))
  }

  /** Nobody else is in the middle of a call. */
  ghost predicate Alone(s: State, i: nat) {
    i < |s.threads| && forall j | 0 <= j < |s.threads| && j != i :: s.threads[j].Idle? || s.threads[j].Done?
  }

  /** What a thread that runs alone on a quiet file knows on its way. */
  ghost predicate OnTrack(s: State, i: nat) {
    && Alone(s, i)
    && match s.threads[i]
       case Clearing => s.disk.Missing?
       case Waiting(intent) => intent == Refresh || (s.disk.Present? && StillWanted(intent, s.cache))
       case Holding(intent) => intent == Refresh || (s.disk.Present? && StillWanted(intent, s.cache))
       case Opening(modified) => s.disk.Present? && modified == s.disk.modified
       case Done(Got(snap)) => Exact(s.disk, snap) && snap == s.cache
       case _ => true
  }

  /** Whatever else happens, a call that only takes the read lock returns the file as it is then. */
  lemma {:induction false} ReadOnlyCallIsExact(s: State, s': State, i: nat)
    requires Valid(s) && ThreadStep(s, s', i) && s.threads[i].Reading? && s'.threads[i].Done?
    ensures s'.threads[i].result.Got? && Exact(s.disk, s'.threads[i].result.snap)
  {
    if s.cache.Some? && s.disk.Present? && s.disk.modified <= s.cache.value.modified {
      TagDeterminesContent(s, s.cache.value);
    }
  }

  /** How many steps a call still takes at most. */
  function Remaining(t: Thread): nat {
    match t
    case Idle => 5
    case Reading => 4
    case Waiting(_) => 3
    case Holding(_) => 2
    case Clearing => 1
    case Opening(_) => 1
    case Done(_) => 0
  }

  lemma {:induction false} SoloStepStaysOnTrack(s: State, s': State, i: nat)
    requires Valid(s) && OnTrack(s, i) && !s.threads[i].Done? && ThreadStep(s, s', i)
    ensures OnTrack(s', i) && Remaining(s'.threads[i]) < Remaining(s.threads[i]) && s'.disk == s.disk
  {
    assert Alone(s', i) by {
      forall j | 0 <= j < |s'.threads| && j != i ensures s'.threads[j].Idle? || s'.threads[j].Done? {
        assert s'.threads[j] == s.threads[j];
      }
    }
    if s.threads[i].Reading? && s.cache.Some? && s.disk.Present? && s.disk.modified <= s.cache.value.modified {
      TagDeterminesContent(s, s.cache.value);
    }
  }

  /** Nothing blocks a thread that runs alone. */
  lemma {:induction false} SoloStepExists(s: State, i: nat) returns (s': State)
    requires OnTrack(s, i) && !s.threads[i].Done?
    ensures ThreadStep(s, s', i)
  {
    var t := s.threads[i];
    var u, cache;
    match t {
      case Idle => u, cache := Reading, s.cache;
      case Reading => u, cache := Decision(s.cache, s.disk), s.cache;
      case Clearing => u, cache := Done(Got(None)), None;
      case Waiting(intent) => u, cache := Holding(intent), s.cache;
      case Holding(intent) =>
        if StillWanted(intent, s.cache) && s.disk.Present? {
          u, cache := Opening(s.disk.modified), s.cache;
        } else {
          cache := if intent == Refresh then None else s.cache;
          u := Done(Got(cache));
        }
      case Opening(modified) =>
        cache := Opened(s.disk, modified);
        u := Done(Got(cache));
    }
    s' := s.(threads := s.threads[i := u], cache := cache);
  }

  /** A run of one thread, from when it starts a call to before it starts the next. */
  ghost predicate SoloCall(run: seq<State>, i: nat) {
    && run != [] && Valid(run[0]) && Alone(run[0], i) && run[0].threads[i] in {Reading, Waiting(Refresh)}
    && forall k | 0 <= k < |run| - 1 :: ThreadStep(run[k], run[k + 1], i) && !run[k].threads[i].Done?
  }

  /**
   A call that runs alone on a quiet file returns within four steps, unless opening the file fails,
   and then with exactly the file's content, or nothing if there is no file. The same is cached.
   */
  lemma {:induction false} SoloCallIsExact(run: seq<State>, i: nat)
    requires SoloCall(run, i)
    ensures OnTrack(run[|run| - 1], i) && Valid(run[|run| - 1]) && run[|run| - 1].disk == run[0].disk
    ensures |run| - 1 + Remaining(run[|run| - 1].threads[i]) <= 4
    decreases |run|
  {
    if |run| > 1 {
      var before := run[..|run| - 1];
      var s, s' := run[|run| - 2], run[|run| - 1];
      assert ThreadStep(run[|run| - 2], run[|run| - 2 + 1], i);
      assert SoloCall(before, i);
      SoloCallIsExact(before, i);
      SoloStepStaysOnTrack(s, s', i);
      ThreadStepKeepsValid(s, s', i);
    }
  }
}
