/**
 Project trees inside a repository tree: mounting a tree at a directory, reading it back, removing
 it, and laying it beside the files of the other projects.
 */
module Mounts {
  import opened Wrappers

  /** A directory maps names to files (of any kind: regular, symlink, submodule) or directories. */
  datatype Tree = Tree(entries: map<string, Value>)

  datatype Value = File(data: string) | Directory(tree: Tree)

  type Path = seq<string>

  const EMPTY := Tree(map[])

  datatype Reason = RootMount | NotADirectory

  datatype Outcome<+T> = Done(value: T) | Refused(reason: Reason)

  function OrNotADirectory<T>(o: Option<T>): Outcome<T> {
    if o.Some? then Done(o.value) else Refused(NotADirectory)
  }

  /** The value at a path; a file on the way hides what would be below it and is returned itself. */
  function ValueAt(t: Tree, path: Path): Option<Value>
    requires path != []
    decreases |path|
  {
    if path[0] !in t.entries then None
    else if |path| == 1 || t.entries[path[0]].File? then Some(t.entries[path[0]])
    else ValueAt(t.entries[path[0]].tree, path[1..])
  }

  /** What a tree says about files: the data at each path. */
  function FileAt(t: Tree, path: Path): Option<string>
    requires path != []
    decreases |path|
  {
    if path[0] !in t.entries then None
    else match t.entries[path[0]]
      case File(data) => if |path| == 1 then Some(data) else None
      case Directory(sub) => if |path| == 1 then None else FileAt(sub, path[1..])
  }

  /** Reads the value at a path component by component. */
  method ReadValueAt(t: Tree, path: Path) returns (value: Outcome<Option<Value>>)
    ensures value == if path == [] then Refused(RootMount) else Done(ValueAt(t, path))
  {
    if path == [] {
      return Refused(RootMount);
    }
    var current := t;
    var index := 0;
    while index < |path|
      invariant 0 <= index < |path|
      invariant ValueAt(t, path) == ValueAt(current, path[index..])
    {
      var component := path[index];
      if component !in current.entries {
        return Done(None);
      }
      var found := current.entries[component];
      if index + 1 == |path| || found.File? {
        return Done(Some(found));
      }
      assert path[index..][1..] == path[index + 1..];
      current, index := found.tree, index + 1;
    }
    value := Done(None);
  }

  /** The tree mounted at a path: absent reads as empty, a file in its place is an error. */
  function TreeAt(t: Tree, mount: Path): Option<Tree>
    requires mount != []
  {
    match ValueAt(t, mount)
    case None => Some(EMPTY)
    case Some(Directory(sub)) => Some(sub)
    case Some(File(_)) => None
  }

  // ----- Mounting ----------------------------------------------------------------------------

  function Wrapped(mount: Path, inner: Tree): Tree {
    if mount == [] then inner else Tree(map[mount[0] := Directory(Wrapped(mount[1..], inner))])
  }

  function Prefixed(mount: Path, inner: Tree): Tree {
    if inner == EMPTY then EMPTY else Wrapped(mount, inner)
  }

  lemma {:induction false} WrapSnoc(mount: Path, name: string, inner: Tree)
    ensures Wrapped(mount + [name], inner) == Wrapped(mount, Tree(map[name := Directory(inner)]))
  {
    if mount != [] {
      assert (mount + [name])[1..] == mount[1..] + [name];
      WrapSnoc(mount[1..], name, inner);
    }
  }

  /** Writes the nested directories from the innermost outwards. */
  method PrefixTree(mount: Path, inner: Tree) returns (result: Outcome<Tree>)
    ensures result == if mount == [] then Refused(RootMount) else Done(Prefixed(mount, inner))
  {
    if mount == [] {
      return Refused(RootMount);
    }
    if inner == EMPTY {
      return Done(EMPTY);
    }
    var t := inner;
    var n := |mount|;
    assert mount[..n] == mount;
    while n > 0
      invariant 0 <= n <= |mount|
      invariant Wrapped(mount, inner) == Wrapped(mount[..n], t)
    {
      assert mount[..n] == mount[..n - 1] + [mount[n - 1]];
      WrapSnoc(mount[..n - 1], mount[n - 1], t);
      t := Tree(map[mount[n - 1] := Directory(t)]);
      n := n - 1;
    }
    result := Done(t);
  }

  lemma {:induction false} WrappedValue(mount: Path, inner: Tree)
    requires mount != []
    ensures ValueAt(Wrapped(mount, inner), mount) == Some(Directory(inner))
  {
    if |mount| > 1 {
      WrappedValue(mount[1..], inner);
    } else {
      assert mount[1..] == [];
    }
  }

  /** Projecting a mounted tree gives the tree back. */
  lemma {:induction false} ProjectPrefixed(mount: Path, inner: Tree)
    requires mount != []
    ensures TreeAt(Prefixed(mount, inner), mount) == Some(inner)
  {
    if inner != EMPTY {
      WrappedValue(mount, inner);
    }
  }

  /** A mounted tree holds its own files under the mount and nothing else. */
  lemma {:induction false} WrappedFiles(mount: Path, inner: Tree, p: Path)
    requires p != []
    ensures mount < p ==> FileAt(Wrapped(mount, inner), p) == FileAt(inner, p[|mount|..])
    ensures !(mount < p) ==> FileAt(Wrapped(mount, inner), p) == None
  {
    if mount == [] {
      assert p[0..] == p;
    } else if p[0] == mount[0] && |p| > 1 {
      WrappedFiles(mount[1..], inner, p[1..]);
      assert mount < p <==> mount[1..] < p[1..] by {
        if mount[1..] < p[1..] {
          assert p == [p[0]] + p[1..] && mount == [mount[0]] + mount[1..];
        }
      }
      if mount < p {
        assert p[1..][|mount| - 1..] == p[|mount|..];
      }
    }
  }

  // ----- Removing ----------------------------------------------------------------------------

  /** Some directory on the way to the mount is a file. */
  predicate Blocked(t: Tree, mount: Path)
    requires mount != []
    decreases |mount|
  {
    |mount| > 1 && mount[0] in t.entries
    && (t.entries[mount[0]].File? || Blocked(t.entries[mount[0]].tree, mount[1..]))
  }

  /** A tree with an existing path taken out, and directories that this empties taken out too. */
  function Pruned(t: Tree, mount: Path): Tree
    requires mount != [] && !Blocked(t, mount)
    decreases |mount|
  {
    if mount[0] !in t.entries then t
    else if |mount| == 1 then Tree(t.entries - {mount[0]})
    else
      var sub := Pruned(t.entries[mount[0]].tree, mount[1..]);
      Tree(if sub == EMPTY then t.entries - {mount[0]} else t.entries[mount[0] := Directory(sub)])
  }

  /** The tree without the mount: itself if nothing is there, an error if a file blocks the way. */
  function Without(t: Tree, mount: Path): Option<Tree>
    requires mount != []
  {
    if Blocked(t, mount) then None
    else if ValueAt(t, mount).None? then Some(t)
    else Some(Pruned(t, mount))
  }

  datatype Frame = Frame(tree: Tree, component: string)

  /** Rebuilding the frames of a descent around what is left of the innermost directory. */
  function Rebuilt(frames: seq<Frame>, below: Tree): Tree {
    if frames == [] then below
    else
      var f := frames[|frames| - 1];
      var entries := if below == EMPTY then f.tree.entries - {f.component} else f.tree.entries[f.component := Directory(below)];
      Rebuilt(frames[..|frames| - 1], Tree(entries))
  }

  lemma {:induction false} RebuiltPrepend(f: Frame, frames: seq<Frame>, below: Tree)
    ensures
      var sub := Rebuilt(frames, below);
      Rebuilt([f] + frames, below)
        == Tree(if sub == EMPTY then f.tree.entries - {f.component} else f.tree.entries[f.component := Directory(sub)])
    decreases |frames|
  {
    if frames == [] {
      assert [f] + frames == [f];
    } else {
      var last := frames[|frames| - 1];
      var rest := frames[..|frames| - 1];
      assert ([f] + frames)[..|frames|] == [f] + rest;
      var entries := if below == EMPTY then last.tree.entries - {last.component} else last.tree.entries[last.component := Directory(below)];
      RebuiltPrepend(f, rest, Tree(entries));
    }
  }

  /** The frames that a descent to `current` has collected. */
  ghost predicate Descent(t: Tree, path: Path, frames: seq<Frame>, current: Tree)
    decreases |path|
  {
    if path == [] then frames == [] && current == t
    else
      && frames != [] && frames[0] == Frame(t, path[0])
      && path[0] in t.entries && t.entries[path[0]].Directory?
      && Descent(t.entries[path[0]].tree, path[1..], frames[1..], current)
  }

  lemma {:induction false} DescentOne(t: Tree, path: Path, frames: seq<Frame>, current: Tree, component: string)
    requires Descent(t, path, frames, current) && component in current.entries && current.entries[component].Directory?
    ensures Descent(t, path + [component], frames + [Frame(current, component)], current.entries[component].tree)
    decreases |path|
  {
    if path == [] {
      var sub := current.entries[component].tree;
      assert (path + [component])[1..] == [];
      assert (frames + [Frame(current, component)])[1..] == [];
      assert Descent(sub, [], [], sub);
    } else {
      DescentOne(t.entries[path[0]].tree, path[1..], frames[1..], current, component);
      assert (path + [component])[1..] == path[1..] + [component];
      assert (frames + [Frame(current, component)])[1..] == frames[1..] + [Frame(current, component)];
    }
  }

  /** What a descent knows about the whole path. */
  lemma {:induction false} DescentDecides(t: Tree, path: Path, frames: seq<Frame>, current: Tree, below: Path)
    requires Descent(t, path, frames, current) && below != []
    ensures ValueAt(t, path + below) == ValueAt(current, below)
    ensures Blocked(t, path + below) <==> Blocked(current, below)
    ensures !Blocked(current, below) && ValueAt(current, below).Some? ==>
      Pruned(t, path + below) == Rebuilt(frames, Pruned(current, below))
    decreases |path|
  {
    if path == [] {
      assert path + below == below;
    } else {
      var sub := t.entries[path[0]].tree;
      assert (path + below)[1..] == path[1..] + below;
      DescentDecides(sub, path[1..], frames[1..], current, below);
      if !Blocked(current, below) && ValueAt(current, below).Some? {
        assert frames == [frames[0]] + frames[1..];
        RebuiltPrepend(frames[0], frames[1..], Pruned(current, below));
      }
    }
  }

  method WithoutPath(t: Tree, mount: Path) returns (result: Outcome<Tree>)
    ensures result == if mount == [] then Refused(RootMount) else OrNotADirectory(Without(t, mount))
  {
    if mount == [] {
      return Refused(RootMount);
    }
    if t == EMPTY {
      return Done(EMPTY);
    }
    var current := t;
    var frames: seq<Frame> := [];
    var index := 0;
    while index + 1 < |mount|
      invariant 0 <= index < |mount|
      invariant Descent(t, mount[..index], frames, current)
    {
      assert mount[..index] + mount[index..] == mount;
      DescentDecides(t, mount[..index], frames, current, mount[index..]);
      var component := mount[index];
      if component !in current.entries {
        return Done(t);
      }
      match current.entries[component] {
        case File(_) =>
          return Refused(NotADirectory);
        case Directory(sub) =>
          DescentOne(t, mount[..index], frames, current, component);
          assert mount[..index + 1] == mount[..index] + [component];
          frames, current, index := frames + [Frame(current, component)], sub, index + 1;
      }
    }
    assert mount[..index] + mount[index..] == mount;
    DescentDecides(t, mount[..index], frames, current, mount[index..]);
    if mount[index] !in current.entries {
      return Done(t);
    }
    ghost var all := frames;
    var rewritten := Tree(current.entries - {mount[index]});
    ghost var below := rewritten;
    while frames != []
      invariant Rebuilt(frames, rewritten) == Rebuilt(all, below)
    {
      var f := frames[|frames| - 1];
      rewritten := Tree(if rewritten == EMPTY then f.tree.entries - {f.component} else f.tree.entries[f.component := Directory(rewritten)]);
      frames := frames[..|frames| - 1];
    }
    result := Done(rewritten);
  }

  lemma {:induction false} MissingHasNoFiles(t: Tree, mount: Path, p: Path)
    requires mount != [] && ValueAt(t, mount).None? && mount <= p
    ensures FileAt(t, p) == None
    decreases |mount|
  {
    if mount[0] in t.entries {
      assert p[0] == mount[0];
      assert mount[1..] <= p[1..];
      MissingHasNoFiles(t.entries[mount[0]].tree, mount[1..], p[1..]);
    }
  }

  lemma EmptyHasNoFiles(p: Path)
    requires p != []
    ensures FileAt(EMPTY, p) == None
  {
  }

  lemma {:induction false} PrunedFiles(t: Tree, mount: Path, p: Path)
    requires mount != [] && p != [] && !Blocked(t, mount) && ValueAt(t, mount).Some?
    ensures FileAt(Pruned(t, mount), p) == if mount <= p then None else FileAt(t, p)
    decreases |mount|
  {
    if p[0] == mount[0] && |mount| > 1 {
      var sub := t.entries[mount[0]].tree;
      if |p| > 1 {
        PrunedFiles(sub, mount[1..], p[1..]);
        assert mount <= p <==> mount[1..] <= p[1..] by {
          assert p == [p[0]] + p[1..] && mount == [mount[0]] + mount[1..];
        }
        if Pruned(sub, mount[1..]) == EMPTY {
          EmptyHasNoFiles(p[1..]);
        }
      }
    }
  }

  /** Removing a mount keeps exactly the files that are not under it, unless a file blocks the way. */
  lemma {:induction false} WithoutFiles(t: Tree, mount: Path, p: Path)
    requires mount != [] && p != []
    ensures Without(t, mount).None? <==> Blocked(t, mount)
    ensures Without(t, mount).Some? ==> FileAt(Without(t, mount).value, p) == if mount <= p then None else FileAt(t, p)
  {
    if !Blocked(t, mount) {
      if ValueAt(t, mount).None? {
        if mount <= p {
          MissingHasNoFiles(t, mount, p);
        }
      } else {
        PrunedFiles(t, mount, p);
      }
    }
  }

  lemma {:induction false} PrunedWrapped(mount: Path, inner: Tree)
    requires mount != []
    ensures !Blocked(Wrapped(mount, inner), mount) && Pruned(Wrapped(mount, inner), mount) == EMPTY
    decreases |mount|
  {
    if |mount| > 1 {
      PrunedWrapped(mount[1..], inner);
    }
    var m := map[mount[0] := Directory(Wrapped(mount[1..], inner))];
    assert m - {mount[0]} == map[];
  }

  /** Removing the mount of a mounted tree leaves the empty tree. */
  lemma {:induction false} WithoutPrefixed(mount: Path, inner: Tree)
    requires mount != []
    ensures Without(Prefixed(mount, inner), mount) == Some(EMPTY)
  {
    if inner != EMPTY {
      PrunedWrapped(mount, inner);
      WrappedValue(mount, inner);
    }
  }

  // ----- Laying a project beside the others --------------------------------------------------

  /** Three-way merge over the empty base: what only one side has, what both agree on, directories entry by entry. */
  function Merged(a: Tree, b: Tree): Option<Tree>
    decreases a
  {
    if exists n <- a.entries :: n in b.entries && MergedValue(a, n, b.entries[n]).None? then None
    else Some(Tree(map n | n in a.entries.Keys + b.entries.Keys ::
      if n !in a.entries then b.entries[n]
      else if n !in b.entries then a.entries[n]
      else MergedValue(a, n, b.entries[n]).value))
  }

  function MergedValue(a: Tree, n: string, w: Value): Option<Value>
    requires n in a.entries
    decreases a, 0
  {
    var v := a.entries[n];
    if v == w then Some(v)
    else if v.File? || w.File? then None
    else
      assert v.tree < a;
      var sub := Merged(v.tree, w.tree);
      if sub.None? then None else Some(Directory(sub.value))
  }

  /** The incoming project under its mount, everything else from the (merged) parents. */
  function Inherited(parents: Tree, mount: Path, incoming: Tree): Option<Tree>
    requires mount != []
  {
    var outside := Without(parents, mount);
    if outside.None? then None
    else if outside.value == EMPTY then Some(incoming)
    else Merged(outside.value, incoming)
  }

  lemma {:induction false} WithoutIsVacant(t: Tree, mount: Path)
    requires mount != [] && !Blocked(t, mount)
    ensures ValueAt(Pruned(t, mount), mount).None? && !Blocked(Pruned(t, mount), mount)
    decreases |mount|
  {
    if mount[0] in t.entries && |mount| > 1 {
      WithoutIsVacant(t.entries[mount[0]].tree, mount[1..]);
    }
  }

  /** Merging in a single directory touches only that entry. */
  lemma {:induction false} MergedEntry(outside: Tree, n: string, sub: Tree)
    ensures
      var merged := Merged(outside, Tree(map[n := Directory(sub)]));
      if n !in outside.entries then merged == Some(Tree(outside.entries[n := Directory(sub)]))
      else if outside.entries[n].File? then merged == None
      else
        var o := outside.entries[n].tree;
        var both := if o == sub then Some(o) else Merged(o, sub);
        merged == if both.None? then None else Some(Tree(outside.entries[n := Directory(both.value)]))
  {
    var incoming := Tree(map[n := Directory(sub)]);
    if n in outside.entries {
      assert MergedValue(outside, n, incoming.entries[n]) == MergedValue(outside, n, Directory(sub));
      if MergedValue(outside, n, Directory(sub)).Some? {
        var after := outside.entries[n := MergedValue(outside, n, Directory(sub)).value];
        assert Merged(outside, incoming).value.entries == after;
      }
    } else {
      assert Merged(outside, incoming).value.entries == outside.entries[n := Directory(sub)];
    }
  }

  /** Beside a vacant mount a mounted tree never conflicts. */
  lemma {:induction false} VacantMerge(outside: Tree, mount: Path, inner: Tree)
    requires mount != [] && !Blocked(outside, mount) && ValueAt(outside, mount).None?
    ensures Merged(outside, Wrapped(mount, inner)).Some?
    ensures ValueAt(Merged(outside, Wrapped(mount, inner)).value, mount) == Some(Directory(inner))
    decreases |mount|
  {
    hide Merged;
    var n, sub := mount[0], Wrapped(mount[1..], inner);
    MergedEntry(outside, n, sub);
    if |mount| > 1 {
      WrappedValue(mount[1..], inner);
    }
    if n in outside.entries {
      VacantMerge(outside.entries[n].tree, mount[1..], inner);
    }
  }

  lemma {:induction false} PathTail(mount: Path, p: Path)
    requires mount != [] && p != [] && p[0] == mount[0]
    ensures mount <= p <==> mount[1..] <= p[1..]
    ensures mount < p <==> mount[1..] < p[1..]
  {
    assert p == [p[0]] + p[1..] && mount == [mount[0]] + mount[1..];
  }

  /** The merge has the project's files under the mount, and the other files everywhere else. */
  lemma {:induction false} VacantMergeFiles(outside: Tree, mount: Path, inner: Tree, p: Path)
    requires mount != [] && p != [] && !Blocked(outside, mount) && ValueAt(outside, mount).None?
    requires Merged(outside, Wrapped(mount, inner)).Some?
    ensures
      FileAt(Merged(outside, Wrapped(mount, inner)).value, p)
        == if mount < p then FileAt(inner, p[|mount|..]) else FileAt(outside, p)
    decreases |mount|
  {
    hide Merged;
    var n, sub := mount[0], Wrapped(mount[1..], inner);
    MergedEntry(outside, n, sub);
    if p[0] == n {
      PathTail(mount, p);
      if n !in outside.entries {
        WrappedFiles(mount, inner, p);
      } else if |p| > 1 {
        WrappedValue(mount[1..], inner);
        VacantMerge(outside.entries[n].tree, mount[1..], inner);
        VacantMergeFiles(outside.entries[n].tree, mount[1..], inner, p[1..]);
        if mount < p {
          assert p[1..][|mount| - 1..] == p[|mount|..];
        }
      }
    }
  }

  lemma {:induction false} WithoutLeavesVacant(parents: Tree, mount: Path)
    requires mount != [] && Without(parents, mount).Some?
    ensures !Blocked(Without(parents, mount).value, mount) && ValueAt(Without(parents, mount).value, mount).None?
  {
    WithoutIsVacant(parents, mount);
  }

  /**
   Inheriting never conflicts for a mounted project: it fails only if a file blocks the mount.
   The result projects back to the project, and keeps every file outside the mount.
   */
  lemma {:induction false} InheritedProject(parents: Tree, mount: Path, inner: Tree)
    requires mount != []
    ensures Inherited(parents, mount, Prefixed(mount, inner)).None? <==> Blocked(parents, mount)
    ensures Inherited(parents, mount, Prefixed(mount, inner)).Some? ==>
      TreeAt(Inherited(parents, mount, Prefixed(mount, inner)).value, mount) == Some(inner)
  {
    hide Merged;
    if !Blocked(parents, mount) {
      var outside := Without(parents, mount).value;
      WithoutLeavesVacant(parents, mount);
      ProjectPrefixed(mount, inner);
      if outside != EMPTY {
        if inner == EMPTY {
          MergedWithEmpty(outside);
        } else {
          VacantMerge(outside, mount, inner);
        }
      }
    }
  }

  lemma {:induction false} MergedWithEmpty(t: Tree)
    ensures Merged(t, EMPTY) == Some(t)
  {
    assert (map n | n in t.entries.Keys + EMPTY.entries.Keys :: t.entries[n]) == t.entries;
    assert Merged(t, EMPTY).value.entries == t.entries;
  }

  lemma {:induction false} InheritedFiles(parents: Tree, mount: Path, inner: Tree, p: Path)
    requires mount != [] && p != [] && Inherited(parents, mount, Prefixed(mount, inner)).Some?
    ensures
      FileAt(Inherited(parents, mount, Prefixed(mount, inner)).value, p)
        == if mount < p then FileAt(inner, p[|mount|..]) else if mount == p then None else FileAt(parents, p)
  {
    hide Merged;
    var outside := Without(parents, mount).value;
    WithoutLeavesVacant(parents, mount);
    WithoutFiles(parents, mount, p);
    if inner == EMPTY {
      MergedWithEmpty(outside);
      if mount < p {
        EmptyHasNoFiles(p[|mount|..]);
      }
    } else {
      WrappedFiles(mount, inner, p);
      if outside != EMPTY {
        VacantMergeFiles(outside, mount, inner, p);
      } else {
        EmptyHasNoFiles(p);
      }
    }
  }

  // ----- Several mounts --------------------------------------------------------------------------

  predicate Overlap(a: Path, b: Path) {
    a <= b || b <= a
  }

  /** Refuses mounts of which one is inside another. */
  method CheckMountsDisjoint(mounts: seq<Path>) returns (ok: bool)
    ensures ok <==> forall i, j | 0 <= i < j < |mounts| :: !Overlap(mounts[i], mounts[j])
  {
    for i := 0 to |mounts|
      invariant forall a, b | 0 <= a < i && a < b < |mounts| :: !Overlap(mounts[a], mounts[b])
    {
      for j := i + 1 to |mounts|
        invariant forall b | i < b < j :: !Overlap(mounts[i], mounts[b])
      {
        if Overlap(mounts[i], mounts[j]) {
          return false;
        }
      }
    }
    ok := true;
  }

  /** Where mounts do not overlap, importing at one leaves every file under the other as it was. */
  lemma {:induction false} DisjointMountsKeepApart(parents: Tree, mount: Path, inner: Tree, other: Path, p: Path)
    requires mount != [] && other < p && !Overlap(mount, other)
    requires Inherited(parents, mount, Prefixed(mount, inner)).Some?
    ensures FileAt(Inherited(parents, mount, Prefixed(mount, inner)).value, p) == FileAt(parents, p)
  {
    if mount <= p {
      PrefixesOverlap(mount, other, p);
    }
    InheritedFiles(parents, mount, inner, p);
  }

  /** A mount where nothing stands hides nothing: every file that was there stays. */
  lemma {:induction false} VacantMountHidesNothing(parents: Tree, mount: Path, inner: Tree, p: Path)
    requires mount != [] && p != [] && ValueAt(parents, mount).None? && FileAt(parents, p).Some?
    requires Inherited(parents, mount, Prefixed(mount, inner)).Some?
    ensures FileAt(Inherited(parents, mount, Prefixed(mount, inner)).value, p) == FileAt(parents, p)
  {
    if mount <= p {
      MissingHasNoFiles(parents, mount, p);
    } else {
      InheritedFiles(parents, mount, inner, p);
    }
  }

  lemma {:induction false} PrefixesOverlap(a: Path, b: Path, p: Path)
    requires a <= p && b <= p
    ensures Overlap(a, b)
  {
    assert |a| <= |b| ==> a == p[..|a|] == b[..|a|];
    assert |b| <= |a| ==> b == p[..|b|] == a[..|b|];
  }

  // ----- Paths and files ---------------------------------------------------------------------------

  /** A file on the way hides what would be below it, and a path ends at a file exactly if it is one. */
  lemma {:induction false} FileHides(t: Tree, p: Path, k: nat)
    requires 0 < k <= |p| && FileAt(t, p[..k]).Some?
    ensures ValueAt(t, p) == Some(File(FileAt(t, p[..k]).value)) && (k < |p| ==> FileAt(t, p) == None)
    decreases |p|
  {
    var q := p[..k];
    if k > 1 {
      assert q[1..] == p[1..][..k - 1];
      FileHides(t.entries[p[0]].tree, p[1..], k - 1);
    }
  }

  lemma {:induction false} ValueIsFile(t: Tree, p: Path)
    requires p != [] && ValueAt(t, p).Some? && ValueAt(t, p).value.File?
    ensures exists k :: 0 < k <= |p| && FileAt(t, p[..k]) == Some(ValueAt(t, p).value.data)
    decreases |p|
  {
    if |p| == 1 || t.entries[p[0]].File? {
      assert FileAt(t, p[..1]) == Some(ValueAt(t, p).value.data);
    } else {
      ValueIsFile(t.entries[p[0]].tree, p[1..]);
      var k :| 0 < k <= |p| - 1 && FileAt(t.entries[p[0]].tree, p[1..][..k]) == Some(ValueAt(t, p).value.data);
      assert p[..k + 1][1..] == p[1..][..k];
      assert FileAt(t, p[..k + 1]) == Some(ValueAt(t, p).value.data);
    }
  }

  /** What a directory at a path holds are the files below that path. */
  lemma {:induction false} DirectoryFiles(t: Tree, mount: Path, p: Path)
    requires mount != [] && p != [] && ValueAt(t, mount).Some? && ValueAt(t, mount).value.Directory?
    ensures FileAt(ValueAt(t, mount).value.tree, p) == FileAt(t, mount + p)
    decreases |mount|
  {
    assert (mount + p)[1..] == mount[1..] + p && (mount + p)[0] == mount[0];
    if |mount| > 1 {
      DirectoryFiles(t.entries[mount[0]].tree, mount[1..], p);
    } else {
      assert mount[1..] + p == p;
    }
  }

  /** The project at a mount has exactly the files below the mount, and is refused only for a file in the way. */
  lemma {:induction false} ProjectFiles(t: Tree, mount: Path, p: Path)
    requires mount != [] && p != []
    ensures TreeAt(t, mount).Some? ==> FileAt(TreeAt(t, mount).value, p) == FileAt(t, mount + p)
    ensures TreeAt(t, mount).None? <==> exists k :: 0 < k <= |mount| && FileAt(t, mount[..k]).Some?
  {
    if ValueAt(t, mount).None? {
      MissingHasNoFiles(t, mount, mount + p);
      EmptyHasNoFiles(p);
    } else if ValueAt(t, mount).value.Directory? {
      DirectoryFiles(t, mount, p);
    } else {
      ValueIsFile(t, mount);
    }
    forall k | 0 < k <= |mount| && FileAt(t, mount[..k]).Some? ensures TreeAt(t, mount).None? {
      FileHides(t, mount, k);
    }
  }
}
