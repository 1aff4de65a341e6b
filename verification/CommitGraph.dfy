/**
 Commit-graph chains: lookups by position and by id across the files of a chain, and the check that
 generation numbers describe the real shape of the history.
 */
module CommitGraph {
  import opened Wrappers

  newtype u32 = x: int | 0 <= x < 0x1_0000_0000

  const GENERATION_MAX: u32 := 0x3fff_ffff
  const MAX_COMMITS := 0x6fff_ffff
  const NO_PARENT: u32 := 0x7000_0000
  const HIGH_BIT: u32 := 0x8000_0000

  /** An object id: its first byte, then the others. */
  datatype Oid = Oid(first: nat, rest: nat)

  predicate Less(a: Oid, b: Oid) {
    a.first < b.first || (a.first == b.first && a.rest < b.rest)
  }

  const NULL_ID := Oid(0, 0)

  /** A commit as stored: the generation is the upper 30 bits of its word. */
  datatype Commit = Commit(id: Oid, tree: Oid, parent1: u32, parent2: u32, generationWord: u32)
  {
    function Generation(): (g: u32)
      ensures g <= GENERATION_MAX
    {
      generationWord / 4
    }
  }

  /** `intact` tells whether the checksum and the file name are right; `fan` counts ids by first byte. */
  datatype File = File(
    intact: bool, checksum: Oid, baseCount: nat, baseIds: seq<Oid>, fan: seq<u32>, commits: seq<Commit>, extra: Option<seq<u32>>)

  // ----- Parents ------------------------------------------------------------------------------------

  /** The list of further parents, ended by a word with the high bit. */
  function ExtraParents(words: seq<u32>, from: nat): Option<seq<u32>>
    decreases |words| - from
  {
    if from >= |words| then None
    else if words[from] >= HIGH_BIT then Some([words[from] - HIGH_BIT])
    else
      match ExtraParents(words, from + 1)
      case None => None
      case Some(rest) => Some([words[from]] + rest)
  }

  /** The parent positions of a commit, or nothing if they are malformed. */
  function Parents(c: Commit, extra: Option<seq<u32>>): Option<seq<u32>> {
    if c.parent1 == NO_PARENT then
      if c.parent2 == NO_PARENT then Some([]) else None
    else if c.parent1 >= HIGH_BIT then None
    else if c.parent2 == NO_PARENT then Some([c.parent1])
    else if c.parent2 < HIGH_BIT then Some([c.parent1, c.parent2])
    else
      match extra
      case None => None
      case Some(words) =>
        match ExtraParents(words, (c.parent2 - HIGH_BIT) as nat)
        case None => None
        case Some(rest) => Some([c.parent1] + rest)
  }

  // ----- What is stored --------------------------------------------------------------------------------

  /** Position `p` is stored among the extra edges from `from` on, up to the first word with the high bit. */
  ghost predicate Listed(words: seq<u32>, from: nat, p: u32) {
    exists k | from <= k < |words| ::
      && (forall j | from <= j < k :: words[j] < 0x8000_0000)
      && p == if words[k] < 0x8000_0000 then words[k] else words[k] - 0x8000_0000
  }

  ghost predicate Ended(words: seq<u32>, from: nat) {
    exists k | from <= k < |words| :: words[k] >= 0x8000_0000
  }

  /** The list is what is stored from its start to the first word with the high bit, that bit removed. */
  lemma {:induction false} ExtraList(words: seq<u32>, from: nat, last: nat)
    requires from <= last < |words| && words[last] >= 0x8000_0000 && forall j | from <= j < last :: words[j] < 0x8000_0000
    ensures ExtraParents(words, from) == Some(words[from..last] + [words[last] - 0x8000_0000])
    decreases last - from
  {
    var end := [words[last] - 0x8000_0000];
    if from < last {
      ExtraList(words, from + 1, last);
      assert [words[from]] + (words[from + 1..last] + end) == words[from..last] + end;
    } else {
      assert words[from..last] + end == end;
    }
  }

  lemma {:induction false} FirstEnd(words: seq<u32>, from: nat) returns (last: nat)
    requires Ended(words, from)
    ensures from <= last < |words| && words[last] >= 0x8000_0000 && forall j | from <= j < last :: words[j] < 0x8000_0000
    decreases |words| - from
  {
    if words[from] >= 0x8000_0000 {
      last := from;
    } else {
      last := FirstEnd(words, from + 1);
    }
  }

  lemma {:induction false} ExtraUnended(words: seq<u32>, from: nat)
    requires !Ended(words, from)
    ensures ExtraParents(words, from).None?
    decreases |words| - from
  {
    if from < |words| {
      assert words[from] < 0x8000_0000;
      ExtraUnended(words, from + 1);
    }
  }

  lemma {:induction false} ExtraIsListed(words: seq<u32>, from: nat, p: u32)
    ensures ExtraParents(words, from).Some? <==> Ended(words, from)
    ensures ExtraParents(words, from).Some? ==> (p in ExtraParents(words, from).value <==> Listed(words, from, p))
  {
    hide ExtraParents;
    if Ended(words, from) {
      var last := FirstEnd(words, from);
      ExtraList(words, from, last);
      var list := words[from..last] + [words[last] - 0x8000_0000];
      if p in list {
        var i :| 0 <= i < |list| && list[i] == p;
        assert p == if words[from + i] < 0x8000_0000 then words[from + i] else words[from + i] - 0x8000_0000;
      }
      if Listed(words, from, p) {
        var k :| from <= k < |words| && (forall j | from <= j < k :: words[j] < 0x8000_0000)
          && p == if words[k] < 0x8000_0000 then words[k] else words[k] - 0x8000_0000;
        assert k <= last && list[k - from] == p;
      }
    } else {
      ExtraUnended(words, from);
    }
  }

  /** The words of a commit make sense: no parent, one, two, or one and a list that ends. */
  ghost predicate WellStored(c: Commit, extra: Option<seq<u32>>) {
    if c.parent1 == 0x7000_0000 then c.parent2 == 0x7000_0000
    else c.parent1 < 0x8000_0000
         && (c.parent2 >= 0x8000_0000 ==> extra.Some? && Ended(extra.value, (c.parent2 - 0x8000_0000) as nat))
  }

  /** Position `p` is stored as a parent of the commit. */
  ghost predicate StoredParent(c: Commit, extra: Option<seq<u32>>, p: u32) {
    && c.parent1 != 0x7000_0000
    && (|| p == c.parent1
        || (p == c.parent2 && c.parent2 < 0x8000_0000 && c.parent2 != 0x7000_0000)
        || (c.parent2 >= 0x8000_0000 && extra.Some? && Listed(extra.value, (c.parent2 - 0x8000_0000) as nat, p)))
  }

  /** The parents that are read are exactly those that are stored, and are refused exactly if malformed. */
  lemma {:induction false} ParentsAreStored(c: Commit, extra: Option<seq<u32>>, p: u32)
    ensures Parents(c, extra).Some? <==> WellStored(c, extra)
    ensures Parents(c, extra).Some? ==> (p in Parents(c, extra).value <==> StoredParent(c, extra, p))
  {
    hide ExtraParents, Listed, Ended;
    if c.parent2 >= 0x8000_0000 && extra.Some? {
      ExtraIsListed(extra.value, (c.parent2 - 0x8000_0000) as nat, p);
    }
  }

  /** Two ordinary edges are two parents, in order. */
  lemma TwoParents(c: Commit, extra: Option<seq<u32>>)
    requires c.parent1 < 0x8000_0000 && c.parent1 != 0x7000_0000 && c.parent2 < 0x8000_0000 && c.parent2 != 0x7000_0000
    ensures Parents(c, extra) == Some([c.parent1, c.parent2])
  {
  }

  /** An index into the extra edges gives the first parent and then the list, in order. */
  lemma {:induction false} ManyParents(c: Commit, words: seq<u32>, last: nat)
    requires c.parent1 < 0x8000_0000 && c.parent1 != 0x7000_0000 && c.parent2 >= 0x8000_0000
    requires (c.parent2 - 0x8000_0000) as nat <= last < |words| && words[last] >= 0x8000_0000
    requires forall j | (c.parent2 - 0x8000_0000) as nat <= j < last :: words[j] < 0x8000_0000
    ensures Parents(c, Some(words)) ==
            Some([c.parent1] + (words[(c.parent2 - 0x8000_0000) as nat..last] + [words[last] - 0x8000_0000]))
  {
    ExtraList(words, (c.parent2 - 0x8000_0000) as nat, last);
  }

  /** The generation is what is stored above the two lowest bits. */
  lemma {:induction false} GenerationIsStored(c: Commit, g: nat, low: nat)
    requires low < 4 && c.generationWord as nat == 4 * g + low
    ensures c.Generation() as nat == g
  {
  }

  /** Ids are totally ordered, byte by byte. */
  lemma LessIsTotal(a: Oid, b: Oid, c: Oid)
    ensures Less(a, b) || Less(b, a) || a == b
    ensures !(Less(a, b) && Less(b, a)) && !Less(a, a)
    ensures Less(a, b) && Less(b, c) ==> Less(a, c)
    ensures a.first < b.first ==> Less(a, b)
  {
  }

  // ----- Positions ----------------------------------------------------------------------------------

  /** The position of the first commit of a file. */
  function Start(files: seq<File>, k: nat): nat
    requires k <= |files|
  {
    if k == 0 then 0 else Start(files, k - 1) + |files[k - 1].commits|
  }

  function Total(files: seq<File>): nat {
    Start(files, |files|)
  }

  /** What opening a chain guarantees. */
  ghost predicate Opened(files: seq<File>) {
    files != [] && Total(files) <= MAX_COMMITS
  }

  lemma {:induction false} StartsIncrease(files: seq<File>, j: nat, k: nat)
    requires j <= k <= |files|
    ensures Start(files, j) <= Start(files, k)
  {
    if j < k {
      StartsIncrease(files, j, k - 1);
    }
  }

  /** Commit `pos` of file `k` is the one at position `at` of the chain. */
  predicate Locates(files: seq<File>, at: nat, k: nat, pos: nat) {
    k < |files| && pos < |files[k].commits| && at == Start(files, k) + pos
  }

  lemma {:induction false} LocationIsUnique(files: seq<File>, at: nat, k: nat, pos: nat, k': nat, pos': nat)
    requires Locates(files, at, k, pos) && Locates(files, at, k', pos')
    ensures k == k' && pos == pos'
  {
    if k < k' {
      StartsIncrease(files, k + 1, k');
    } else if k' < k {
      StartsIncrease(files, k' + 1, k);
    }
  }

  /** Every position of the chain is in exactly one file; the running difference never underflows. */
  method LookupByPos(files: seq<File>, at: u32) returns (k: nat, pos: u32)
    requires Opened(files) && at as nat < Total(files)
    ensures Locates(files, at as nat, k, pos as nat)
  {
    var remaining := at;
    k := 0;
    while k < |files|
      invariant k <= |files| && at as nat == Start(files, k) + remaining as nat
    {
      StartsIncrease(files, k + 1, |files|);
      var count := |files[k].commits| as u32;
      if remaining < count {
        return k, remaining;
      }
      remaining := remaining - count;
      k := k + 1;
    }
    assert false;
    pos := remaining;
  }

  // ----- Ids ----------------------------------------------------------------------------------------

  predicate Sorted(f: File) {
    forall i, j | 0 <= i < j < |f.commits| :: Less(f.commits[i].id, f.commits[j].id)
  }

  /** The fan table counts the ids up to each first byte. */
  predicate FanCounts(f: File) {
    && |f.fan| == 256 && f.fan[255] as nat == |f.commits|
    && (forall b | 0 <= b < 256 :: f.fan[b] as nat <= |f.commits|)
    && forall b, i | 0 <= b < 256 && 0 <= i < |f.commits| :: i < f.fan[b] as nat <==> f.commits[i].id.first <= b
  }

  /** What lookups rely on: the order is checked by verification, the fan table is not. */
  ghost predicate Indexed(f: File) {
    Sorted(f) && FanCounts(f)
  }

  /** The outcome of a search; reading past the ids of a file is a panic. */
  datatype Search<+T> = Hit(value: T) | Miss | Panic

  /**
   Binary search among the ids with the same first byte. A hit is always right; a miss is right and
   there is no panic where the index is; it panics only on a fan table that counts too many ids.
   */
  method LookupInFile(f: File, id: Oid) returns (r: Search<u32>)
    requires |f.fan| == 256 && id.first < 256
    ensures r.Hit? ==> r.value as nat < |f.commits| && f.commits[r.value].id == id
    ensures Indexed(f) && r.Miss? ==> forall i | 0 <= i < |f.commits| :: f.commits[i].id != id
    ensures r.Panic? ==> f.fan[id.first] as nat > |f.commits| && !Indexed(f)
  {
    var upper := f.fan[id.first];
    var lower := if id.first != 0 then f.fan[id.first - 1] else 0;
    while lower < upper
      invariant upper as nat <= |f.commits| || upper == f.fan[id.first]
      invariant Indexed(f) ==> lower as nat <= |f.commits| && upper as nat <= |f.commits|
      invariant Indexed(f) ==> forall i | 0 <= i < lower as nat :: f.commits[i].id != id
      invariant Indexed(f) ==> forall i | upper as nat <= i < |f.commits| :: f.commits[i].id != id
      decreases upper as int - lower as int
    {
      var mid := lower + (upper - lower) / 2;
      if mid as nat >= |f.commits| {
        return Panic;
      }
      var other := f.commits[mid].id;
      if Less(id, other) {
        upper := mid;
      } else if id == other {
        return Hit(mid);
      } else {
        lower := mid + 1;
      }
    }
    r := Miss;
  }

  datatype Found = Found(file: nat, filePos: u32, graphPos: u32)

  ghost predicate Holds(f: File, id: Oid) {
    exists c <- f.commits :: c.id == id
  }

  /** A position with the id; where all files are indexed, that of the first file that has it. */
  method LookupById(files: seq<File>, id: Oid) returns (r: Search<Found>)
    requires Opened(files) && id.first < 256 && forall f <- files :: |f.fan| == 256
    ensures r.Hit? ==> var Found(k, pos, at) := r.value;
                       Locates(files, at as nat, k, pos as nat) && files[k].commits[pos].id == id
    ensures (forall f <- files :: Indexed(f)) ==>
              && !r.Panic? && (r.Miss? <==> forall f <- files :: !Holds(f, id))
              && (r.Hit? ==> forall j | 0 <= j < r.value.file :: !Holds(files[j], id))
    ensures r.Panic? ==> exists f <- files :: f.fan[id.first] as nat > |f.commits|
  {
    hide FanCounts, Sorted;
    var start: u32 := 0;
    for k := 0 to |files|
      invariant start as nat == Start(files, k)
      invariant (forall f <- files :: Indexed(f)) ==> forall j | 0 <= j < k :: !Holds(files[j], id)
    {
      StartsIncrease(files, k + 1, |files|);
      var pos := LookupInFile(files[k], id);
      if pos.Panic? {
        return Panic;
      } else if pos.Hit? {
        assert Holds(files[k], id) by {
          assert files[k].commits[pos.value] in files[k].commits;
        }
        return Hit(Found(k, pos.value, start + pos.value));
      }
      start := start + |files[k].commits| as u32;
    }
    r := Miss;
  }

  // ----- The graph of a chain -----------------------------------------------------------------------

  datatype Node = Node(generation: u32, parents: Option<seq<u32>>)

  function Max(a: u32, b: u32): u32 {
    if a < b then b else a
  }

  function FileNodes(f: File): seq<Node> {
    seq(|f.commits|, i requires 0 <= i < |f.commits| => Node(f.commits[i].Generation(), Parents(f.commits[i], f.extra)))
  }

  function Nodes(files: seq<File>, k: nat): (r: seq<Node>)
    requires k <= |files|
    ensures |r| == Start(files, k)
  {
    if k == 0 then [] else Nodes(files, k - 1) + FileNodes(files[k - 1])
  }

  lemma {:induction false} NodesPrefix(files: seq<File>, j: nat, k: nat)
    requires j <= k <= |files|
    ensures Start(files, j) <= Start(files, k) && Nodes(files, j) == Nodes(files, k)[..Start(files, j)]
  {
    if j < k {
      NodesPrefix(files, j, k - 1);
    }
  }

  lemma {:induction false} NodeAt(files: seq<File>, at: nat, k: nat, pos: nat)
    requires Locates(files, at, k, pos)
    ensures at < Total(files) && Nodes(files, |files|)[at] == FileNodes(files[k])[pos]
  {
    hide FileNodes;
    NodesPrefix(files, k + 1, |files|);
    NodeInPrefix(files, k, pos);
    assert Nodes(files, |files|)[at] == Nodes(files, |files|)[..Start(files, k + 1)][at];
  }

  lemma NodeInPrefix(files: seq<File>, k: nat, pos: nat)
    requires k < |files| && pos < |files[k].commits|
    ensures Start(files, k + 1) == Start(files, k) + |files[k].commits|
    ensures Nodes(files, k + 1)[Start(files, k) + pos] == FileNodes(files[k])[pos]
  {
  }

  predicate InRange(positions: seq<u32>, limit: nat) {
    forall i | 0 <= i < |positions| :: positions[i] as nat < limit
  }

  /** The largest generation of the parents, none counting as zero. */
  function MaxGeneration(nodes: seq<Node>, parents: seq<u32>): (m: u32)
    requires InRange(parents, |nodes|)
    ensures forall i | 0 <= i < |parents| :: nodes[parents[i]].generation <= m
    ensures m == 0 || exists i | 0 <= i < |parents| :: nodes[parents[i]].generation == m
  {
    if parents == [] then 0
    else Max(MaxGeneration(nodes, parents[..|parents| - 1]), nodes[parents[|parents| - 1]].generation)
  }

  /** A generation is one more than the largest of the parents, up to the largest that can be stored. */
  predicate Graded(nodes: seq<Node>, n: Node, limit: nat)
    requires limit <= |nodes|
  {
    && n.parents.Some? && InRange(n.parents.value, limit)
    && n.generation as nat == var g := MaxGeneration(nodes, n.parents.value) as nat + 1;
                              if g < GENERATION_MAX as nat then g else GENERATION_MAX as nat
  }

  ghost predicate AllGraded(nodes: seq<Node>) {
    forall i | 0 <= i < |nodes| :: Graded(nodes, nodes[i], |nodes|)
  }

  // ----- Walks and generations ----------------------------------------------------------------------

  ghost predicate IsParent(nodes: seq<Node>, c: u32, p: u32) {
    c as nat < |nodes| && p as nat < |nodes| && nodes[c].parents.Some? && p in nodes[c].parents.value
  }

  /** A walk from a commit to a parent, to a parent of that, and so on. */
  ghost predicate Walk(nodes: seq<Node>, path: seq<u32>) {
    && path != [] && InRange(path, |nodes|)
    && forall i | 0 <= i < |path| - 1 :: IsParent(nodes, path[i], path[i + 1])
  }

  function Edges(path: seq<u32>): int {
    |path| - 1
  }

  /** `n` is the number of edges of the longest walk, or 0 if there are no commits. */
  ghost predicate IsLongest(nodes: seq<Node>, n: int) {
    && (nodes == [] ==> n == 0)
    && (nodes != [] ==> exists path :: Walk(nodes, path) && Edges(path) == n)
    && forall path | Walk(nodes, path) :: Edges(path) <= n
  }

  ghost predicate Acyclic(nodes: seq<Node>) {
    forall path | Walk(nodes, path) && Edges(path) > 0 :: path[0] != path[|path| - 1]
  }

  lemma {:induction false} ParentIsBelow(nodes: seq<Node>, c: u32, p: u32)
    requires AllGraded(nodes) && IsParent(nodes, c, p) && nodes[c].generation < GENERATION_MAX
    ensures nodes[p].generation < nodes[c].generation
  {
    hide MaxGeneration;
    assert Graded(nodes, nodes[c], |nodes|);
    var parents := nodes[c].parents.value;
    var i :| 0 <= i < |parents| && parents[i] == p;
    assert nodes[parents[i]].generation <= MaxGeneration(nodes, parents);
  }

  lemma {:induction false} SomeParentIsNext(nodes: seq<Node>, c: u32) returns (p: u32)
    requires AllGraded(nodes) && c as nat < |nodes| && nodes[c].generation > 1
    ensures IsParent(nodes, c, p) && nodes[p].generation as int >= nodes[c].generation as int - 1
  {
    hide MaxGeneration;
    assert Graded(nodes, nodes[c], |nodes|);
    var parents := nodes[c].parents.value;
    var m := MaxGeneration(nodes, parents);
    var i :| 0 <= i < |parents| && nodes[parents[i]].generation == m;
    p := parents[i];
  }

  lemma {:induction false} GenerationIsPositive(nodes: seq<Node>, c: u32)
    requires AllGraded(nodes) && c as nat < |nodes|
    ensures 1 <= nodes[c].generation <= GENERATION_MAX
  {
    hide MaxGeneration;
    assert Graded(nodes, nodes[c], |nodes|);
  }

  /** Below the largest generation, it bounds every walk. */
  lemma {:induction false} GenerationBoundsWalks(nodes: seq<Node>, path: seq<u32>)
    requires AllGraded(nodes) && Walk(nodes, path) && nodes[path[0]].generation < GENERATION_MAX
    ensures nodes[path[|path| - 1]].generation as int + Edges(path) <= nodes[path[0]].generation as int
  {
    hide AllGraded;
    if |path| > 1 {
      assert IsParent(nodes, path[0], path[1]);
      ParentIsBelow(nodes, path[0], path[1]);
      assert Walk(nodes, path[1..]);
      GenerationBoundsWalks(nodes, path[1..]);
    }
  }

  /** Every number up to a stored generation is witnessed by a walk. */
  lemma {:induction false} GenerationHasWalk(nodes: seq<Node>, c: u32, g: nat) returns (path: seq<u32>)
    requires AllGraded(nodes) && c as nat < |nodes| && 1 <= g <= nodes[c].generation as nat
    ensures Walk(nodes, path) && path[0] == c && Edges(path) == g - 1
    decreases g
  {
    hide AllGraded;
    path := [c];
    if g > 1 {
      var p := SomeParentIsNext(nodes, c);
      var rest := GenerationHasWalk(nodes, p, g - 1);
      path := [c] + rest;
    }
  }

  /** The largest generation of a graph. */
  ghost predicate IsMaxGeneration(nodes: seq<Node>, m: u32) {
    && (nodes == [] ==> m == 0)
    && (forall i | 0 <= i < |nodes| :: nodes[i].generation <= m)
    && (nodes != [] ==> exists i | 0 <= i < |nodes| :: nodes[i].generation == m)
  }

  /** What the check reports: nothing once the largest generation is stored. */
  function Reported(m: u32): Option<u32> {
    if m < GENERATION_MAX then Some(if m == 0 then 0 else m - 1) else None
  }

  /**
   The reported length is exact: the history is acyclic with that longest path, or there is a walk
   too long to be told apart, as there is whenever the history has a cycle.
   */
  lemma {:induction false} ReportIsExact(nodes: seq<Node>, m: u32)
    requires AllGraded(nodes) && IsMaxGeneration(nodes, m) && |nodes| <= MAX_COMMITS
    ensures Reported(m).Some? ==> Acyclic(nodes) && IsLongest(nodes, Reported(m).value as int)
    ensures Reported(m).None? <==> exists path :: Walk(nodes, path) && Edges(path) == GENERATION_MAX as int - 1
  {
    hide AllGraded;
    if m < GENERATION_MAX {
      forall path | Walk(nodes, path)
        ensures Edges(path) <= m as int - 1
        ensures Edges(path) > 0 ==> path[0] != path[|path| - 1]
      {
        GenerationBoundsWalks(nodes, path);
        GenerationIsPositive(nodes, path[|path| - 1]);
      }
    }
    if nodes != [] {
      var i :| 0 <= i < |nodes| && nodes[i].generation == m;
      GenerationIsPositive(nodes, i as u32);
      var path := GenerationHasWalk(nodes, i as u32, m as nat);
      assert Walk(nodes, path) && Edges(path) == m as int - 1;
    } else {
      assert forall path :: !Walk(nodes, path);
    }
  }

  // ----- The check ----------------------------------------------------------------------------------

  /** Ids increase strictly from the null id, and no tree is null. */
  predicate CommitSound(f: File, i: nat)
    requires i < |f.commits|
  {
    Less(if i == 0 then NULL_ID else f.commits[i - 1].id, f.commits[i].id) && f.commits[i].tree != NULL_ID
  }

  predicate BasesRight(files: seq<File>, k: nat)
    requires k < |files|
  {
    && files[k].baseCount == k
    && forall j | 0 <= j < k && j < |files[k].baseIds| :: files[k].baseIds[j] == files[j].checksum
  }

  /** File `k` is what the check demands, given the whole chain. */
  ghost predicate FileAccepted(files: seq<File>, k: nat)
    requires k < |files|
  {
    && BasesRight(files, k) && files[k].intact
    && forall i | 0 <= i < |files[k].commits| :: CommitSound(files[k], i) && GradedIn(files, k, i)
  }

  predicate HasCommit(files: seq<File>, k: nat, i: nat) {
    k < |files| && i < |files[k].commits|
  }

  ghost predicate GradedIn(files: seq<File>, k: nat, i: nat)
    requires HasCommit(files, k, i)
  {
    NodesPrefix(files, k + 1, |files|);
    Graded(Nodes(files, |files|), FileNodes(files[k])[i], Start(files, k + 1))
  }

  ghost predicate Accepted(files: seq<File>) {
    |files| <= 256 && forall k | 0 <= k < |files| :: FileAccepted(files, k)
  }

  lemma {:induction false} Locate(files: seq<File>, k: nat, at: nat) returns (j: nat, pos: nat)
    requires k <= |files| && at < Start(files, k)
    ensures Locates(files, at, j, pos)
  {
    if at < Start(files, k - 1) {
      j, pos := Locate(files, k - 1, at);
    } else {
      j, pos := k - 1, at - Start(files, k - 1);
    }
  }

  /** The check of every file grades the whole graph. */
  lemma {:induction false} AcceptedIsGraded(files: seq<File>)
    requires Accepted(files)
    ensures AllGraded(Nodes(files, |files|))
  {
    hide Nodes, FileNodes, MaxGeneration, BasesRight;
    var nodes := Nodes(files, |files|);
    forall i | 0 <= i < |nodes|
      ensures Graded(nodes, nodes[i], |nodes|)
    {
      var k, pos := Locate(files, |files|, i);
      NodeAt(files, i, k, pos);
      assert FileAccepted(files, k) && GradedIn(files, k, pos);
      StartsIncrease(files, k + 1, |files|);
    }
  }

  /** What acceptance means for the files themselves, beside the grading of their commits. */
  lemma {:induction false} AcceptedFiles(files: seq<File>, k: nat, i: nat)
    requires Accepted(files) && k < |files|
    ensures |files| <= 256 && files[k].intact && files[k].baseCount == k
    ensures forall j | 0 <= j < k && j < |files[k].baseIds| :: files[k].baseIds[j] == files[j].checksum
    ensures i < |files[k].commits| ==> files[k].commits[i].id != Oid(0, 0) && files[k].commits[i].tree != Oid(0, 0)
    ensures 0 < i < |files[k].commits| ==> Less(files[k].commits[i - 1].id, files[k].commits[i].id)
  {
    hide GradedIn;
    assert FileAccepted(files, k);
    if i < |files[k].commits| {
      assert CommitSound(files[k], i);
    }
  }

  /** Conversely, a chain is refused only for one of these, for malformed parents, or for a wrong generation. */
  lemma {:induction false} RefusedFiles(files: seq<File>)
    requires !Accepted(files) && |files| <= 256
    requires forall k | 0 <= k < |files| :: files[k].intact && files[k].baseCount == k
    requires forall k, j | 0 <= j < k < |files| && j < |files[k].baseIds| :: files[k].baseIds[j] == files[j].checksum
    requires forall k, i | 0 <= k < |files| && 0 <= i < |files[k].commits| ::
               && files[k].commits[i].tree != Oid(0, 0) && (i == 0 ==> Less(Oid(0, 0), files[k].commits[i].id))
               && forall j | 0 <= j < i :: Less(files[k].commits[j].id, files[k].commits[i].id)
    ensures exists k, i :: HasCommit(files, k, i) && !GradedIn(files, k, i)
  {
    hide GradedIn;
    var k :| 0 <= k < |files| && !FileAccepted(files, k);
    var i :| 0 <= i < |files[k].commits| && !(CommitSound(files[k], i) && GradedIn(files, k, i));
    assert files[k].commits[i].tree != Oid(0, 0);
    assert i > 0 ==> Less(files[k].commits[i - 1].id, files[k].commits[i].id);
    assert CommitSound(files[k], i);
    assert HasCommit(files, k, i);
  }

  /** In an accepted chain, the edges are exactly the positions that the commits store. */
  lemma {:induction false} EdgesAreStored(files: seq<File>, at: u32, k: nat, pos: nat, p: u32)
    requires Accepted(files) && Locates(files, at as nat, k, pos)
    ensures WellStored(files[k].commits[pos], files[k].extra)
    ensures IsParent(Nodes(files, |files|), at, p) <==> StoredParent(files[k].commits[pos], files[k].extra, p)
    ensures at as nat < |Nodes(files, |files|)| && Nodes(files, |files|)[at].generation == files[k].commits[pos].Generation()
  {
    hide Nodes, Parents, WellStored, StoredParent, MaxGeneration;
    var commit := files[k].commits[pos];
    NodeAt(files, at as nat, k, pos);
    ParentsAreStored(commit, files[k].extra, p);
    assert FileAccepted(files, k) && GradedIn(files, k, pos);
    StartsIncrease(files, k + 1, |files|);
    if Parents(commit, files[k].extra).Some? && p in Parents(commit, files[k].extra).value {
      var i :| 0 <= i < |Parents(commit, files[k].extra).value| && Parents(commit, files[k].extra).value[i] == p;
    }
  }

  method CheckBases(files: seq<File>, k: nat) returns (ok: bool)
    requires k < |files|
    ensures ok <==> BasesRight(files, k)
  {
    if files[k].baseCount != k {
      return false;
    }
    for j := 0 to k
      invariant forall i | 0 <= i < j && i < |files[k].baseIds| :: files[k].baseIds[i] == files[i].checksum
    {
      if j < |files[k].baseIds| && files[k].baseIds[j] != files[j].checksum {
        return false;
      }
    }
    ok := true;
  }

  /** Checks the parents of commit `i` of file `k`; every lookup stays within the chain. */
  method CheckCommit(files: seq<File>, k: nat, i: nat, next: u32) returns (ok: bool)
    requires Opened(files) && HasCommit(files, k, i) && next as nat == Start(files, k + 1)
    ensures ok <==> GradedIn(files, k, i)
  {
    hide Nodes, Start, Parents;
    StartsIncrease(files, k + 1, |files|);
    ghost var nodes := Nodes(files, |files|);
    var commit := files[k].commits[i];
    var parents := Parents(commit, files[k].extra);
    if parents.None? {
      return false;
    }
    var ps := parents.value;
    var m: u32 := 0;
    for j := 0 to |ps|
      invariant InRange(ps[..j], next as nat) && m == MaxGeneration(nodes, ps[..j]) && m <= GENERATION_MAX
    {
      if ps[j] >= next {
        return false;
      }
      var file, pos := LookupByPos(files, ps[j]);
      NodeAt(files, ps[j] as nat, file, pos as nat);
      assert ps[..j + 1][..j] == ps[..j];
      m := Max(m, files[file].commits[pos].Generation());
    }
    assert ps[..|ps|] == ps;
    var expected := if m + 1 < GENERATION_MAX then m + 1 else GENERATION_MAX;
    ok := commit.Generation() == expected;
  }

  /** The largest generation among the first `n` commits of the chain. */
  ghost predicate MaxOf(nodes: seq<Node>, n: nat, m: u32)
    requires n <= |nodes|
  {
    IsMaxGeneration(nodes[..n], m)
  }

  lemma {:induction false} MaxGrows(nodes: seq<Node>, n: nat, m: u32)
    requires n < |nodes| && MaxOf(nodes, n, m)
    ensures MaxOf(nodes, n + 1, Max(m, nodes[n].generation))
  {
    assert nodes[..n + 1] == nodes[..n] + [nodes[n]];
    if n > 0 {
      var i :| 0 <= i < n && nodes[..n][i].generation == m;
      assert nodes[..n + 1][i].generation == m;
    }
    assert nodes[..n + 1][n].generation == nodes[n].generation;
  }

  /** Checks all commits of a file, extending the largest generation seen before it. */
  method Traverse(files: seq<File>, k: nat, next: u32, before: u32) returns (r: Option<u32>)
    requires Opened(files) && k < |files| && next as nat == Start(files, k + 1) && next as nat <= Total(files)
    requires MaxOf(Nodes(files, |files|), next as nat - |files[k].commits|, before)
    ensures r.Some? <==> files[k].intact && forall i | 0 <= i < |files[k].commits| :: CommitSound(files[k], i) && GradedIn(files, k, i)
    ensures r.Some? ==> MaxOf(Nodes(files, |files|), next as nat, r.value)
  {
    hide Nodes, MaxOf, Graded;
    ghost var nodes := Nodes(files, |files|);
    var commits := files[k].commits;
    if !files[k].intact {
      return None;
    }
    var m := before;
    for i := 0 to |commits|
      invariant forall j | 0 <= j < i :: CommitSound(files[k], j) && GradedIn(files, k, j)
      invariant MaxOf(nodes, Start(files, k) + i, m)
    {
      if !CommitSound(files[k], i) {
        return None;
      }
      var ok := CheckCommit(files, k, i, next);
      if !ok {
        return None;
      }
      NodeAt(files, Start(files, k) + i, k, i);
      MaxGrows(nodes, Start(files, k) + i, m);
      m := Max(m, commits[i].Generation());
    }
    r := Some(m);
  }

  datatype Outcome = Outcome(longestPath: Option<u32>, numCommits: u32)

  /**
   A chain is accepted exactly when every file is. It then reports the number of commits, and the
   length of the longest path exactly when that can be told from the generations.
   */
  method VerifyIntegrity(files: seq<File>) returns (r: Option<Outcome>)
    requires Opened(files)
    ensures r.Some? <==> Accepted(files)
    ensures r.Some? ==> r.value.numCommits as nat == Total(files)
    ensures r.Some? && r.value.longestPath.Some? ==>
              var nodes := Nodes(files, |files|);
              Acyclic(nodes) && IsLongest(nodes, r.value.longestPath.value as int)
    ensures r.Some? ==>
              var nodes := Nodes(files, |files|);
              r.value.longestPath.None? <==> exists path :: Walk(nodes, path) && Edges(path) == GENERATION_MAX as int - 1
  {
    hide Nodes, MaxOf, BasesRight, GradedIn, Acyclic, IsLongest, Walk;
    if |files| > 256 {
      return None;
    }
    ghost var nodes := Nodes(files, |files|);
    var m: u32 := 0;
    var start: u32 := 0;
    NothingSeen(nodes);
    for k := 0 to |files|
      invariant start as nat == Start(files, k) <= Total(files)
      invariant forall j | 0 <= j < k :: FileAccepted(files, j)
      invariant MaxOf(nodes, start as nat, m)
    {
      StartsIncrease(files, k + 1, |files|);
      var bases := CheckBases(files, k);
      if !bases {
        assert !FileAccepted(files, k);
        return None;
      }
      var next := start + |files[k].commits| as u32;
      var traversed := Traverse(files, k, next, m);
      if traversed.None? {
        assert !FileAccepted(files, k);
        return None;
      }
      m := traversed.value;
      start := next;
    }
    AllSeen(nodes, m);
    AcceptedIsGraded(files);
    ReportIsExact(nodes, m);
    r := Some(Outcome(Reported(m), start));
  }

  lemma NothingSeen(nodes: seq<Node>)
    ensures MaxOf(nodes, 0, 0)
  {
  }

  lemma {:induction false} AllSeen(nodes: seq<Node>, m: u32)
    requires MaxOf(nodes, |nodes|, m)
    ensures IsMaxGeneration(nodes, m)
  {
    assert nodes[..|nodes|] == nodes;
  }

  /** A commit that is its own parent passes the check at the largest generation. */
  lemma {:induction false} CycleAtTheTop(id: Oid, tree: Oid, checksum: Oid, fan: seq<u32>)
    requires Less(NULL_ID, id) && tree != NULL_ID
    ensures var file := File(true, checksum, 0, [], fan, [Commit(id, tree, 0, NO_PARENT, 0xffff_fffc)], None);
            Accepted([file]) && !Acyclic(Nodes([file], 1))
  {
    var commit := Commit(id, tree, 0, NO_PARENT, 0xffff_fffc);
    var file := File(true, checksum, 0, [], fan, [commit], None);
    var nodes := Nodes([file], 1);
    assert Start([file], 1) == 1;
    assert nodes == [Node(GENERATION_MAX, Some([0]))];
    assert MaxGeneration(nodes, [0]) == GENERATION_MAX by {
      assert nodes[[0 as u32][0]].generation <= MaxGeneration(nodes, [0]);
    }
    assert GradedIn([file], 0, 0);
    var loop: seq<u32> := [0, 0];
    assert IsParent(nodes, loop[0], loop[1]);
    assert Walk(nodes, loop);
  }

  /** The check establishes the order that lookups by id rely on. */
  lemma {:induction false} AcceptedIsSorted(f: File, i: nat, j: nat)
    requires forall k | 0 <= k < |f.commits| :: CommitSound(f, k)
    requires i < j < |f.commits|
    ensures Less(f.commits[i].id, f.commits[j].id)
  {
    assert CommitSound(f, j);
    if i < j - 1 {
      AcceptedIsSorted(f, i, j - 1);
    }
  }
}
