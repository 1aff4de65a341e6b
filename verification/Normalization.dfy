/**
 Shallow-history normalization and its inverse, as functions of a commit.

 Normalizing cuts the declared shallow edges and rewrites only the commits above a cut, each
 stamped with the id it came from. Denormalizing rebuilds source history for export from the
 known originals ("anchors").
 */
module Normalization {
  import opened Wrappers
  import opened Objects
  import opened Walks

  type CommitMap = map<Object, Object>

  // ----- Rewriting one commit ----------------------------------------------------------------

  predicate Volatile(h: Header) {
    h.key.Provenance? || h.key.GpgSig? || h.key.GpgSigSha256? || h.key.MergeTag?
  }

  function Strip(headers: seq<Header>): (kept: seq<Header>)
    ensures forall h <- kept :: !Volatile(h) && h in headers
  {
    if headers == [] then []
    else (if Volatile(headers[0]) then [] else [headers[0]]) + Strip(headers[1..])
  }

  predicate HasProvenance(c: Object) {
    c.Commit? && exists h <- c.headers :: h.key.Provenance?
  }

  function Stamp(raw: Object): Header {
    Header(Provenance, Hex(raw))
  }

  function Rewritten(c: Object, parents: seq<Object>, raw: Option<Object>): Object
    requires c.Commit?
  {
    Commit(c.tree, parents, c.meta, Strip(c.headers) + if raw.Some? then [Stamp(raw.value)] else [])
  }

  lemma Regroup(a: seq<Header>, b: seq<Header>, c: seq<Header>)
    ensures a + (b + c) == a + b + c
  {
  }

  lemma {:induction false} StripAppend(a: seq<Header>, b: seq<Header>)
    ensures Strip(a + b) == Strip(a) + Strip(b)
  {
    if a == [] {
      assert a + b == b;
    } else {
      assert (a + b)[1..] == a[1..] + b;
      StripAppend(a[1..], b);
      var first := if Volatile(a[0]) then [] else [a[0]];
      Regroup(first, Strip(a[1..]), Strip(b));
    }
  }

  lemma {:induction false} StripFixed(headers: seq<Header>)
    requires forall h <- headers :: !Volatile(h)
    ensures Strip(headers) == headers
  {
    if headers != [] {
      StripFixed(headers[1..]);
    }
  }

  /** Rewriting keeps everything but parents and volatile headers. */
  lemma {:induction false} RewrittenKeeps(c: Object, parents: seq<Object>, raw: Option<Object>)
    requires c.Commit?
    ensures Strip(Rewritten(c, parents, raw).headers) == Strip(c.headers)
    ensures HasProvenance(Rewritten(c, parents, raw)) <==> raw.Some?
  {
    var tail := if raw.Some? then [Stamp(raw.value)] else [];
    StripAppend(Strip(c.headers), tail);
    StripFixed(Strip(c.headers));
    if raw.Some? {
      assert Strip(tail) == [];
      assert Rewritten(c, parents, raw).headers[|Strip(c.headers)|] == Stamp(raw.value);
    }
  }

  /** The stamp identifies the original: no two originals give the same rewritten commit. */
  lemma {:induction false} StampIdentifies(a: Object, ps: seq<Object>, b: Object, qs: seq<Object>)
    requires a.Commit? && b.Commit? && Rewritten(a, ps, Some(a)) == Rewritten(b, qs, Some(b))
    ensures a == b
  {
    var ha, hb := Strip(a.headers) + [Stamp(a)], Strip(b.headers) + [Stamp(b)];
    assert ha == hb && ha[|ha| - 1] == Stamp(a) && hb[|hb| - 1] == Stamp(b);
  }

  /** A stamped commit names its original, so it is never its own original. */
  lemma {:induction false} StampedIsLarger(c: Object, parents: seq<Object>)
    requires c.Commit?
    ensures c < Rewritten(c, parents, Some(c))
  {
    var r := Rewritten(c, parents, Some(c));
    var h := r.headers[|Strip(c.headers)|];
    assert h == Stamp(c) && h in r.headers;
    assert h < r && h.value < h && h.value.id < h.value;
  }

  // ----- Commit graphs -----------------------------------------------------------------------

  /** The parents of a commit once the edges below `cut` are gone. */
  function Parents(cut: set<Object>, c: Object): seq<Object> {
    if c.Commit? && c !in cut then c.parents else []
  }

  ghost function Ancestry(cut: set<Object>, c: Object): set<Object>
    decreases c
  {
    {c} + set p, x | p in Parents(cut, c) && x in Ancestry(cut, p) :: x
  }

  ghost predicate AllCommits(cut: set<Object>, c: Object) {
    forall x <- Ancestry(cut, c) :: x.Commit?
  }

  lemma {:induction false} AncestryStep(cut: set<Object>, c: Object, x: Object, p: Object)
    requires x in Ancestry(cut, c) && p in Parents(cut, x)
    ensures p in Ancestry(cut, c)
    decreases c
  {
    if x == c {
      assert p in Ancestry(cut, p);
    } else {
      var q :| q in Parents(cut, c) && x in Ancestry(cut, q);
      AncestryStep(cut, q, x, p);
    }
  }

  /** No commit in the whole history carries a provenance header. */
  ghost predicate Clean(c: Object) {
    forall x <- Ancestry({}, c) :: !HasProvenance(x)
  }

  /** Content-addressed history has no cycles: every path leads to smaller objects. */
  lemma {:induction false} PathsDescend(next: Object -> seq<Object>, p: seq<Object>)
    requires IsPath(next, p) && |p| >= 2
    requires forall x, y :: y in next(x) ==> y < x
    ensures p[|p| - 1] < p[0]
    decreases |p|
  {
    var n := |p| - 1;
    assert p[n] in next(p[n - 1]);
    if n >= 2 {
      PathsDescend(next, p[..n]);
      assert p[..n][n - 1] == p[n - 1];
    }
  }

  lemma {:induction false} NoCycles(next: Object -> seq<Object>, x: Object)
    requires forall x, y :: y in next(x) ==> y < x
    ensures !Leads(next, x, x)
  {
    if Leads(next, x, x) {
      var p: seq<Object> :| |p| >= 2 && p[0] == x && p[|p| - 1] == x && IsPath(next, p);
      PathsDescend(next, p);
    }
  }

  // ----- Normalizing -------------------------------------------------------------------------

  function Normal(cut: set<Object>, c: Object): Object
    decreases c
  {
    if !c.Commit? then c
    else
      var parents := NormalParents(cut, c);
      if parents == c.parents then c else Rewritten(c, parents, Some(c))
  }

  function NormalParents(cut: set<Object>, c: Object): (parents: seq<Object>)
    requires c.Commit?
    ensures |parents| == |Parents(cut, c)|
    ensures forall i | 0 <= i < |parents| :: parents[i] == Normal(cut, Parents(cut, c)[i])
    decreases c, 0
  {
    var ps := Parents(cut, c);
    seq(|ps|, i requires 0 <= i < |ps| => Normal(cut, ps[i]))
  }

  /** Normalizing is a graph map: it keeps contents and sends uncut edges to edges, in order. */
  lemma {:induction false} NormalIsGraphMap(cut: set<Object>, c: Object)
    requires c.Commit?
    ensures
      var n := Normal(cut, c);
      && n.Commit? && n.tree == c.tree && n.meta == c.meta && Strip(n.headers) == Strip(c.headers)
      && n.parents == NormalParents(cut, c)
  {
    RewrittenKeeps(c, NormalParents(cut, c), Some(c));
  }

  /** A commit keeps its id exactly when no uncut path from it ends at a boundary that had parents. */
  lemma {:induction false} KeepsIdExactly(cut: set<Object>, c: Object)
    requires AllCommits(cut, c)
    ensures Normal(cut, c) == c <==> forall x <- Ancestry(cut, c) :: x in cut ==> x.parents == []
    decreases c
  {
    hide Ancestry;
    AncestryIs(cut, c);
    forall p | p in Parents(cut, c)
      ensures Normal(cut, p) == p <==> forall x <- Ancestry(cut, p) :: x in cut ==> x.parents == []
    {
      KeepsIdExactly(cut, p);
    }
    KeepsIdIfParentsDo(cut, c);
  }

  lemma AncestryIs(cut: set<Object>, c: Object)
    ensures c in Ancestry(cut, c)
    ensures forall p <- Parents(cut, c), x <- Ancestry(cut, p) :: x in Ancestry(cut, c)
    ensures forall x <- Ancestry(cut, c) :: x == c || exists p <- Parents(cut, c) :: x in Ancestry(cut, p)
  {
  }

  lemma {:induction false} KeepsIdIfParentsDo(cut: set<Object>, c: Object)
    requires c.Commit?
    ensures Normal(cut, c) == c <==> (c in cut ==> c.parents == []) && forall p <- Parents(cut, c) :: Normal(cut, p) == p
  {
    StampedIsLarger(c, NormalParents(cut, c));
    if c !in cut && forall p <- c.parents :: Normal(cut, p) == p {
      assert NormalParents(cut, c) == c.parents;
    }
  }

  /**
   Two commits collide exactly when one of them already is the normal form of the other.
   The boundary sets may differ, so this speaks about all recorded generations at once.
   */
  lemma {:induction false} NormalCollisions(cutA: set<Object>, a: Object, cutB: set<Object>, b: Object)
    requires a.Commit? && b.Commit? && a != b
    ensures Normal(cutA, a) == Normal(cutB, b) <==>
      (Normal(cutA, a) == a == Normal(cutB, b) || Normal(cutB, b) == b == Normal(cutA, a))
  {
    if Normal(cutA, a) == Normal(cutB, b) && Normal(cutA, a) != a && Normal(cutB, b) != b {
      StampIdentifies(a, NormalParents(cutA, a), b, NormalParents(cutB, b));
    }
  }

  /** Hence normalization is injective, across generations, where histories carry no stamp. */
  lemma {:induction false} NormalIsInjective(cutA: set<Object>, a: Object, cutB: set<Object>, b: Object)
    requires a.Commit? && b.Commit? && !HasProvenance(a) && !HasProvenance(b)
    requires Normal(cutA, a) == Normal(cutB, b)
    ensures a == b
  {
    RewrittenKeeps(a, NormalParents(cutA, a), Some(a));
    RewrittenKeeps(b, NormalParents(cutB, b), Some(b));
    if a != b {
      NormalCollisions(cutA, a, cutB, b);
    }
  }

  /** Without that hypothesis it is not: a stamped commit collides with its own original. */
  lemma {:induction false} StampedHistoryCollides(tree: Object, meta: Meta, parent: Object)
    ensures
      var raw := Commit(tree, [parent], meta, []);
      var stamped := Normal({raw}, raw);
      stamped != raw && HasProvenance(stamped) && Normal({raw}, stamped) == Normal({raw}, raw)
  {
    var raw := Commit(tree, [parent], meta, []);
    StampedIsLarger(raw, []);
    RewrittenKeeps(raw, [], Some(raw));
    assert NormalParents({raw}, raw) == [];
    var stamped := Normal({raw}, raw);
    assert stamped == Rewritten(raw, [], Some(raw));
    assert NormalParents({raw}, stamped) == [] == stamped.parents;
  }

  lemma {:induction false} NormalOfAncestor(cut: set<Object>, c: Object, x: Object)
    requires AllCommits(cut, c) && x in Ancestry(cut, c)
    ensures Normal(cut, x) in Ancestry({}, Normal(cut, c))
    decreases c
  {
    assert c in Ancestry(cut, c);
    NormalIsGraphMap(cut, c);
    if x != c {
      var ps := Parents(cut, c);
      var i :| 0 <= i < |ps| && x in Ancestry(cut, ps[i]);
      NormalOfAncestor(cut, ps[i], x);
      assert Normal(cut, c).parents[i] == Normal(cut, ps[i]);
    }
  }

  lemma {:induction false} AncestorOfNormal(cut: set<Object>, c: Object, y: Object) returns (x: Object)
    requires AllCommits(cut, c) && y in Ancestry({}, Normal(cut, c))
    ensures x in Ancestry(cut, c) && Normal(cut, x) == y
    decreases c
  {
    assert c in Ancestry(cut, c);
    NormalIsGraphMap(cut, c);
    x := c;
    if y != Normal(cut, c) {
      var qs, ps := Normal(cut, c).parents, Parents(cut, c);
      var i :| 0 <= i < |qs| && y in Ancestry({}, qs[i]);
      assert qs[i] == Normal(cut, ps[i]);
      x := AncestorOfNormal(cut, ps[i], y);
    }
  }

  /** The normalized graph is complete, and holds exactly the normal forms of the cut graph. */
  lemma {:induction false} NormalAncestry(cut: set<Object>, c: Object)
    requires AllCommits(cut, c)
    ensures Ancestry({}, Normal(cut, c)) == set x | x in Ancestry(cut, c) :: Normal(cut, x)
  {
    forall x | x in Ancestry(cut, c) ensures Normal(cut, x) in Ancestry({}, Normal(cut, c)) {
      NormalOfAncestor(cut, c, x);
    }
    forall y | y in Ancestry({}, Normal(cut, c)) ensures exists x <- Ancestry(cut, c) :: Normal(cut, x) == y {
      var x := AncestorOfNormal(cut, c, y);
    }
  }

  // ----- What rewriting does to headers --------------------------------------------------------

  /** The headers that are neither provenance, nor a signature, nor a merged tag, in order. */
  function Others(headers: seq<Header>): (kept: seq<Header>)
    ensures forall h <- kept :: h.key.OtherHeader? && h in headers
    ensures forall h <- headers :: h.key.OtherHeader? ==> h in kept
  {
    if headers == [] then []
    else Others(headers[..|headers| - 1]) + if headers[|headers| - 1].key.OtherHeader? then [headers[|headers| - 1]] else []
  }

  lemma OthersNone()
    ensures Others([]) == []
  {
  }

  lemma {:induction false} OthersSnoc(a: seq<Header>, h: Header)
    ensures Others(a + [h]) == Others(a) + if h.key.OtherHeader? then [h] else []
  {
    assert (a + [h])[..|a|] == a;
  }

  lemma {:induction false} OthersFirst(h: Header, rest: seq<Header>)
    ensures Others([h] + rest) == (if h.key.OtherHeader? then [h] else []) + Others(rest)
    decreases |rest|
  {
    hide Others;
    OthersNone();
    var first := if h.key.OtherHeader? then [h] else [];
    if rest == [] {
      assert [] + [h] == [h] + rest;
      OthersSnoc([], h);
    } else {
      var front, last := rest[..|rest| - 1], rest[|rest| - 1];
      assert rest == front + [last] && [h] + rest == ([h] + front) + [last];
      OthersFirst(h, front);
      OthersSnoc([h] + front, last);
      OthersSnoc(front, last);
      Regroup(first, Others(front), if last.key.OtherHeader? then [last] else []);
    }
  }

  lemma {:induction false} StripIsOthers(headers: seq<Header>)
    ensures Strip(headers) == Others(headers)
  {
    hide Others;
    OthersNone();
    if headers != [] {
      assert headers == [headers[0]] + headers[1..];
      OthersFirst(headers[0], headers[1..]);
      StripIsOthers(headers[1..]);
    }
  }

  /** A rewritten commit has the other headers and one stamp at the end; signatures and merged tags are gone. */
  lemma {:induction false} NormalHeaders(cut: set<Object>, c: Object)
    requires c.Commit? && Normal(cut, c) != c
    ensures Normal(cut, c).Commit? && Normal(cut, c).headers == Others(c.headers) + [Header(Provenance, Hex(c))]
    ensures forall h <- Normal(cut, c).headers :: h.key.OtherHeader? || h == Header(Provenance, Hex(c))
  {
    StripIsOthers(c.headers);
  }

  // ----- Denormalizing -----------------------------------------------------------------------

  /** Rebuilds source history above the anchors; an anchored commit is its known original. */
  function Denormal(anchors: CommitMap, c: Object): Object
    decreases c
  {
    if c in anchors then anchors[c]
    else if !c.Commit? then c
    else
      var parents := DenormalParents(anchors, c);
      if !HasProvenance(c) && parents == c.parents then c else Rewritten(c, parents, None)
  }

  function DenormalParents(anchors: CommitMap, c: Object): (parents: seq<Object>)
    requires c.Commit?
    ensures |parents| == |c.parents|
    ensures forall i | 0 <= i < |parents| :: parents[i] == Denormal(anchors, c.parents[i])
    decreases c, 0
  {
    seq(|c.parents|, i requires 0 <= i < |c.parents| => Denormal(anchors, c.parents[i]))
  }

  lemma {:induction false} DenormalKeeps(anchors: CommitMap, c: Object)
    requires c.Commit? && c !in anchors
    ensures
      var d := Denormal(anchors, c);
      && d.Commit? && d.tree == c.tree && d.meta == c.meta && Strip(d.headers) == Strip(c.headers)
      && d.parents == DenormalParents(anchors, c) && !HasProvenance(d)
  {
    RewrittenKeeps(c, DenormalParents(anchors, c), None);
  }

  /** A rebuilt commit has the other headers only. */
  lemma {:induction false} DenormalHeaders(anchors: CommitMap, c: Object)
    requires c.Commit? && c !in anchors && Denormal(anchors, c) != c
    ensures Denormal(anchors, c).Commit? && Denormal(anchors, c).headers == Others(c.headers)
    ensures forall h <- Denormal(anchors, c).headers :: h.key.OtherHeader?
  {
    StripIsOthers(c.headers);
    assert Others(c.headers) + [] == Others(c.headers);
  }

  /** A copy has the same other headers, in order. */
  lemma {:induction false} CopyHeaders(anchors: CommitMap, x: Object, y: Object)
    requires CopyOf(anchors, x, y) && x !in anchors
    ensures x.Commit? && y.Commit? && Others(y.headers) == Others(x.headers)
  {
    StripIsOthers(x.headers);
    StripIsOthers(y.headers);
  }

  /**
   `y` copies the new history of `x`: anchored commits are the same, and every commit above
   them has the same tree, authorship, message and lasting headers, and copies of its parents
   in the same order.
   */
  ghost predicate CopyOf(anchors: CommitMap, x: Object, y: Object)
    decreases x
  {
    if x in anchors then y == x
    else
      && x.Commit? && y.Commit? && y.tree == x.tree && y.meta == x.meta && Strip(y.headers) == Strip(x.headers)
      && |y.parents| == |x.parents| && forall i | 0 <= i < |x.parents| :: CopyOf(anchors, x.parents[i], y.parents[i])
  }

  /**
   A history is based on the current generation: each anchor it rests on is the current normal
   form of its original, and none of its new raw commits is a declared boundary with parents.
   */
  ghost predicate BasedOn(cut: set<Object>, anchors: CommitMap, x: Object)
    decreases x
  {
    if x in anchors then Normal(cut, anchors[x]) == x
    else
      && x.Commit? && (Denormal(anchors, x) in cut ==> x.parents == [])
      && forall p <- x.parents :: BasedOn(cut, anchors, p)
  }

  /** Exporting and normalizing again copies new history exactly when it is based on the current generation. */
  lemma {:induction false} ExportRoundTrip(cut: set<Object>, anchors: CommitMap, x: Object)
    ensures CopyOf(anchors, x, Normal(cut, Denormal(anchors, x))) <==> BasedOn(cut, anchors, x)
    decreases x
  {
    if x !in anchors && x.Commit? {
      var d := Denormal(anchors, x);
      DenormalKeeps(anchors, x);
      NormalIsGraphMap(cut, d);
      var n := Normal(cut, d);
      forall i | 0 <= i < |x.parents|
        ensures CopyOf(anchors, x.parents[i], Normal(cut, d.parents[i])) <==> BasedOn(cut, anchors, x.parents[i])
      {
        ExportRoundTrip(cut, anchors, x.parents[i]);
      }
      if d !in cut {
        assert forall i | 0 <= i < |x.parents| :: n.parents[i] == Normal(cut, d.parents[i]);
      }
    }
  }

  /** A copy differs from new history only where an export rewrote a parent or dropped a stamp. */
  lemma {:induction false} UntouchedExportIsIdentity(cut: set<Object>, anchors: CommitMap, x: Object)
    requires BasedOn(cut, anchors, x) && Denormal(anchors, x) == x
    ensures Normal(cut, Denormal(anchors, x)) == x
    decreases x
  {
    if x !in anchors {
      DenormalKeeps(anchors, x);
      forall i | 0 <= i < |x.parents| ensures Normal(cut, x.parents[i]) == x.parents[i] {
        UntouchedExportIsIdentity(cut, anchors, x.parents[i]);
      }
      assert NormalParents(cut, x) == x.parents;
    }
  }

  // ----- Exports that do not come back -------------------------------------------------------

  /** The normal forms of a boundary and of a commit on top of it. */
  lemma {:induction false} BoundaryNormalForm(tree: Object, meta: Meta, below: Object) returns (root: Object, n: Object)
    ensures
      var boundary := Commit(tree, [below], meta, []);
      var child := Commit(tree, [boundary], meta, []);
      && root == Normal({boundary}, boundary) != boundary && n == Normal({boundary}, child) && n != child
      && n.Commit? && n.parents == [root] && n != root
  {
    var boundary := Commit(tree, [below], meta, []);
    var child := Commit(tree, [boundary], meta, []);
    var cut := {boundary};
    StampedIsLarger(boundary, []);
    assert NormalParents(cut, boundary) == [];
    assert child.parents[0] < child;
    root, n := Normal(cut, boundary), Normal(cut, child);
    NormalIsGraphMap(cut, child);
    assert n.parents[0] == root;
    StampedIsLarger(child, [root]);
    assert n.parents[0] < n;
  }

  /** After deepening, new history on the older generation is normalized onto the deeper one. */
  lemma {:induction false} OlderGenerationIsLeft(tree: Object, meta: Meta, below: Object)
    requires below.Commit? && below.parents == []
    ensures
      var boundary := Commit(tree, [below], meta, []);
      var n := Normal({boundary}, boundary);
      var x, anchors := Commit(tree, [n], meta, []), map[n := boundary];
      BasedOn({boundary}, anchors, x) && !CopyOf(anchors, x, Normal({}, Denormal(anchors, x)))
  {
    var boundary := Commit(tree, [below], meta, []);
    var n, _ := BoundaryNormalForm(tree, meta, below);
    var x, anchors := Commit(tree, [n], meta, []), map[n := boundary];
    NewExport(tree, meta, n, boundary);
    assert NormalParents({}, below) == [];
    assert NormalParents({}, boundary) == [below];
    ExportRoundTrip({}, anchors, x);
    assert n in x.parents && !BasedOn({}, anchors, n);
  }

  /** A new commit whose export has since been declared a boundary loses its parents. */
  lemma {:induction false} NewBoundaryIsCut(tree: Object, meta: Meta, below: Object)
    ensures
      var boundary := Commit(tree, [below], meta, []);
      var n := Normal({boundary}, boundary);
      var x, anchors := Commit(tree, [n], meta, []), map[n := boundary];
      BasedOn({boundary}, anchors, x) && !CopyOf(anchors, x, Normal({boundary, Denormal(anchors, x)}, Denormal(anchors, x)))
  {
    var boundary := Commit(tree, [below], meta, []);
    var n, _ := BoundaryNormalForm(tree, meta, below);
    var x, anchors := Commit(tree, [n], meta, []), map[n := boundary];
    NewExport(tree, meta, n, boundary);
    ExportRoundTrip({boundary, Denormal(anchors, x)}, anchors, x);
  }

  lemma {:induction false} NewExport(tree: Object, meta: Meta, n: Object, boundary: Object)
    requires boundary.Commit? && n == Normal({boundary}, boundary) != boundary
    ensures
      var x, anchors := Commit(tree, [n], meta, []), map[n := boundary];
      x !in anchors && Denormal(anchors, x) == Commit(tree, [boundary], meta, []) && BasedOn({boundary}, anchors, x)
  {
    var x, anchors := Commit(tree, [n], meta, []), map[n := boundary];
    assert x.parents[0] < x;
    assert DenormalParents(anchors, x) == [boundary];
    var d := Commit(tree, [boundary], meta, []);
    assert d.parents[0] < d;
  }
}
