/**
 EWAH bitmaps (Appendix A of Git's gitformat-bitmap): a header word gives a running bit, the length
 of the run in words and a number of literal words that follow it. Words are unsigned and 64 bits
 wide; shifting right by one is halving.
 */
module Ewah {
  import opened Wrappers

  type Byte = x: nat | x < 0x100
  type Word = x: nat | x < 0x1_0000_0000_0000_0000

  const U32_MAX := 0xffff_ffff

  /** `rlw` is the offset of the last header word. */
  datatype Bitmap = Bitmap(numBits: nat, words: seq<Word>, rlw: nat)

  /** The widths of the fields. */
  predicate WellSized(v: Bitmap) {
    v.numBits <= U32_MAX && v.rlw < 0x1_0000_0000_0000_0000
  }

  // ----- Bits of a word -----------------------------------------------------------------------------

  function Shift(w: nat, k: nat): nat {
    if k == 0 then w else Shift(w / 2, k - 1)
  }

  /** The lowest `n` bits, lowest first. */
  function BitsOf(w: nat, n: nat): (b: seq<bool>)
    ensures |b| == n
  {
    if n == 0 then [] else [w % 2 == 1] + BitsOf(w / 2, n - 1)
  }

  /** The word that has the given bits. */
  function Pack(b: seq<bool>): nat {
    if b == [] then 0 else (if b[0] then 1 else 0) + 2 * Pack(b[1..])
  }

  function Power(n: nat): (p: nat)
    ensures p > 0
  {
    if n == 0 then 1 else 2 * Power(n - 1)
  }

  lemma {:induction false} PowerAdds(a: nat, b: nat)
    ensures Power(a + b) == Power(a) * Power(b)
  {
    if a > 0 {
      PowerAdds(a - 1, b);
      assert Power(a + b) == 2 * Power(a - 1 + b);
      assert 2 * (Power(a - 1) * Power(b)) == Power(a) * Power(b);
    }
  }

  lemma PowerOfNibble()
    ensures Power(4) == 16
  {
  }

  lemma {:induction false} PowerOfWord()
    ensures Power(64) == 0x1_0000_0000_0000_0000
  {
    hide Power;
    PowerOfNibble();
    PowerAdds(4, 4);
    PowerAdds(8, 8);
    PowerAdds(16, 16);
    PowerAdds(32, 32);
  }

  lemma {:induction false} BitAt(w: nat, n: nat, i: nat)
    requires i < n
    ensures BitsOf(w, n)[i] == (Shift(w, i) % 2 == 1)
  {
    if i > 0 {
      BitAt(w / 2, n - 1, i - 1);
    }
  }

  lemma {:induction false} BitsAfter(w: nat, n: nat, k: nat)
    requires k <= n
    ensures BitsOf(w, n)[k..] == BitsOf(Shift(w, k), n - k)
  {
    if k > 0 {
      BitsAfter(w / 2, n - 1, k - 1);
      assert BitsOf(w, n)[k..] == BitsOf(w / 2, n - 1)[k - 1..];
    }
  }

  lemma {:induction false} ShiftFits(w: nat, n: nat, k: nat)
    requires k <= n && w < Power(n)
    ensures Shift(w, k) < Power(n - k)
  {
    if k > 0 {
      ShiftFits(w / 2, n - 1, k - 1);
    }
  }

  predicate NoneSet(b: seq<bool>) {
    forall i | 0 <= i < |b| :: !b[i]
  }

  lemma {:induction false} NoneSetIsZero(w: nat, n: nat)
    requires w < Power(n)
    ensures NoneSet(BitsOf(w, n)) <==> w == 0
  {
    if n > 0 {
      NoneSetIsZero(w / 2, n - 1);
      var b := BitsOf(w, n);
      assert b[1..] == BitsOf(w / 2, n - 1);
      if NoneSet(b) {
        assert !b[0];
      }
    }
  }

  /** Shifting out the lowest bits of a word leaves zero exactly when no higher bit is set. */
  lemma {:induction false} ShiftTestsHighBits(w: Word, k: nat)
    requires k <= 64
    ensures Shift(w, k) == 0 <==> NoneSet(BitsOf(w, 64)[k..])
  {
    PowerOfWord();
    ShiftFits(w, 64, k);
    BitsAfter(w, 64, k);
    NoneSetIsZero(Shift(w, k), 64 - k);
  }

  lemma {:induction false} PackFits(b: seq<bool>)
    ensures Pack(b) < Power(|b|)
  {
    if b != [] {
      PackFits(b[1..]);
    }
  }

  /** Reading the bits of a packed word gives them back, padded with zeros. */
  lemma {:induction false} PackRoundTrip(b: seq<bool>, n: nat)
    requires |b| <= n
    ensures BitsOf(Pack(b), n)[..|b|] == b && NoneSet(BitsOf(Pack(b), n)[|b|..])
  {
    if b == [] {
      PackedZero(n);
    } else {
      PackRoundTrip(b[1..], n - 1);
      var rest := BitsOf(Pack(b[1..]), n - 1);
      assert BitsOf(Pack(b), n) == [b[0]] + rest;
      assert b == [b[0]] + b[1..];
      assert BitsOf(Pack(b), n)[|b|..] == rest[|b| - 1..];
    }
  }

  lemma {:induction false} PackedZero(n: nat)
    ensures NoneSet(BitsOf(0, n))
  {
    NoneSetIsZero(0, n);
  }

  // ----- Positions of set bits ----------------------------------------------------------------------

  /** The positions of the set bits, where the sequence starts at `base`. */
  function Positions(b: seq<bool>, base: nat): seq<nat> {
    if b == [] then []
    else Positions(b[..|b| - 1], base) + if b[|b| - 1] then [base + |b| - 1] else []
  }

  /** They are exactly the set ones, in strictly increasing order. */
  lemma {:induction false} PositionsAreSet(b: seq<bool>, base: nat)
    ensures forall p :: p in Positions(b, base) <==> base <= p < base + |b| && b[p - base]
    ensures forall i, j | 0 <= i < j < |Positions(b, base)| :: Positions(b, base)[i] < Positions(b, base)[j]
  {
    if b != [] {
      PositionsAreSet(b[..|b| - 1], base);
      var ps := Positions(b[..|b| - 1], base);
      assert forall i | 0 <= i < |ps| :: ps[i] in ps;
    }
  }

  lemma {:induction false} PositionsOfJoin(a: seq<bool>, b: seq<bool>, base: nat)
    ensures Positions(a + b, base) == Positions(a, base) + Positions(b, base + |a|)
  {
    if b == [] {
      assert a + b == a;
    } else {
      assert (a + b)[..|a + b| - 1] == a + b[..|b| - 1];
      PositionsOfJoin(a, b[..|b| - 1], base);
    }
  }

  lemma {:induction false} NoPositions(b: seq<bool>, base: nat)
    requires NoneSet(b)
    ensures Positions(b, base) == []
  {
    if b != [] {
      NoPositions(b[..|b| - 1], base);
    }
  }

  // ----- The format ---------------------------------------------------------------------------------

  datatype Chunk = Run(bit: bool, length: nat) | Literal(word: Word)

  function RunBit(header: Word): bool {
    header % 2 == 1
  }

  function RunLength(header: Word): nat {
    header / 2 % 0x1_0000_0000 * 64
  }

  function LiteralCount(header: Word): nat {
    header / 0x2_0000_0000
  }

  function Literals(words: seq<Word>): (r: seq<Chunk>)
    ensures |r| == |words|
  {
    seq(|words|, i requires 0 <= i < |words| => Literal(words[i]))
  }

  /** The chunks of a word stream, unless literals are missing. */
  function Parse(words: seq<Word>): Option<seq<Chunk>> {
    if words == [] then Some([])
    else
      var n := LiteralCount(words[0]);
      if 1 + n > |words| then None
      else
        match Parse(words[1 + n..])
        case None => None
        case Some(rest) => Some([Run(RunBit(words[0]), RunLength(words[0]))] + Literals(words[1..1 + n]) + rest)
  }

  function ChunkBits(c: Chunk): (b: seq<bool>)
    ensures |b| == if c.Run? then c.length else 64
  {
    match c
    case Run(bit, length) => seq(length, _ => bit)
    case Literal(word) => BitsOf(word, 64)
  }

  /** The bit sequence that the chunks stand for. */
  function Content(chunks: seq<Chunk>): seq<bool> {
    if chunks == [] then [] else Content(chunks[..|chunks| - 1]) + ChunkBits(chunks[|chunks| - 1])
  }

  /** A run must end within the bitmap; a literal must start within it and set nothing beyond it. */
  predicate FitsAt(start: nat, c: Chunk, numBits: nat) {
    match c
    case Run(_, length) => length == 0 || start + length <= numBits
    case Literal(word) => start < numBits && (start + 64 > numBits ==> NoneSet(BitsOf(word, 64)[numBits - start..]))
  }

  predicate Fits(chunks: seq<Chunk>, numBits: nat) {
    chunks == [] || (
      && Fits(chunks[..|chunks| - 1], numBits)
      && FitsAt(|Content(chunks[..|chunks| - 1])|, chunks[|chunks| - 1], numBits))
  }

  /** Bits that fit are below the bit count. */
  lemma {:induction false} SetBitsAreInRange(chunks: seq<Chunk>, numBits: nat, p: nat)
    requires Fits(chunks, numBits) && p < |Content(chunks)| && Content(chunks)[p]
    ensures p < numBits
  {
    var before := Content(chunks[..|chunks| - 1]);
    if p < |before| {
      SetBitsAreInRange(chunks[..|chunks| - 1], numBits, p);
    } else {
      var b := ChunkBits(chunks[|chunks| - 1]);
      assert b[p - |before|];
    }
  }

  // ----- Iterating over the set bits ------------------------------------------------------------------

  ghost predicate AllAccepted(ps: seq<nat>, accepts: nat -> bool) {
    forall p <- ps :: accepts(p)
  }

  /** The chunks fit, and the callback accepts all their set bits. */
  ghost predicate Good(chunks: seq<Chunk>, numBits: nat, accepts: nat -> bool) {
    Fits(chunks, numBits) && AllAccepted(Positions(Content(chunks), 0), accepts)
  }

  lemma {:induction false} ContentOfJoin(a: seq<Chunk>, b: seq<Chunk>)
    ensures Content(a + b) == Content(a) + Content(b)
  {
    if b == [] {
      assert a + b == a;
    } else {
      assert (a + b)[..|a + b| - 1] == a + b[..|b| - 1];
      ContentOfJoin(a, b[..|b| - 1]);
    }
  }

  lemma {:induction false} FitsPrefix(a: seq<Chunk>, b: seq<Chunk>, numBits: nat)
    requires Fits(a + b, numBits)
    ensures Fits(a, numBits)
  {
    if b == [] {
      assert a + b == a;
    } else {
      assert (a + b)[..|a + b| - 1] == a + b[..|b| - 1];
      FitsPrefix(a, b[..|b| - 1], numBits);
    }
  }

  lemma {:induction false} GoodPrefix(a: seq<Chunk>, b: seq<Chunk>, numBits: nat, accepts: nat -> bool)
    requires Good(a + b, numBits, accepts)
    ensures Good(a, numBits, accepts)
  {
    hide Fits, Content, Positions;
    FitsPrefix(a, b, numBits);
    ContentOfJoin(a, b);
    PositionsOfJoin(Content(a), Content(b), 0);
    var ps, qs := Positions(Content(a), 0), Positions(Content(b), |Content(a)|);
    forall p | p in ps ensures accepts(p) {
      assert p in ps + qs;
    }
  }

  /** The progress of an iteration: how many bits were passed, and which were visited. */
  datatype Progress = Progress(index: nat, visited: seq<nat>)

  /** The chunks up to here are done, and good. */
  ghost predicate At(g: Progress, chunks: seq<Chunk>, numBits: nat, accepts: nat -> bool) {
    && Good(chunks, numBits, accepts)
    && g.index == (if |Content(chunks)| < numBits then |Content(chunks)| else numBits)
    && g.visited == Positions(Content(chunks), 0)
  }

  /** Calls back for each set bit, until one is refused. */
  method VisitBits(b: seq<bool>, g: Progress, accepts: nat -> bool) returns (ok: bool, r: Progress)
    ensures ok <==> AllAccepted(Positions(b, g.index), accepts)
    ensures ok ==> r == Progress(g.index + |b|, g.visited + Positions(b, g.index))
  {
    r := g;
    for i := 0 to |b|
      invariant r == Progress(g.index + i, g.visited + Positions(b[..i], g.index))
      invariant AllAccepted(Positions(b[..i], g.index), accepts)
    {
      assert b[..i + 1][..i] == b[..i];
      if b[i] {
        if !accepts(r.index) {
          PositionsAreSet(b, g.index);
          assert r.index in Positions(b, g.index);
          return false, r;
        }
        r := r.(visited := r.visited + [r.index]);
      }
      r := r.(index := r.index + 1);
    }
    assert b[..|b|] == b;
    ok := true;
  }

  /** Adding a chunk to good ones. */
  lemma {:induction false} GoodGrows(chunks: seq<Chunk>, c: Chunk, numBits: nat, accepts: nat -> bool)
    requires Good(chunks, numBits, accepts)
    ensures Content(chunks + [c]) == Content(chunks) + ChunkBits(c)
    ensures Positions(Content(chunks + [c]), 0) == Positions(Content(chunks), 0) + Positions(ChunkBits(c), |Content(chunks)|)
    ensures Good(chunks + [c], numBits, accepts) <==>
            FitsAt(|Content(chunks)|, c, numBits) && AllAccepted(Positions(ChunkBits(c), |Content(chunks)|), accepts)
  {
    hide Positions, FitsAt, ChunkBits;
    assert (chunks + [c])[..|chunks|] == chunks;
    PositionsOfJoin(Content(chunks), ChunkBits(c), 0);
    var ps, qs := Positions(Content(chunks), 0), Positions(ChunkBits(c), |Content(chunks)|);
    assert forall p :: p in ps + qs <==> p in ps || p in qs;
  }

  /** A run: every bit of it is visited if the running bit is set, none otherwise. */
  method VisitRun(header: Word, g: Progress, numBits: nat, accepts: nat -> bool, ghost chunks: seq<Chunk>)
    returns (ok: bool, r: Progress)
    requires At(g, chunks, numBits, accepts)
    ensures ok <==> Good(chunks + [Run(RunBit(header), RunLength(header))], numBits, accepts)
    ensures ok ==> At(r, chunks + [Run(RunBit(header), RunLength(header))], numBits, accepts)
  {
    hide Content, Fits, Positions, RunLength;
    var length := RunLength(header);
    ghost var run := Run(RunBit(header), length);
    GoodGrows(chunks, run, numBits, accepts);
    r := g;
    if g.index + length > numBits {
      RunIsBeyond(g, chunks, run, numBits, accepts);
      return false, r;
    }
    RunIsWithin(g, chunks, run, numBits, accepts);
    if RunBit(header) {
      ok, r := VisitBits(seq(length, _ => true), g, accepts);
      assert ChunkBits(run) == seq(length, _ => true);
    } else {
      NoPositions(ChunkBits(run), |Content(chunks)|);
      r := r.(index := g.index + length);
      ok := true;
    }
  }

  lemma RunIsBeyond(g: Progress, chunks: seq<Chunk>, run: Chunk, numBits: nat, accepts: nat -> bool)
    requires At(g, chunks, numBits, accepts) && run.Run? && g.index + run.length > numBits
    ensures !FitsAt(|Content(chunks)|, run, numBits)
  {
  }

  lemma RunIsWithin(g: Progress, chunks: seq<Chunk>, run: Chunk, numBits: nat, accepts: nat -> bool)
    requires At(g, chunks, numBits, accepts) && run.Run? && g.index + run.length <= numBits
    ensures FitsAt(|Content(chunks)|, run, numBits)
    ensures Positions(ChunkBits(run), |Content(chunks)|) == Positions(ChunkBits(run), g.index)
    ensures g.index + run.length == if |Content(chunks)| + run.length < numBits then |Content(chunks)| + run.length else numBits
  {
  }

  /** A literal, of which only the bits within the bitmap are visited. */
  method VisitLiteral(word: Word, g: Progress, numBits: nat, accepts: nat -> bool, ghost chunks: seq<Chunk>)
    returns (ok: bool, r: Progress)
    requires At(g, chunks, numBits, accepts)
    ensures ok <==> Good(chunks + [Literal(word)], numBits, accepts)
    ensures ok ==> At(r, chunks + [Literal(word)], numBits, accepts)
  {
    hide Content, Fits, Positions, BitsOf, Shift;
    GoodGrows(chunks, Literal(word), numBits, accepts);
    r := g;
    if g.index == numBits {
      return false, r;
    }
    var remaining := numBits - g.index;
    var count := if remaining < 64 then remaining else 64;
    ShiftTestsHighBits(word, count);
    if count < 64 && Shift(word, count) != 0 {
      return false, r;
    }
    LowBits(word, g.index, count);
    ok, r := VisitBits(seq(count, i requires 0 <= i < count => Shift(word, i) % 2 == 1), g, accepts);
  }

  /** Testing the lowest bits one by one sees all set bits, if the others are not set. */
  lemma {:induction false} LowBits(word: Word, base: nat, count: nat)
    requires count <= 64 && NoneSet(BitsOf(word, 64)[count..])
    ensures Positions(BitsOf(word, 64), base) ==
            Positions(seq(count, i requires 0 <= i < count => Shift(word, i) % 2 == 1), base)
  {
    hide BitsOf, Shift, Positions;
    var low := seq(count, i requires 0 <= i < count => Shift(word, i) % 2 == 1);
    forall i | 0 <= i < count ensures low[i] == BitsOf(word, 64)[i] {
      BitAt(word, 64, i);
    }
    var high := BitsOf(word, 64)[count..];
    assert BitsOf(word, 64) == low + high;
    PositionsOfJoin(low, high, base);
    NoPositions(high, base + count);
  }

  function Prepend(done: seq<Chunk>, rest: Option<seq<Chunk>>): Option<seq<Chunk>> {
    match rest
    case None => None
    case Some(chunks) => Some(done + chunks)
  }

  lemma {:induction false} PrependTwice(a: seq<Chunk>, b: seq<Chunk>, rest: Option<seq<Chunk>>)
    ensures Prepend(a, Prepend(b, rest)) == Prepend(a + b, rest)
  {
    if rest.Some? {
      assert a + (b + rest.value) == a + b + rest.value;
    }
  }

  /** Everything parsed so far is `done`; what is left is in the words from `i`. */
  ghost predicate Parsed(words: seq<Word>, i: nat, done: seq<Chunk>)
    requires i <= |words|
  {
    Parse(words) == Prepend(done, Parse(words[i..]))
  }

  /** The run of a group and its first `j` literals. */
  function GroupStart(words: seq<Word>, i: nat, j: nat): seq<Chunk>
    requires i + 1 + j <= |words|
  {
    [Run(RunBit(words[i]), RunLength(words[i]))] + Literals(words[i + 1..i + 1 + j])
  }

  function Group(words: seq<Word>, i: nat): seq<Chunk>
    requires i < |words| && i + 1 + LiteralCount(words[i]) <= |words|
  {
    GroupStart(words, i, LiteralCount(words[i]))
  }

  lemma ParseStep(words: seq<Word>)
    requires words != []
    ensures var n := LiteralCount(words[0]);
            Parse(words) == if 1 + n > |words| then None else Prepend(Group(words, 0), Parse(words[1 + n..]))
  {
  }

  lemma {:induction false} ParseGroup(words: seq<Word>, i: nat, done: seq<Chunk>)
    requires i < |words| && Parsed(words, i, done)
    ensures var n := LiteralCount(words[i]);
            if i + 1 + n > |words| then Parse(words).None? else Parsed(words, i + 1 + n, done + Group(words, i))
  {
    hide RunBit, RunLength, LiteralCount, Literals, Parse;
    var n := LiteralCount(words[i]);
    var tail := words[i..];
    ParseStep(tail);
    if i + 1 + n <= |words| {
      assert tail[1 + n..] == words[i + 1 + n..] && tail[1..1 + n] == words[i + 1..i + 1 + n];
      PrependTwice(done, Group(words, i), Parse(words[i + 1 + n..]));
    }
  }

  /** What is not good so far makes the whole stream bad. */
  lemma {:induction false} BadPrefix(words: seq<Word>, i: nat, done: seq<Chunk>, chunks: seq<Chunk>, numBits: nat, accepts: nat -> bool)
    requires i <= |words| && Parsed(words, i, done)
    requires chunks <= done && !Good(chunks, numBits, accepts)
    ensures Parse(words).Some? ==> !Good(Parse(words).value, numBits, accepts)
  {
    hide Good, Parse;
    if Parse(words).Some? && Good(Parse(words).value, numBits, accepts) {
      var all := Parse(words).value;
      assert all == chunks + all[|chunks|..];
      GoodPrefix(chunks, all[|chunks|..], numBits, accepts);
    }
  }

  /** The stream is well formed, fits the bitmap, and no set bit is refused. */
  ghost predicate Iterates(v: Bitmap, accepts: nat -> bool) {
    Parse(v.words).Some? && Good(Parse(v.words).value, v.numBits, accepts)
  }

  /** Calls back for every set bit, in order, if and only if the bitmap is well formed. */
  method ForEachSetBit(v: Bitmap, accepts: nat -> bool) returns (ok: bool, visited: seq<nat>)
    ensures ok <==> Iterates(v, accepts)
    ensures ok ==> visited == Positions(Content(Parse(v.words).value), 0)
  {
    hide Good, Parse, Parsed, Content, Positions, LiteralCount, Group;
    var g := Progress(0, []);
    var i := 0;
    ghost var done: seq<Chunk> := [];
    StartsAt(v.words, v.numBits, accepts);
    while i < |v.words|
      invariant i <= |v.words| && Parsed(v.words, i, done) && At(g, done, v.numBits, accepts)
    {
      var header := v.words[i];
      var n := LiteralCount(header);
      ParseGroup(v.words, i, done);
      ok, g := VisitGroup(v, i, g, accepts, done);
      if !ok {
        if i + 1 + n <= |v.words| {
          var group := done + Group(v.words, i);
          BadPrefix(v.words, i + 1 + n, group, group, v.numBits, accepts);
        }
        return false, g.visited;
      }
      done := done + Group(v.words, i);
      i := i + 1 + n;
    }
    EndsAt(v.words, done);
    return true, g.visited;
  }

  lemma {:induction false} StartsAt(words: seq<Word>, numBits: nat, accepts: nat -> bool)
    ensures Parsed(words, 0, []) && At(Progress(0, []), [], numBits, accepts)
  {
    assert words[0..] == words;
    if Parse(words).Some? {
      assert [] + Parse(words).value == Parse(words).value;
    }
  }

  lemma {:induction false} EndsAt(words: seq<Word>, done: seq<Chunk>)
    requires Parsed(words, |words|, done)
    ensures Parse(words) == Some(done)
  {
    assert words[|words|..] == [];
    assert done + [] == done;
  }

  lemma {:induction false} GroupGrows(words: seq<Word>, i: nat, j: nat)
    requires i + 1 + j < |words|
    ensures GroupStart(words, i, j + 1) == GroupStart(words, i, j) + [Literal(words[i + 1 + j])]
    ensures GroupStart(words, i, 0) == [Run(RunBit(words[i]), RunLength(words[i]))]
  {
    assert words[i + 1..i + 1 + j + 1] == words[i + 1..i + 1 + j] + [words[i + 1 + j]];
  }

  lemma {:induction false} BadGroup(words: seq<Word>, i: nat, j: nat, done: seq<Chunk>, numBits: nat, accepts: nat -> bool)
    requires i < |words| && j <= LiteralCount(words[i]) && i + 1 + LiteralCount(words[i]) <= |words|
    requires !Good(done + GroupStart(words, i, j), numBits, accepts)
    ensures !Good(done + Group(words, i), numBits, accepts)
  {
    hide Good, LiteralCount;
    var part, all := done + GroupStart(words, i, j), done + Group(words, i);
    assert all == part + all[|part|..];
    if Good(all, numBits, accepts) {
      GoodPrefix(part, all[|part|..], numBits, accepts);
    }
  }

  /** One header, its run and its literals. */
  method VisitGroup(v: Bitmap, i: nat, g: Progress, accepts: nat -> bool, ghost done: seq<Chunk>)
    returns (ok: bool, r: Progress)
    requires i < |v.words| && At(g, done, v.numBits, accepts)
    ensures var n := LiteralCount(v.words[i]);
            if i + 1 + n > |v.words| then !ok
            else var group := done + Group(v.words, i);
                 (ok <==> Good(group, v.numBits, accepts)) && (ok ==> At(r, group, v.numBits, accepts))
  {
    hide Good, At, LiteralCount, RunBit, RunLength, Literals;
    var n := LiteralCount(v.words[i]);
    ok, r := VisitRun(v.words[i], g, v.numBits, accepts, done);
    assert GroupStart(v.words, i, 0) == [Run(RunBit(v.words[i]), RunLength(v.words[i]))];
    if !ok {
      if i + 1 + n <= |v.words| {
        BadGroup(v.words, i, 0, done, v.numBits, accepts);
      }
      return;
    }
    for j := 0 to n
      invariant i + 1 + j <= |v.words| && At(r, done + GroupStart(v.words, i, j), v.numBits, accepts)
    {
      if i + 1 + j == |v.words| {
        return false, r;
      }
      GroupGrows(v.words, i, j);
      ok, r := VisitLiteral(v.words[i + 1 + j], r, v.numBits, accepts, done + GroupStart(v.words, i, j));
      assert done + GroupStart(v.words, i, j + 1) == done + GroupStart(v.words, i, j) + [Literal(v.words[i + 1 + j])];
      if !ok {
        if i + 1 + n <= |v.words| {
          BadGroup(v.words, i, j + 1, done, v.numBits, accepts);
        }
        return;
      }
    }
    AtIsGood(r, done + Group(v.words, i), v.numBits, accepts);
    ok := true;
  }

  lemma AtIsGood(g: Progress, chunks: seq<Chunk>, numBits: nat, accepts: nat -> bool)
    requires At(g, chunks, numBits, accepts)
    ensures Good(chunks, numBits, accepts)
  {
  }

  /** The visited positions are exactly the set bits, strictly increasing, and below the bit count. */
  lemma {:induction false} VisitedAreSet(v: Bitmap, accepts: nat -> bool)
    requires Iterates(v, accepts)
    ensures var bits := Content(Parse(v.words).value);
            var visited := Positions(bits, 0);
            && (forall p: nat :: p in visited <==> p < |bits| && bits[p])
            && (forall p <- visited :: p < v.numBits)
            && (forall i, j | 0 <= i < j < |visited| :: visited[i] < visited[j])
  {
    hide Parse, Content, Positions, Fits;
    var chunks := Parse(v.words).value;
    var bits := Content(chunks);
    PositionsAreSet(bits, 0);
    forall p | p in Positions(bits, 0) ensures p < v.numBits {
      SetBitsAreInRange(chunks, v.numBits, p);
    }
  }

  // ----- Building a bitmap ----------------------------------------------------------------------------

  /** Sixty-four bits to a word, the last one padded. */
  function PackWords(b: seq<bool>): (r: seq<Word>)
    ensures |r| == (|b| + 63) / 64
  {
    if b == [] then []
    else
      var n := if |b| < 64 then |b| else 64;
      [PackWord(b[..n])] + PackWords(b[n..])
  }

  function PackWord(b: seq<bool>): Word
    requires |b| <= 64
  {
    PackedIsWord(b);
    Pack(b)
  }

  lemma {:induction false} PackedIsWord(b: seq<bool>)
    requires |b| <= 64
    ensures Pack(b) < 0x1_0000_0000_0000_0000
  {
    PackFits(b);
    PowerOfWord();
    PowerAdds(|b|, 64 - |b|);
    assert Power(|b|) <= Power(|b|) * Power(64 - |b|);
  }

  /** A single header with an empty run, followed by literals. */
  function FromBits(b: seq<bool>): Option<Bitmap> {
    if |b| > U32_MAX then None
    else Some(Bitmap(|b|, [|PackWords(b)| * 0x2_0000_0000] + PackWords(b), 0))
  }

  /** The literals stand for the bits, padded with zeros, and fit. */
  lemma {:induction false} LiteralsArePacked(chunks: seq<Chunk>, b: seq<bool>, numBits: nat) returns (padding: seq<bool>)
    requires Fits(chunks, numBits) && |Content(chunks)| + |b| == numBits
    ensures NoneSet(padding)
    ensures Content(chunks + Literals(PackWords(b))) == Content(chunks) + b + padding
    ensures Fits(chunks + Literals(PackWords(b)), numBits)
    decreases |b|
  {
    hide Content, Fits, Literals, PackWords, PackWord, BitsOf;
    PackWordsStep(chunks, b);
    if b == [] {
      padding := [];
      assert Content(chunks) + b + padding == Content(chunks);
    } else {
      var n := if |b| < 64 then |b| else 64;
      padding := PackedLiteral(chunks, b[..n], numBits);
      var next := chunks + [Literal(PackWord(b[..n]))];
      if n == 64 {
        var rest := LiteralsArePacked(next, b[n..], numBits);
        Rejoin(Content(chunks), b, n, rest);
        padding := rest;
      } else {
        assert b[..n] == b && b[n..] == [];
        PackWordsStep(next, b[n..]);
      }
    }
  }

  lemma {:induction false} Rejoin(a: seq<bool>, b: seq<bool>, n: nat, c: seq<bool>)
    requires n <= |b|
    ensures a + b[..n] + [] + b[n..] + c == a + b + c && a + b[..n] + [] == a + b[..n]
  {
    assert b == b[..n] + b[n..];
  }

  lemma {:induction false} PackWordsStep(chunks: seq<Chunk>, b: seq<bool>)
    ensures b == [] ==> chunks + Literals(PackWords(b)) == chunks
    ensures b != [] ==>
              var n := if |b| < 64 then |b| else 64;
              chunks + Literals(PackWords(b)) == chunks + [Literal(PackWord(b[..n]))] + Literals(PackWords(b[n..]))
  {
    hide Pack, PackWord;
    if b == [] {
      assert Literals(PackWords(b)) == [];
    } else {
      var n := if |b| < 64 then |b| else 64;
      LiteralsStep(PackWord(b[..n]), PackWords(b[n..]));
      assert PackWords(b) == [PackWord(b[..n])] + PackWords(b[n..]);
    }
  }

  lemma LiteralsStep(word: Word, rest: seq<Word>)
    ensures Literals([word] + rest) == [Literal(word)] + Literals(rest)
  {
  }

  /** A packed literal at the end of the bits, or with a full word of them. */
  lemma {:induction false} PackedLiteral(chunks: seq<Chunk>, b: seq<bool>, numBits: nat) returns (padding: seq<bool>)
    requires Fits(chunks, numBits) && 0 < |b| <= 64 && |Content(chunks)| + |b| <= numBits
    requires |b| < 64 ==> |Content(chunks)| + |b| == numBits
    ensures NoneSet(padding) && |padding| == 64 - |b|
    ensures Content(chunks + [Literal(PackWord(b))]) == Content(chunks) + b + padding
    ensures Fits(chunks + [Literal(PackWord(b))], numBits)
  {
    hide Pack, BitsOf;
    PackRoundTrip(b, 64);
    var bits := BitsOf(PackWord(b), 64);
    padding := bits[|b|..];
    assert bits == b + padding;
    var next := chunks + [Literal(PackWord(b))];
    assert next[..|chunks|] == chunks;
    assert Content(chunks) + (b + padding) == Content(chunks) + b + padding;
  }

  /** Iterating over a bitmap built from bits visits exactly the set ones. */
  lemma {:induction false} FromBitsRoundTrip(b: seq<bool>, accepts: nat -> bool)
    requires FromBits(b).Some?
    ensures WellSized(FromBits(b).value)
    ensures Iterates(FromBits(b).value, accepts) <==> AllAccepted(Positions(b, 0), accepts)
    ensures Parse(FromBits(b).value.words).Some? && Positions(Content(Parse(FromBits(b).value.words).value), 0) == Positions(b, 0)
  {
    hide PackWords, Literals, Positions, Fits, Content;
    var words := FromBits(b).value.words;
    var literals := Literals(PackWords(b));
    OnlyLiterals(words, PackWords(b));
    EmptyRun(|b|);
    var padding := LiteralsArePacked([Run(false, 0)], b, |b|);
    PositionsOfJoin(b, padding, 0);
    NoPositions(padding, |b|);
    assert [] + b + padding == b + padding;
    assert Positions(b, 0) + [] == Positions(b, 0);
  }

  lemma {:induction false} EmptyRun(numBits: nat)
    ensures Content([Run(false, 0)]) == [] && Fits([Run(false, 0)], numBits)
  {
    assert [Run(false, 0)][..0] == [];
  }

  lemma {:induction false} OnlyLiterals(words: seq<Word>, rest: seq<Word>)
    requires |rest| * 0x2_0000_0000 < 0x1_0000_0000_0000_0000 && words == [|rest| * 0x2_0000_0000] + rest
    ensures Parse(words) == Some([Run(false, 0)] + Literals(rest))
  {
    hide Literals;
    assert LiteralCount(words[0]) == |rest| && RunLength(words[0]) == 0 && !RunBit(words[0]);
    assert words[1..1 + |rest|] == rest && words[1 + |rest|..] == [];
    assert [Run(false, 0)] + Literals(rest) + [] == [Run(false, 0)] + Literals(rest);
  }

  // ----- Bytes ----------------------------------------------------------------------------------------

  /** A number in `n` bytes, most significant first. */
  function ToBytes(x: nat, n: nat): (r: seq<Byte>)
    ensures |r| == n
  {
    if n == 0 then [] else ToBytes(x / 256, n - 1) + [x % 256]
  }

  function FromBytes(s: seq<Byte>): nat {
    if s == [] then 0 else FromBytes(s[..|s| - 1]) * 256 + s[|s| - 1]
  }

  function Limit(n: nat): nat {
    if n == 0 then 1 else 256 * Limit(n - 1)
  }

  lemma {:induction false} BytesOfNumber(x: nat, n: nat)
    requires x < Limit(n)
    ensures FromBytes(ToBytes(x, n)) == x
  {
    if n > 0 {
      BytesOfNumber(x / 256, n - 1);
    }
  }

  lemma {:induction false} NumberOfBytes(s: seq<Byte>)
    ensures FromBytes(s) < Limit(|s|) && ToBytes(FromBytes(s), |s|) == s
  {
    if s != [] {
      NumberOfBytes(s[..|s| - 1]);
    }
  }

  lemma Limits()
    ensures Limit(4) == U32_MAX + 1 && Limit(8) == 0x1_0000_0000_0000_0000
  {
  }

  function WordBytes(words: seq<Word>): (r: seq<Byte>)
    ensures |r| == 8 * |words|
  {
    if words == [] then [] else WordBytes(words[..|words| - 1]) + ToBytes(words[|words| - 1], 8)
  }

  /** The serialized form. */
  function Encoded(v: Bitmap): seq<Byte> {
    ToBytes(v.numBits, 4) + ToBytes(|v.words|, 4) + WordBytes(v.words) + ToBytes(v.rlw, 4)
  }

  /** Only bitmaps whose word count and offset are 32 bits wide can be written. */
  predicate Writable(v: Bitmap) {
    v.numBits <= U32_MAX && |v.words| <= U32_MAX && v.rlw <= U32_MAX
  }

  method WriteTo(v: Bitmap) returns (r: Option<seq<Byte>>)
    requires WellSized(v)
    ensures r.Some? <==> Writable(v)
    ensures r.Some? ==> r.value == Encoded(v)
  {
    if |v.words| > U32_MAX || v.rlw > U32_MAX {
      return None;
    }
    var out := ToBytes(v.numBits, 4);
    out := out + ToBytes(|v.words|, 4);
    for i := 0 to |v.words|
      invariant out == ToBytes(v.numBits, 4) + ToBytes(|v.words|, 4) + WordBytes(v.words[..i])
    {
      assert v.words[..i + 1][..i] == v.words[..i];
      out := out + ToBytes(v.words[i], 8);
    }
    assert v.words[..|v.words|] == v.words;
    r := Some(out + ToBytes(v.rlw, 4));
  }

  datatype Decoded = Decoded(bitmap: Bitmap, rest: seq<Byte>)

  method ReadU32(data: seq<Byte>) returns (r: Option<(nat, seq<Byte>)>)
    ensures r.None? <==> |data| < 4
    ensures r.Some? ==> r.value.0 <= U32_MAX && data == ToBytes(r.value.0, 4) + r.value.1
  {
    if |data| < 4 {
      return None;
    }
    Limits();
    NumberOfBytes(data[..4]);
    r := Some((FromBytes(data[..4]), data[4..]));
  }

  /** Decoding undoes encoding: it succeeds on exactly the serialized bitmaps with anything after them. */
  method Decode(data: seq<Byte>) returns (r: Option<Decoded>)
    ensures r.Some? ==> Writable(r.value.bitmap) && data == Encoded(r.value.bitmap) + r.value.rest
    ensures r.None? ==> !exists v, rest :: Writable(v) && data == Encoded(v) + rest
  {
    hide ToBytes, FromBytes;
    r := None;
    var bits := ReadU32(data);
    if bits.None? {
      return;
    }
    var len := ReadU32(bits.value.1);
    if len.None? {
      return;
    }
    var size := len.value.0 * 8;
    var body := len.value.1;
    if |body| < size + 4 {
      TooShort(data, bits.value.0, len.value.0, body);
      return;
    }
    var words := ReadWords(body[..size]);
    var rlw := ReadU32(body[size..]);
    var v := Bitmap(bits.value.0, words, rlw.value.0);
    assert body == WordBytes(words) + (ToBytes(v.rlw, 4) + rlw.value.1);
    Regroup(v, data, body, rlw.value.1);
    r := Some(Decoded(v, rlw.value.1));
  }

  lemma {:induction false} Regroup(v: Bitmap, data: seq<Byte>, body: seq<Byte>, rest: seq<Byte>)
    requires body == WordBytes(v.words) + (ToBytes(v.rlw, 4) + rest)
    requires data == ToBytes(v.numBits, 4) + (ToBytes(|v.words|, 4) + body)
    ensures data == Encoded(v) + rest
  {
    hide ToBytes, WordBytes;
  }

  lemma {:induction false} TooShort(data: seq<Byte>, numBits: nat, len: nat, body: seq<Byte>)
    requires data == ToBytes(numBits, 4) + (ToBytes(len, 4) + body) && len <= U32_MAX && |body| < len * 8 + 4
    ensures !exists v, rest :: Writable(v) && data == Encoded(v) + rest
  {
    hide ToBytes, WordBytes;
    forall v, rest | Writable(v) && data == Encoded(v) + rest ensures false {
      Limits();
      assert ToBytes(len, 4) == data[4..8] == ToBytes(|v.words|, 4);
      BytesOfNumber(len, 4);
      BytesOfNumber(|v.words|, 4);
    }
  }

  method ReadWords(data: seq<Byte>) returns (words: seq<Word>)
    requires |data| % 8 == 0
    ensures |words| == |data| / 8 && WordBytes(words) == data
  {
    hide ToBytes, FromBytes;
    var bits := data;
    words := [];
    while bits != []
      invariant |bits| % 8 == 0 && WordBytes(words) + bits == data
      decreases |bits|
    {
      Limits();
      NumberOfBytes(bits[..8]);
      var word: Word := FromBytes(bits[..8]);
      assert (words + [word])[..|words|] == words;
      words := words + [word];
      bits := bits[8..];
    }
  }

  /** The bytes determine the bitmap and what follows it. */
  lemma {:induction false} DecodingIsUnique(v: Bitmap, rest: seq<Byte>, w: Bitmap, rest': seq<Byte>)
    requires Writable(v) && Writable(w) && Encoded(v) + rest == Encoded(w) + rest'
    ensures v == w && rest == rest'
  {
    hide ToBytes, FromBytes, WordBytes;
    Limits();
    var data := Encoded(v) + rest;
    assert ToBytes(v.numBits, 4) == data[..4] == ToBytes(w.numBits, 4);
    assert ToBytes(|v.words|, 4) == data[4..8] == ToBytes(|w.words|, 4);
    BytesOfNumber(v.numBits, 4);
    BytesOfNumber(w.numBits, 4);
    BytesOfNumber(|v.words|, 4);
    BytesOfNumber(|w.words|, 4);
    var end := 8 + 8 * |v.words|;
    assert WordBytes(v.words) == data[8..end] == WordBytes(w.words);
    WordBytesDiffer(v.words, w.words);
    assert ToBytes(v.rlw, 4) == data[end..end + 4] == ToBytes(w.rlw, 4);
    BytesOfNumber(v.rlw, 4);
    BytesOfNumber(w.rlw, 4);
    assert rest == data[end + 4..] == rest';
  }

  lemma {:induction false} WordBytesDiffer(v: seq<Word>, w: seq<Word>)
    requires |v| == |w| && WordBytes(v) == WordBytes(w)
    ensures v == w
  {
    hide ToBytes, FromBytes;
    if v != [] {
      var n := |v| - 1;
      Limits();
      assert WordBytes(v[..n]) == WordBytes(v)[..8 * n] == WordBytes(w[..n]);
      WordBytesDiffer(v[..n], w[..n]);
      assert ToBytes(v[n], 8) == WordBytes(v)[8 * n..] == ToBytes(w[n], 8);
      BytesOfNumber(v[n], 8);
      BytesOfNumber(w[n], 8);
    }
  }

  // ----- What the bytes and words mean ----------------------------------------------------------------

  /** A header holds the running bit, the length of the run in words, and the number of literals. */
  lemma {:induction false} HeaderFields(header: Word, bit: nat, run: nat, literals: nat)
    requires bit < 2 && run < 0x1_0000_0000 && header == bit + 2 * run + 0x2_0000_0000 * literals
    ensures RunBit(header) == (bit == 1) && RunLength(header) == 64 * run && LiteralCount(header) == literals
  {
    assert header / 2 == run + 0x1_0000_0000 * literals;
  }

  /** A run of set words sets exactly sixty-four bits a word. */
  lemma {:induction false} RunOfWords(run: nat)
    requires run < 0x1_0000_0000
    ensures Parse([1 + 2 * run]) == Some([Run(true, 64 * run)])
    ensures Content([Run(true, 64 * run)]) == seq(64 * run, _ => true)
  {
    HeaderFields(1 + 2 * run, 1, run, 0);
    var words: seq<Word> := [1 + 2 * run];
    assert words[1..] == [] && words[1..1] == [];
    assert [Run(true, 64 * run)] + Literals([]) + [] == [Run(true, 64 * run)];
    assert [Run(true, 64 * run)][..0] == [];
  }

  /** Numbers are written with the most significant byte first. */
  lemma {:induction false} MostSignificantFirst(x: nat, n: nat, high: Byte, low: nat)
    requires low < Limit(n) && x == high * Limit(n) + low
    ensures ToBytes(x, n + 1) == [high] + ToBytes(low, n)
    decreases n
  {
    if n > 0 {
      var m := high * Limit(n - 1);
      assert high * Limit(n) == 256 * m;
      assert x / 256 == m + low / 256 && x % 256 == low % 256;
      MostSignificantFirst(x / 256, n - 1, high, low / 256);
      assert ([high] + ToBytes(low / 256, n - 1)) + [low % 256] == [high] + (ToBytes(low / 256, n - 1) + [low % 256]);
    } else {
      assert ToBytes(x / 256, 0) == [];
    }
  }
}
