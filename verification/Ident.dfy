/**
 The `$Id$` filter. `Apply` expands every `$Id$` on checkout and `Undo` collapses every `$Id:...$`
 on checkin; strings hold one byte a character.
 */
module Ident {
  import opened Wrappers

  const COLLAPSED := "$Id$"
  const OPENING := "$Id:"

  predicate StartsWith(s: string, prefix: string) {
    |prefix| <= |s| && s[..|prefix|] == prefix
  }

  /** The marker starts at none of the first `k` positions. */
  ghost predicate Absent(s: string, marker: string, k: nat)
    requires k <= |s| + 1
  {
    forall j | 0 <= j < k :: !StartsWith(s[j..], marker)
  }

  /** A hash in hexadecimal has neither a dollar nor a newline. */
  predicate Plain(s: string) {
    forall i | 0 <= i < |s| :: s[i] != '$' && s[i] != '\n'
  }

  function Expansion(hex: string): string {
    OPENING + " " + hex + "$"
  }

  /** The position of the first dollar or newline, or the length of the text. */
  function FirstStop(s: string): (e: nat)
    ensures e <= |s| && forall i | 0 <= i < e :: s[i] != '$' && s[i] != '\n'
    ensures e < |s| ==> s[e] == '$' || s[e] == '\n'
  {
    if s == "" || s[0] == '$' || s[0] == '\n' then 0 else 1 + FirstStop(s[1..])
  }

  // ----- What the filters compute ---------------------------------------------------------------

  function Applied(s: string, hex: string): string {
    if s == "" then ""
    else if StartsWith(s, COLLAPSED) then Expansion(hex) + Applied(s[4..], hex)
    else [s[0]] + Applied(s[1..], hex)
  }

  function Undone(s: string): string {
    if s == "" then ""
    else if StartsWith(s, OPENING) then
      var end := 4 + FirstStop(s[4..]);
      if end == |s| then s
      else if s[end] == '\n' then s[..end + 1] + Undone(s[end + 1..])
      else COLLAPSED + Undone(s[end + 1..])
    else [s[0]] + Undone(s[1..])
  }

  /** An expanded identifier stands at position `p`. */
  predicate Expanded(s: string, p: nat)
    requires p <= |s|
  {
    StartsWith(s[p..], OPENING) && var end := p + 4 + FirstStop(s[p + 4..]); end < |s| && s[end] == '$'
  }

  /** There is nothing to undo. */
  ghost predicate Unaltered(s: string) {
    forall p | 0 <= p <= |s| :: !Expanded(s, p)
  }

  // ----- Text without a marker is kept ------------------------------------------------------------

  lemma FirstStopIs(s: string, e: nat)
    requires e <= |s| && (forall i | 0 <= i < e :: s[i] != '$' && s[i] != '\n') && (e == |s| || s[e] == '$' || s[e] == '\n')
    ensures FirstStop(s) == e
  {
  }

  lemma {:induction false} AbsentTail(s: string, marker: string, k: nat)
    requires 0 < k <= |s| && Absent(s, marker, k)
    ensures !StartsWith(s, marker) && Absent(s[1..], marker, k - 1)
  {
    hide StartsWith;
    assert s[0..] == s;
    forall j | 0 <= j < k - 1 ensures !StartsWith(s[1..][j..], marker) {
      assert s[1..][j..] == s[j + 1..];
    }
  }

  lemma {:induction false} Unskip(s: string, k: nat, tail: string)
    requires 0 < k <= |s|
    ensures [s[0]] + (s[1..][..k - 1] + tail) == s[..k] + tail && s[1..][k - 1..] == s[k..]
  {
    assert s[..k] == [s[0]] + s[1..][..k - 1];
  }

  lemma AppliedChar(s: string, hex: string)
    requires s != "" && !StartsWith(s, COLLAPSED)
    ensures Applied(s, hex) == [s[0]] + Applied(s[1..], hex)
  {
  }

  lemma UndoneChar(s: string)
    requires s != "" && !StartsWith(s, OPENING)
    ensures Undone(s) == [s[0]] + Undone(s[1..])
  {
  }

  lemma {:induction false} AppliedSkips(s: string, k: nat, hex: string)
    requires k <= |s| && Absent(s, COLLAPSED, k)
    ensures Applied(s, hex) == s[..k] + Applied(s[k..], hex)
  {
    hide Absent, StartsWith, Applied;
    if k == 0 {
      assert s[0..] == s;
    } else {
      AbsentTail(s, COLLAPSED, k);
      AppliedChar(s, hex);
      AppliedSkips(s[1..], k - 1, hex);
      Unskip(s, k, Applied(s[k..], hex));
    }
  }

  lemma {:induction false} UndoneSkips(s: string, k: nat)
    requires k <= |s| && Absent(s, OPENING, k)
    ensures Undone(s) == s[..k] + Undone(s[k..])
  {
    hide Absent, StartsWith, Undone;
    if k == 0 {
      assert s[0..] == s;
    } else {
      AbsentTail(s, OPENING, k);
      UndoneChar(s);
      UndoneSkips(s[1..], k - 1);
      Unskip(s, k, Undone(s[k..]));
    }
  }

  /** After an opening, nothing starts up to the stop. */
  lemma {:induction false} AppliedSkipsOpening(s: string, k: nat, hex: string)
    requires StartsWith(s, OPENING) && 4 <= k <= |s| && (forall j | 4 <= j < k :: s[j] != '$')
    ensures Applied(s, hex) == s[..k] + Applied(s[k..], hex)
  {
    forall j | 0 <= j < k ensures !StartsWith(s[j..], COLLAPSED) {
      assert s[j..][0] == s[j];
      if j < 4 {
        assert s[j] == OPENING[j];
      }
    }
    AppliedSkips(s, k, hex);
  }

  // ----- The round trip ---------------------------------------------------------------------------

  lemma {:induction false} UnalteredSuffix(s: string, k: nat)
    requires Unaltered(s) && k <= |s|
    ensures Unaltered(s[k..])
  {
    forall p | 0 <= p <= |s[k..]| ensures !Expanded(s[k..], p) {
      assert s[k..][p..] == s[k + p..];
      if StartsWith(s[k + p..], OPENING) {
        assert s[k..][p + 4..] == s[k + p + 4..];
      }
      assert !Expanded(s, k + p);
    }
  }

  /** Expanding keeps the first character, so it opens no identifier that was not there. */
  lemma AppliedStart(s: string, hex: string)
    ensures s == "" <==> Applied(s, hex) == ""
    ensures s != "" ==> Applied(s, hex)[0] == s[0]
    ensures s != "" && s[0] != '$' ==> Applied(s, hex)[1..] == Applied(s[1..], hex)
  {
  }

  lemma {:induction false} OpensOnlyWhereOpened(s: string, hex: string)
    requires s != "" && !StartsWith(s, COLLAPSED) && StartsWith(Applied(s, hex), OPENING)
    ensures StartsWith(s, OPENING)
  {
    var a := Applied(s, hex);
    assert a[0] == a[..4][0] && a[1] == a[..4][1] && a[2] == a[..4][2] && a[3] == a[..4][3];
    assert s[0] == '$';
    AppliedSecond(s[1..], a[1..], hex);
    AppliedSecond(s[2..], a[2..], hex);
    AppliedStart(s[3..], hex);
  }

  lemma {:induction false} AppliedSecond(s: string, a: string, hex: string)
    requires a == Applied(s, hex) && a != "" && a[0] != '$'
    ensures s != "" && s[0] == a[0] && a[1..] == Applied(s[1..], hex)
  {
    AppliedStart(s, hex);
  }

  lemma {:induction false} UndoneExpansion(hex: string, rest: string)
    requires Plain(hex)
    ensures Undone(Expansion(hex) + rest) == COLLAPSED + Undone(rest)
  {
    var s := Expansion(hex) + rest;
    assert s[..4] == OPENING;
    var tail := " " + hex + "$" + rest;
    assert s[4..] == tail;
    assert tail[..1 + |hex|] == " " + hex;
    FirstStopIs(tail, 1 + |hex|);
    assert s[4 + 1 + |hex| + 1..] == rest;
  }

  lemma {:induction false} UndoneLine(line: string, rest: string)
    requires StartsWith(line, OPENING) && |line| > 4 && line[|line| - 1] == '\n' && Plain(line[4..|line| - 1])
    ensures Undone(line + rest) == line + Undone(rest)
  {
    var s := line + rest;
    assert s[..4] == OPENING;
    assert s[4..][..|line| - 5] == line[4..|line| - 1];
    FirstStopIs(s[4..], |line| - 5);
    assert s[..|line|] == line && s[|line|..] == rest;
  }

  lemma UndoneUnterminated(s: string)
    requires StartsWith(s, OPENING) && FirstStop(s[4..]) == |s| - 4
    ensures Undone(s) == s
  {
  }

  /** Undoing what was applied restores every text that has nothing to undo. */
  lemma {:induction false} UndoneApplied(s: string, hex: string)
    requires Plain(hex) && Unaltered(s)
    ensures Undone(Applied(s, hex)) == s
    decreases |s|, 1
  {
    if s == "" {
    } else if StartsWith(s, COLLAPSED) {
      UnalteredSuffix(s, 4);
      UndoneApplied(s[4..], hex);
      UndoneExpansion(hex, Applied(s[4..], hex));
      assert s == COLLAPSED + s[4..];
    } else if StartsWith(s, OPENING) {
      UndoneAppliedOpening(s, hex);
    } else {
      UnalteredSuffix(s, 1);
      UndoneApplied(s[1..], hex);
      if StartsWith(Applied(s, hex), OPENING) {
        OpensOnlyWhereOpened(s, hex);
      }
      assert Applied(s, hex)[1..] == Applied(s[1..], hex);
    }
  }

  lemma {:induction false} UndoneAppliedOpening(s: string, hex: string)
    requires Plain(hex) && Unaltered(s) && StartsWith(s, OPENING)
    ensures Undone(Applied(s, hex)) == s
    decreases |s|, 0
  {
    hide Undone, Applied;
    AppliedStart("", hex);
    assert s[0..] == s;
    assert !Expanded(s, 0);
    var end := 4 + FirstStop(s[4..]);
    forall j | 4 <= j < end ensures s[j] != '$' && s[j] != '\n' {
      assert s[j] == s[4..][j - 4];
    }
    if end == |s| {
      AppliedSkipsOpening(s, end, hex);
      assert s[end..] == "" && s[..end] == s && Applied(s, hex) == s;
      UndoneUnterminated(s);
    } else {
      AppliedSkipsOpening(s, end + 1, hex);
      UnalteredSuffix(s, end + 1);
      UndoneApplied(s[end + 1..], hex);
      assert s[..end + 1][..4] == s[..4];
      assert Plain(s[..end + 1][4..end]) by {
        assert s[..end + 1][4..end] == s[4..][..end - 4];
      }
      UndoneLine(s[..end + 1], Applied(s[end + 1..], hex));
    }
  }

  // ----- The filters ------------------------------------------------------------------------------

  function Find(s: string, needle: string): (r: Option<nat>)
    ensures r.Some? ==> r.value + |needle| <= |s| && StartsWith(s[r.value..], needle)
    ensures r.Some? ==> Absent(s, needle, r.value)
    ensures r.None? ==> Absent(s, needle, |s|) && Absent(s, needle, |s| + 1)
  {
    FindFrom(s, needle, 0)
  }

  function FindFrom(s: string, needle: string, from: nat): (r: Option<nat>)
    requires from <= |s|
    ensures r.Some? ==> from <= r.value && r.value + |needle| <= |s| && StartsWith(s[r.value..], needle)
    ensures r.Some? ==> forall j | from <= j < r.value :: !StartsWith(s[j..], needle)
    ensures r.None? ==> forall j | from <= j <= |s| :: !StartsWith(s[j..], needle)
    decreases |s| - from
  {
    if StartsWith(s[from..], needle) then Some(from)
    else if from == |s| then None
    else FindFrom(s, needle, from + 1)
  }

  datatype Range = Range(start: nat, end: nat)

  lemma {:induction false} ExpandedIn(s: string, ofs: nat, p: nat)
    requires ofs + p <= |s|
    ensures Expanded(s[ofs..], p) <==> Expanded(s, ofs + p)
  {
    assert s[ofs..][p..] == s[ofs + p..];
    if StartsWith(s[ofs + p..], OPENING) {
      assert s[ofs..][p + 4..] == s[ofs + p + 4..];
    }
  }

  /** Nothing expanded starts at a position where no identifier opens or inside a line. */
  lemma {:induction false} NothingExpanded(s: string, ofs: nat, start: nat, end: nat)
    requires ofs <= start <= |s| && Absent(s[ofs..], OPENING, start - ofs)
    requires start == end == |s| || (start + 4 <= end <= |s| && StartsWith(s[start..], OPENING)
             && (forall j | start + 4 <= j < end :: s[j] != '$'))
    requires start < |s| ==> !Expanded(s, start)
    ensures forall p | ofs <= p < end :: !Expanded(s, p)
  {
    forall p | ofs <= p < end ensures !Expanded(s, p) {
      assert s[p..][0] == s[p];
      if p < start {
        assert s[ofs..][p - ofs..] == s[p..];
      } else if start < p < start + 4 {
        assert s[p] == s[start..][..4][p - start];
      }
    }
  }

  /** What skipping to an opening and over its line leaves to undo. */
  lemma {:induction false} UndoneFrom(s: string, ofs: nat, start: nat)
    requires ofs <= start <= |s| && Absent(s[ofs..], OPENING, start - ofs)
    requires Undone(s) == s[..ofs] + Undone(s[ofs..])
    ensures Undone(s) == s[..start] + Undone(s[start..])
  {
    hide Undone, Absent;
    UndoneSkips(s[ofs..], start - ofs);
    assert s[ofs..][start - ofs..] == s[start..];
    Regroup(s, ofs, start, Undone(s[start..]));
  }

  lemma Regroup(s: string, ofs: nat, start: nat, tail: string)
    requires ofs <= start <= |s|
    ensures s[..ofs] + (s[ofs..][..start - ofs] + tail) == s[..start] + tail
  {
  }

  /** The range is where the first change is undone, or there is none. */
  ghost predicate Finds(input: string, r: Option<Range>) {
    match r
    case None => Unaltered(input) && Undone(input) == input
    case Some(Range(start, end)) =>
      && start < end <= |input| && Expanded(input, start)
      && Undone(input) == input[..start] + COLLAPSED + Undone(input[end..])
  }

  /** The first expanded identifier, if there is one. */
  method FindRange(input: string) returns (r: Option<Range>)
    ensures Finds(input, r)
  {
    hide Find, FindFrom, Finds, Scanned, Undone, FirstStop, Absent, StartsWith;
    var ofs := 0;
    ScanStarts(input);
    while true
      invariant ofs <= |input| && Scanned(input, ofs)
      decreases |input| - ofs
    {
      var found := Find(input[ofs..], OPENING);
      if found.None? {
        NoneLeft(input, ofs);
        return None;
      }
      var start := ofs + found.value;
      var end := start + 4 + FirstStop(input[start + 4..]);
      ScanStep(input, ofs, start, end);
      if end == |input| {
        return None;
      } else if input[end] == '\n' {
        ofs := end + 1;
      } else {
        return Some(Range(start, end + 1));
      }
    }
  }

  /** Nothing is to be undone before `ofs`. */
  ghost predicate Scanned(s: string, ofs: nat)
    requires ofs <= |s|
  {
    Undone(s) == s[..ofs] + Undone(s[ofs..]) && forall p | 0 <= p < ofs :: !Expanded(s, p)
  }

  lemma {:induction false} ScanStarts(s: string)
    ensures Scanned(s, 0)
  {
    assert s[0..] == s;
  }

  lemma {:induction false} ScanStep(s: string, ofs: nat, start: nat, end: nat)
    requires ofs <= start <= start + 4 <= |s| && Scanned(s, ofs) && Absent(s[ofs..], OPENING, start - ofs)
    requires StartsWith(s[ofs..][start - ofs..], OPENING) && end == start + 4 + FirstStop(s[start + 4..])
    ensures end == |s| ==> Finds(s, None)
    ensures end < |s| && s[end] == '\n' ==> Scanned(s, end + 1)
    ensures end < |s| && s[end] != '\n' ==> Finds(s, Some(Range(start, end + 1)))
  {
    hide Finds, Scanned, Undone, FirstStop, Expanded, Absent, StartsWith, Unaltered;
    assert s[ofs..][start - ofs..] == s[start..];
    StopAfterOpening(s, start, end);
    ScanTo(s, ofs, start, end);
    if end == |s| {
      ScanEnds(s, start);
    } else if s[end] == '\n' {
      ScanLine(s, start, end);
    } else {
      ScanFinds(s, start, end);
    }
  }

  /** What is before an opening is kept, and nothing expanded starts before its stop. */
  lemma {:induction false} ScanTo(s: string, ofs: nat, start: nat, end: nat)
    requires ofs <= start <= start + 4 <= end <= |s| && Scanned(s, ofs) && Absent(s[ofs..], OPENING, start - ofs)
    requires StartsWith(s[start..], OPENING) && forall j | start + 4 <= j < end :: s[j] != '$'
    ensures Undone(s) == s[..start] + Undone(s[start..])
    ensures !Expanded(s, start) ==> forall p | 0 <= p < end :: !Expanded(s, p)
  {
    hide Undone, Expanded, Absent, StartsWith;
    UndoneFrom(s, ofs, start);
    if !Expanded(s, start) {
      NothingExpanded(s, ofs, start, end);
    }
  }

  lemma {:induction false} ScanEnds(s: string, start: nat)
    requires start <= |s| && Undone(s) == s[..start] + Undone(s[start..]) && Undone(s[start..]) == s[start..]
    requires forall p | 0 <= p < |s| :: !Expanded(s, p)
    ensures Finds(s, None)
  {
    hide Undone, Expanded, Unaltered;
    NothingLeft(s);
    assert s[..start] + s[start..] == s;
  }

  lemma {:induction false} ScanLine(s: string, start: nat, end: nat)
    requires start <= end < |s| && s[end] == '\n' && Undone(s) == s[..start] + Undone(s[start..])
    requires Undone(s[start..]) == s[start..end + 1] + Undone(s[end + 1..])
    requires forall p | 0 <= p < end :: !Expanded(s, p)
    ensures Scanned(s, end + 1)
  {
    hide Undone, Expanded;
    Stitch(s, start, end + 1, Undone(s[end + 1..]));
    NotAtNewline(s, end);
  }

  lemma {:induction false} NotAtNewline(s: string, p: nat)
    requires p < |s| && s[p] == '\n'
    ensures !Expanded(s, p)
  {
    hide FirstStop;
    assert s[p..][0] == s[p];
  }

  lemma {:induction false} ScanFinds(s: string, start: nat, end: nat)
    requires start <= end < |s| && Undone(s) == s[..start] + Undone(s[start..]) && Expanded(s, start)
    requires Undone(s[start..]) == COLLAPSED + Undone(s[end + 1..])
    ensures Finds(s, Some(Range(start, end + 1)))
  {
    hide Undone, Expanded;
    Associate(s[..start], COLLAPSED, Undone(s[end + 1..]));
  }

  lemma Stitch(s: string, start: nat, end: nat, tail: string)
    requires start <= end <= |s|
    ensures s[..start] + (s[start..end] + tail) == s[..end] + tail
  {
  }

  lemma Associate(a: string, b: string, c: string)
    ensures a + (b + c) == a + b + c
  {
  }

  lemma {:induction false} NothingLeft(s: string)
    requires forall p | 0 <= p < |s| :: !Expanded(s, p)
    ensures Unaltered(s)
  {
    EmptyEnd(s);
  }

  lemma EmptyEnd(s: string)
    ensures !Expanded(s, |s|)
  {
  }

  lemma {:induction false} NoneLeft(s: string, ofs: nat)
    requires ofs <= |s| && Absent(s[ofs..], OPENING, |s| - ofs) && Scanned(s, ofs)
    ensures Finds(s, None)
  {
    UndoneFrom(s, ofs, |s|);
    NothingExpanded(s, ofs, |s|, |s|);
    EmptyEnd(s);
  }

  lemma UndoneOpening(s: string, end: nat)
    requires StartsWith(s, OPENING) && end == 4 + FirstStop(s[4..])
    ensures Undone(s) == if end == |s| then s
                         else (if s[end] == '\n' then s[..end + 1] else COLLAPSED) + Undone(s[end + 1..])
  {
  }

  lemma {:induction false} StopAfterOpening(s: string, start: nat, end: nat)
    requires start <= |s| && StartsWith(s[start..], OPENING) && end == start + 4 + FirstStop(s[start + 4..])
    ensures end <= |s| && forall j | start + 4 <= j < end :: s[j] != '$' && s[j] != '\n'
    ensures Expanded(s, start) <==> end < |s| && s[end] == '$'
    ensures end < |s| ==> s[end] == '$' || s[end] == '\n'
    ensures Undone(s[start..]) == if end == |s| then s[start..]
                                  else (if s[end] == '\n' then s[start..end + 1] else COLLAPSED) + Undone(s[end + 1..])
  {
    hide Undone, FirstStop, StartsWith, Expanded;
    StopIsFirst(s, start, end);
    UndoneAfterOpening(s, start, end);
  }

  /** Nothing stops before the stop, and it tells whether the identifier is expanded. */
  lemma {:induction false} StopIsFirst(s: string, start: nat, end: nat)
    requires start <= |s| && StartsWith(s[start..], OPENING) && end == start + 4 + FirstStop(s[start + 4..])
    ensures end <= |s| && forall j | start + 4 <= j < end :: s[j] != '$' && s[j] != '\n'
    ensures Expanded(s, start) <==> end < |s| && s[end] == '$'
    ensures end < |s| ==> s[end] == '$' || s[end] == '\n'
  {
    var rest := s[start + 4..];
    forall j | start + 4 <= j < end ensures s[j] != '$' && s[j] != '\n' {
      assert s[j] == rest[j - start - 4];
    }
    if end < |s| {
      assert s[end] == rest[end - start - 4];
    }
  }

  lemma {:induction false} UndoneAfterOpening(s: string, start: nat, end: nat)
    requires start <= |s| && StartsWith(s[start..], OPENING) && end == start + 4 + FirstStop(s[start + 4..])
    ensures Undone(s[start..]) == if end == |s| then s[start..]
                                  else (if s[end] == '\n' then s[start..end + 1] else COLLAPSED) + Undone(s[end + 1..])
  {
    hide Undone, FirstStop;
    assert s[start..][4..] == s[start + 4..];
    UndoneOpening(s[start..], end - start);
    if end < |s| {
      Slices(s, start, end);
    }
  }

  lemma Slices(s: string, start: nat, end: nat)
    requires start <= end < |s|
    ensures s[start..][end - start] == s[end] && s[start..][end + 1 - start..] == s[end + 1..]
    ensures s[start..][..end + 1 - start] == s[start..end + 1]
  {
  }

  /** Collapses expanded identifiers; the buffer is written exactly when there is one. */
  method Undo(src: string, buffer: string) returns (written: bool, buf: string)
    ensures written <==> !Unaltered(src)
    ensures written ==> buf == Undone(src)
    ensures !written ==> buf == buffer && Undone(src) == src
  {
    hide Finds, Undone, Unaltered;
    buf := buffer;
    written := false;
    var ofs := 0;
    assert src[ofs..] == src;
    var range := FindRange(src[ofs..]);
    while range.Some?
      invariant ofs <= |src| && Finds(src[ofs..], range)
      invariant !written ==> ofs == 0 && buf == buffer
      invariant written ==> !Unaltered(src) && Undone(src) == buf + Undone(src[ofs..])
      decreases |src| - ofs
    {
      UndoneStep(src, ofs, range.value);
      if !written {
        buf := "";
        written := true;
      }
      buf := buf + src[ofs..][..range.value.start];
      buf := buf + COLLAPSED;
      ofs := ofs + range.value.end;
      range := FindRange(src[ofs..]);
    }
    FoundNone(src[ofs..]);
    if written {
      buf := buf + src[ofs..];
    }
  }

  lemma FoundNone(s: string)
    requires Finds(s, None)
    ensures Unaltered(s) && Undone(s) == s
  {
  }

  lemma {:induction false} UndoneStep(s: string, ofs: nat, range: Range)
    requires ofs <= |s| && Finds(s[ofs..], Some(range))
    ensures range.start < range.end <= |s| - ofs && !Unaltered(s)
    ensures Undone(s[ofs..]) == s[ofs..][..range.start] + COLLAPSED + Undone(s[ofs + range.end..])
  {
    hide Undone, Expanded;
    ExpandedIn(s, ofs, range.start);
    assert s[ofs..][range.end..] == s[ofs + range.end..];
  }

  /** Expands collapsed identifiers; the buffer is written exactly when there is one. */
  method Apply(src: string, hex: string, buffer: string) returns (written: bool, buf: string)
    ensures written <==> exists p | 0 <= p <= |src| :: StartsWith(src[p..], COLLAPSED)
    ensures written ==> buf == Applied(src, hex)
    ensures !written ==> buf == buffer && Applied(src, hex) == src
  {
    hide Find, FindFrom, Applied, StartsWith, Absent;
    buf := buffer;
    written := false;
    var ofs := 0;
    assert src[0..] == src;
    var pos := Find(src[ofs..], COLLAPSED);
    while pos.Some?
      invariant ofs <= |src| && pos == Find(src[ofs..], COLLAPSED)
      invariant !written ==> ofs == 0 && buf == buffer
      invariant written ==> Applied(src, hex) == buf + Applied(src[ofs..], hex)
      invariant written ==> exists p | 0 <= p <= |src| :: StartsWith(src[p..], COLLAPSED)
      decreases |src| - ofs
    {
      var at := ofs + pos.value;
      assert src[ofs..][pos.value..] == src[at..];
      AppliedStep(src, ofs, at, hex);
      if !written {
        written := true;
        buf := "";
      }
      buf := buf + src[ofs..][..pos.value + 3];
      buf := buf + ": " + hex + "$";
      ofs := at + 4;
      pos := Find(src[ofs..], COLLAPSED);
    }
    AppliedSkips(src[ofs..], |src[ofs..]|, hex);
    AppliedStart("", hex);
    assert src[ofs..][|src[ofs..]|..] == "";
    if written {
      buf := buf + src[ofs..];
    } else {
      AbsentEverywhere(src);
    }
  }

  lemma AbsentEverywhere(s: string)
    requires Absent(s, COLLAPSED, |s| + 1)
    ensures !exists p | 0 <= p <= |s| :: StartsWith(s[p..], COLLAPSED)
  {
  }

  lemma {:induction false} AppliedStep(s: string, ofs: nat, at: nat, hex: string)
    requires ofs <= at <= at + 4 <= |s| && StartsWith(s[at..], COLLAPSED)
    requires Absent(s[ofs..], COLLAPSED, at - ofs)
    ensures Applied(s[ofs..], hex) == s[ofs..][..at - ofs + 3] + ": " + hex + "$" + Applied(s[at + 4..], hex)
  {
    hide Absent, Applied;
    var head, tail := s[ofs..][..at - ofs], s[at..];
    AppliedSkips(s[ofs..], at - ofs, hex);
    assert s[ofs..][at - ofs..] == tail && tail[4..] == s[at + 4..];
    AppliedMarker(head, tail, hex);
    assert s[ofs..][..at - ofs + 3] == head + tail[..3];
  }

  lemma {:induction false} AppliedMarker(head: string, tail: string, hex: string)
    requires StartsWith(tail, COLLAPSED)
    ensures head + Applied(tail, hex) == head + tail[..3] + ": " + hex + "$" + Applied(tail[4..], hex)
  {
    assert tail[..3] == tail[..4][..3] == "$Id";
    assert Applied(tail, hex) == Expansion(hex) + Applied(tail[4..], hex);
    assert Expansion(hex) == "$Id" + (": " + hex + "$");
  }

  // ----- What becomes of identifiers and of other text ------------------------------------------------

  /** Text without a collapsed identifier is kept. */
  lemma {:induction false} AppliedText(s: string, hex: string)
    requires Absent(s, "$Id$", |s|)
    ensures Applied(s, hex) == s
  {
    AppliedSkips(s, |s|, hex);
    AppliedStart("", hex);
    assert s[|s|..] == "" && s[..|s|] == s;
  }

  /** The first collapsed identifier gets the hash; what is before it is kept, and what follows is applied to in turn. */
  lemma {:induction false} AppliedIdentifier(head: string, rest: string, hex: string)
    requires Absent(head + "$Id$" + rest, "$Id$", |head|)
    ensures Applied(head + "$Id$" + rest, hex) == head + ("$Id: " + hex + "$") + Applied(rest, hex)
  {
    var s, tail := head + "$Id$" + rest, "$Id$" + rest;
    AppliedSkips(s, |head|, hex);
    assert s[..|head|] == head && s[|head|..] == tail;
    assert tail[..4] == "$Id$" && tail[4..] == rest;
    assert Applied(tail, hex) == Expansion(hex) + Applied(rest, hex);
    assert Expansion(hex) == "$Id: " + hex + "$";
    Associate(head, Expansion(hex), Applied(rest, hex));
  }

  /** Text with no expanded identifier is kept. */
  lemma {:induction false} UndoneText(s: string)
    requires Unaltered(s)
    ensures Undone(s) == s
    decreases |s|
  {
    if s == "" {
    } else if StartsWith(s, OPENING) {
      assert s[0..] == s;
      assert !Expanded(s, 0);
      var end := 4 + FirstStop(s[4..]);
      if end < |s| {
        UnalteredSuffix(s, end + 1);
        UndoneText(s[end + 1..]);
        assert s[end] == s[4..][end - 4];
        assert s == s[..end + 1] + s[end + 1..];
      }
    } else {
      UnalteredSuffix(s, 1);
      UndoneText(s[1..]);
    }
  }

  lemma {:induction false} UndoneInner(inner: string, rest: string)
    requires Plain(inner)
    ensures Undone("$Id:" + inner + "$" + rest) == "$Id$" + Undone(rest)
  {
    hide Undone, FirstStop;
    var tail, body := "$Id:" + inner + "$" + rest, inner + "$" + rest;
    assert tail[..4] == OPENING && tail[4..] == body;
    FirstStopIs(body, |inner|);
    UndoneOpening(tail, 4 + |inner|);
    assert tail[4 + |inner| + 1..] == rest;
  }

  /** The first expanded identifier is collapsed; what is before it is kept, and what follows is undone in turn. */
  lemma {:induction false} UndoneIdentifier(head: string, inner: string, rest: string)
    requires Plain(inner) && Absent(head + ("$Id:" + inner + "$") + rest, "$Id:", |head|)
    ensures Undone(head + ("$Id:" + inner + "$") + rest) == head + "$Id$" + Undone(rest)
  {
    hide Undone, Plain, Absent;
    var s, tail := head + ("$Id:" + inner + "$") + rest, "$Id:" + inner + "$" + rest;
    UndoneSkips(s, |head|);
    assert s[..|head|] == head && s[|head|..] == tail;
    UndoneInner(inner, rest);
    Associate(head, COLLAPSED, Undone(rest));
  }
}
