/**
 * The boundary scanners of `TextEditable`: from a cursor, find the position
 * one character, one word or one line away in either direction. Each scanner
 * counts bytes over the characters after the cursor (or before it, read
 * backwards) and converts the shifted byte offset back into a position.
 */
module TextScan {
  import opened Wrappers
  import opened Rope
  import opened Editing
  import opened SpanEdit

  datatype Unit = Char | Word | Line

  datatype LeftRight = Left | Right

  /**
   * The Unicode classifications the scanner consults (`char::is_alphanumeric`,
   * `char::is_whitespace`, chumsky's `is_inline_whitespace`), taken as given.
   */
  datatype CharClasses = CharClasses(
    isAlphanumeric: char -> bool,
    isWhitespace: char -> bool,
    isInlineWhitespace: char -> bool)

  /** The classes of the second phase of a word scan. */
  datatype CharType = Alphanumeric | Whitespace | Newline | Other

  function ClassOf(cls: CharClasses, c: char): CharType {
    if cls.isAlphanumeric(c) then Alphanumeric
    else if IsNewline(c) then Newline
    else if cls.isWhitespace(c) then Whitespace
    else Other
  }

  // ----- Runs of characters -----

  /** The kinds of maximal run a scan consumes. */
  datatype RunKind = NewlineRun | InlineWhitespaceRun | ClassRun(ty: CharType)

  predicate InRun(cls: CharClasses, kind: RunKind, c: char) {
    match kind
    case NewlineRun => IsNewline(c)
    case InlineWhitespaceRun => cls.isInlineWhitespace(c)
    case ClassRun(ty) => ClassOf(cls, c) == ty
  }

  /** Length of the longest prefix of `s` in the run: every character before it belongs, the next does not. */
  function RunLen(cls: CharClasses, kind: RunKind, s: seq<char>): (n: nat)
    ensures n <= |s|
    ensures forall i | 0 <= i < n :: InRun(cls, kind, s[i])
    ensures n < |s| ==> !InRun(cls, kind, s[n])
  {
    if s == [] || !InRun(cls, kind, s[0]) then 0
    else
      var n' := RunLen(cls, kind, s[1..]);
      assert forall i | 1 <= i < n' + 1 :: s[i] == s[1..][i - 1];
      1 + n'
  }

  /** A maximal run is determined by its two defining facts. */
  lemma {:induction false} RunLenUnique(cls: CharClasses, kind: RunKind, s: seq<char>, n: nat)
    requires n <= |s|
    requires forall i | 0 <= i < n :: InRun(cls, kind, s[i])
    requires n < |s| ==> !InRun(cls, kind, s[n])
    ensures RunLen(cls, kind, s) == n
  {
    if n > 0 {
      assert forall i | 0 <= i < n - 1 :: s[1..][i] == s[i + 1];
      RunLenUnique(cls, kind, s[1..], n - 1);
    }
  }

  // ----- Byte counters -----

  /** Character counter: the width of the next character, 0 at the edge of the buffer. */
  function CharBoundaryBytes(it: seq<char>): nat {
    if it == [] then 0 else Width(it[0])
  }

  /** Line counter: a newline right at the cursor alone, else everything up to the next newline. */
  function LineBoundaryBytes(it: seq<char>): nat {
    if it != [] && IsNewline(it[0]) then Width(it[0])
    else Bytes(it[..RunToNewline(it)])
  }

  /** Phase one of a word scan: a run of newlines when the first character is one, else of inline whitespace. */
  function FirstPhaseKind(it: seq<char>): RunKind {
    if it != [] && IsNewline(it[0]) then NewlineRun else InlineWhitespaceRun
  }

  /**
   * Characters a word scan passes: the first-phase run, then at least one
   * further character and the maximal run of characters of its class.
   */
  function WordBoundaryChars(cls: CharClasses, it: seq<char>): (n: nat)
    ensures n <= |it|
    ensures n == 0 <==> it == []
    ensures RunLen(cls, FirstPhaseKind(it), it) <= n
    ensures var p := RunLen(cls, FirstPhaseKind(it), it);
      p < |it| ==> p < n && forall i | p <= i < n :: ClassOf(cls, it[i]) == ClassOf(cls, it[p])
    ensures var p := RunLen(cls, FirstPhaseKind(it), it);
      p < n < |it| ==> ClassOf(cls, it[n]) != ClassOf(cls, it[p])
  {
    var p := RunLen(cls, FirstPhaseKind(it), it);
    if p == |it| then p
    else
      var ty := ClassOf(cls, it[p]);
      var q := RunLen(cls, ClassRun(ty), it[p + 1..]);
      assert forall i | p + 1 <= i < p + 1 + q :: it[i] == it[p + 1..][i - p - 1];
      p + 1 + q
  }

  /** Bytes a corrected word scan passes; the loop in `CountBytesTillWordBoundary` computes it. */
  function WordBoundaryBytes(cls: CharClasses, it: seq<char>): nat {
    Bytes(it[..WordBoundaryChars(cls, it)])
  }

  /**
   * `count_bytes_till_boundary` of the word scanner, with the characters of
   * the first phase skipped by their number. Its loops keep `count` equal
   * to the bytes of the characters consumed so far.
   */
  method CountBytesTillWordBoundary(cls: CharClasses, it: seq<char>) returns (count: nat)
    ensures count == WordBoundaryBytes(cls, it)
  {
    count := 0;
    var kind := FirstPhaseKind(it);
    var i := 0;
    while i < |it| && InRun(cls, kind, it[i])
      invariant i <= |it|
      invariant forall m | 0 <= m < i :: InRun(cls, kind, it[m])
      invariant count == Bytes(it[..i])
    {
      BytesPrefixStep(it, i);
      count := count + Width(it[i]);
      i := i + 1;
    }
    RunLenUnique(cls, kind, it, i);

    var lastType: Option<CharType> := None;
    var j := i;
    while j < |it| && (lastType.None? || ClassOf(cls, it[j]) == lastType.value)
      invariant i <= j <= |it|
      invariant lastType.None? <==> j == i
      invariant lastType.Some? ==> lastType.value == ClassOf(cls, it[i])
      invariant forall m | i < m < j :: ClassOf(cls, it[m]) == ClassOf(cls, it[i])
      invariant count == Bytes(it[..j])
    {
      var charType := ClassOf(cls, it[j]);
      BytesPrefixStep(it, j);
      count := count + Width(it[j]);
      if lastType.None? {
        lastType := Some(charType);
      }
      j := j + 1;
    }
    WordBoundaryCharsAt(cls, it, i, j);
  }

  /** The two phases' end points determine the characters a word scan passes. */
  lemma WordBoundaryCharsAt(cls: CharClasses, it: seq<char>, i: nat, j: nat)
    requires i == RunLen(cls, FirstPhaseKind(it), it) && i <= j <= |it|
    requires i == |it| ==> j == i
    requires i < |it| ==> i < j
    requires forall m | i < m < j :: ClassOf(cls, it[m]) == ClassOf(cls, it[i])
    requires i < j < |it| ==> ClassOf(cls, it[j]) != ClassOf(cls, it[i])
    ensures j == WordBoundaryChars(cls, it)
  {
    if i < |it| {
      var ty := ClassOf(cls, it[i]);
      var rest := it[i + 1..];
      assert forall m | 0 <= m < j - i - 1 :: rest[m] == it[i + 1 + m];
      RunLenUnique(cls, ClassRun(ty), rest, j - i - 1);
    }
  }

  /**
   * `count_bytes_till_boundary` of the word scanner as written: after the
   * first phase it skips `count` characters, although `count` is a number
   * of bytes.
   */
  function WordBoundaryBytesAsWritten(cls: CharClasses, it: seq<char>): (r: nat)
    ensures r == 0 <==> it == []
  {
    var count := Bytes(it[..RunLen(cls, FirstPhaseKind(it), it)]);
    var rest := if count <= |it| then it[count..] else [];
    if rest == [] then count
    else count + Bytes(rest[..1 + RunLen(cls, ClassRun(ClassOf(cls, rest[0])), rest[1..])])
  }

  /** As long as the first phase passes only one-byte characters, the two word counters agree. */
  lemma WordBoundaryAsWrittenAgrees(cls: CharClasses, it: seq<char>)
    requires var p := RunLen(cls, FirstPhaseKind(it), it); Bytes(it[..p]) == p
    ensures WordBoundaryBytesAsWritten(cls, it) == WordBoundaryBytes(cls, it)
  {
    var p := RunLen(cls, FirstPhaseKind(it), it);
    var n := WordBoundaryChars(cls, it);
    if p < |it| {
      var rest := it[p..];
      var q := RunLen(cls, ClassRun(ClassOf(cls, it[p])), it[p + 1..]);
      assert rest[1..] == it[p + 1..];
      assert it[..n] == it[..p] + rest[..1 + q];
      BytesAppend(it[..p], rest[..1 + q]);
    } else {
      assert it[..n] == it[..p];
    }
  }

  /** Every inline whitespace character is one byte wide, as chumsky's ' ' and '\t' are. */
  predicate NarrowInlineWhitespace(cls: CharClasses) {
    forall c :: cls.isInlineWhitespace(c) ==> Width(c) == 1
  }

  /**
   * With one-byte inline whitespace, and '\n' as the only newline, the first
   * phase passes only one-byte characters, so the word counter as written
   * is correct.
   */
  lemma WordBoundaryAsWrittenAgreesNarrow(cls: CharClasses, it: seq<char>)
    requires NarrowInlineWhitespace(cls)
    ensures WordBoundaryBytesAsWritten(cls, it) == WordBoundaryBytes(cls, it)
  {
    var p := RunLen(cls, FirstPhaseKind(it), it);
    var run := it[..p];
    assert forall i :: 0 <= i < |run| ==> InRun(cls, FirstPhaseKind(it), it[i]) && run[i] == it[i];
    OneByteChars(run);
    WordBoundaryAsWrittenAgrees(cls, it);
  }

  /**
   * With the ideographic space U+3000 (three bytes) as inline whitespace, a
   * word scan over "\u3000\u00e9xy" counts 3 bytes for the space, skips three
   * characters and adds the one byte of 'y': 4, which falls inside the
   * two-byte 'é'. The corrected count stops on a character boundary.
   */
  lemma WordBoundaryAsWrittenSplitsChar(cls: CharClasses, it: seq<char>)
    requires it == "　éxy"
    requires cls.isInlineWhitespace('　') && !cls.isInlineWhitespace('é')
    ensures WordBoundaryBytesAsWritten(cls, it) == 4
    ensures !IsCharBoundary(it, WordBoundaryBytesAsWritten(cls, it))
    ensures IsCharBoundary(it, WordBoundaryBytes(cls, it))
  {
    IdeographicSpaceRun(cls, it);
    var rest := it[3..];
    assert rest == "y";
    assert rest[1..] == [];
    assert rest[..1] == "y";
    assert Bytes("y") == 1;
    NotBoundaryFour(it);
    var n := WordBoundaryChars(cls, it);
    CharIndexOfPrefixBytes(it, n);
  }

  lemma IdeographicSpaceRun(cls: CharClasses, it: seq<char>)
    requires it == "　éxy"
    requires cls.isInlineWhitespace('　') && !cls.isInlineWhitespace('é')
    ensures FirstPhaseKind(it) == InlineWhitespaceRun
    ensures RunLen(cls, FirstPhaseKind(it), it) == 1
    ensures Bytes(it[..1]) == 3
  {
    RunLenUnique(cls, InlineWhitespaceRun, it, 1);
    assert it[..1] == "　";
  }

  lemma NotBoundaryFour(it: seq<char>)
    requires it == "　éxy"
    ensures !IsCharBoundary(it, 4)
  {
    assert it[1..] == "éxy";
    assert it[1..][1..] == "xy";
  }

  /** Characters a scan passes, for each unit. */
  function UnitChars(cls: CharClasses, unit: Unit, it: seq<char>): (n: nat)
    ensures n <= |it|
  {
    match unit
    case Char => if it == [] then 0 else 1
    case Word => WordBoundaryChars(cls, it)
    case Line => if it != [] && IsNewline(it[0]) then 1 else RunToNewline(it)
  }

  /** `count_bytes_till_boundary` for each unit (the word counter corrected). */
  function UnitBytes(cls: CharClasses, unit: Unit, it: seq<char>): (n: nat)
    ensures n == Bytes(it[..UnitChars(cls, unit, it)])
  {
    match unit
    case Char =>
      assert it != [] ==> it[..1][1..] == [];
      CharBoundaryBytes(it)
    case Word => WordBoundaryBytes(cls, it)
    case Line =>
      assert it != [] ==> it[..1][1..] == [];
      LineBoundaryBytes(it)
  }

  // ----- From bytes back to positions -----

  /** Moving right by the bytes of `m` characters lands on the boundary after them. */
  lemma ShiftRight(t: Text, k: nat, m: nat)
    requires k + m <= |t|
    ensures Bytes(t[..k]) + Bytes(t[k..][..m]) == Bytes(t[..k + m]) <= ByteLen(t)
    ensures IsCharBoundary(t, Bytes(t[..k + m])) && CharIndexOfByte(t, Bytes(t[..k + m])) == k + m
  {
    var j := k + m;
    assert t[k..][..m] == t[k..j];
    BytesSplit(t, k, j);
    assert t[..|t|] == t;
    BytesSplit(t, j, |t|);
    CharIndexOfPrefixBytes(t, j);
  }

  /** Moving left by the bytes of the last `m` characters, read backwards, lands on the boundary before them. */
  lemma ShiftLeft(t: Text, k: nat, m: nat)
    requires m <= k <= |t|
    ensures Bytes(Reverse(t[..k])[..m]) <= Bytes(t[..k])
    ensures Bytes(t[..k]) - Bytes(Reverse(t[..k])[..m]) == Bytes(t[..k - m])
    ensures IsCharBoundary(t, Bytes(t[..k - m])) && CharIndexOfByte(t, Bytes(t[..k - m])) == k - m
  {
    var u := t[..k];
    assert |u| == k;
    BytesReverse(u, m);
    assert u[k - m..] == t[k - m..k];
    BytesSplit(t, k - m, k);
    CharIndexOfPrefixBytes(t, k - m);
  }

  /** Character index a scan from `k` arrives at. */
  function Target(cls: CharClasses, t: Text, k: nat, unit: Unit, dir: LeftRight): (j: nat)
    requires k <= |t|
    ensures j <= |t|
    ensures dir.Left? ==> j <= k
    ensures dir.Right? ==> k <= j
  {
    match dir
    case Left => k - UnitChars(cls, unit, Reverse(t[..k]))
    case Right => k + UnitChars(cls, unit, t[k..])
  }

  lemma ShiftLeftAt(t: Text, k: nat, m: nat, b: nat, n: nat)
    requires m <= k <= |t| && b == Bytes(t[..k]) && n == Bytes(Reverse(t[..k])[..m])
    ensures n <= b && IsCharBoundary(t, b - n) && CharIndexOfByte(t, b - n) == k - m
  {
    ShiftLeft(t, k, m);
  }

  lemma ShiftRightAt(t: Text, k: nat, m: nat, b: nat, n: nat)
    requires k + m <= |t| && b == Bytes(t[..k]) && n == Bytes(t[k..][..m])
    ensures b + n <= ByteLen(t) && IsCharBoundary(t, b + n) && CharIndexOfByte(t, b + n) == k + m
  {
    ShiftRight(t, k, m);
  }

  /**
   * The byte a scan from the char boundary `b` lands on: `b` less the bytes
   * of one unit read backwards, or plus the bytes of one unit read forwards.
   */
  function OffsetByte(cls: CharClasses, t: Text, b: nat, unit: Unit, dir: LeftRight): (nb: nat)
    requires IsCharBoundary(t, b) && b <= ByteLen(t)
    ensures nb <= ByteLen(t) && IsCharBoundary(t, nb)
    ensures CharIndexOfByte(t, nb) == Target(cls, t, CharIndexOfByte(t, b), unit, dir)
  {
    var k := CharIndexOfByte(t, b);
    match dir
    case Left =>
      var it := Reverse(CharsBefore(t, b));
      ShiftLeftAt(t, k, UnitChars(cls, unit, it), b, UnitBytes(cls, unit, it));
      b - UnitBytes(cls, unit, it)
    case Right =>
      var it := CharsFrom(t, b);
      ShiftRightAt(t, k, UnitChars(cls, unit, it), b, UnitBytes(cls, unit, it));
      b + UnitBytes(cls, unit, it)
  }

  /**
   * `saturating_offset`: the position one unit away from `cursor`. It fails
   * exactly when the cursor itself is not a position of the buffer; the
   * result is always on a character boundary.
   */
  function SaturatingOffset(cls: CharClasses, t: Text, cursor: Pos, unit: Unit, dir: LeftRight): (r: Result<Pos, EditErr>)
    ensures r.Ok? <==> ValidPos(t, cursor)
    ensures r.Ok? ==> r.value == PosOfCharIndex(t, Target(cls, t, CharIndex(t, cursor), unit, dir))
  {
    var b :- GetByte(t, cursor);
    PosFromByte(t, OffsetByte(cls, t, b, unit, dir))
  }

  /** `saturating_offset` from a position outside the buffer is `OutOfBounds`. */
  lemma OffsetOutOfBounds(cls: CharClasses, t: Text, cursor: Pos, unit: Unit, dir: LeftRight)
    requires !ValidPos(t, cursor)
    ensures SaturatingOffset(cls, t, cursor, unit, dir) == Err(OutOfBounds)
  {
  }

  // ----- What each unit does -----

  /** A character move passes exactly one character, and stays put at the edge it moves towards. */
  lemma CharMove(cls: CharClasses, t: Text, k: nat, dir: LeftRight)
    requires k <= |t|
    ensures Target(cls, t, k, Char, dir) ==
      if dir.Left? then (if k == 0 then 0 else k - 1) else (if k == |t| then k else k + 1)
  {
  }

  /** Away from the end of the buffer, a character move right then left comes back. */
  lemma CharMoveSymmetric(cls: CharClasses, t: Text, p: Pos)
    requires ValidPos(t, p) && CharIndex(t, p) < |t|
    ensures var q := PosOfCharIndex(t, Target(cls, t, CharIndex(t, p), Char, Right));
      PosOfCharIndex(t, Target(cls, t, CharIndex(t, q), Char, Left)) == p
  {
    var i := CharIndex(t, p);
    assert Target(cls, t, i, Char, Right) == i + 1 by {
      assert t[i..] != [];
    }
    var q := PosOfCharIndex(t, i + 1);
    assert CharIndex(t, q) == i + 1;
    assert Target(cls, t, i + 1, Char, Left) == i by {
      assert |Reverse(t[..i + 1])| == i + 1;
    }
    PosOfCharIndexOfCharIndex(t, p);
  }

  /**
   * A line move right goes to the end of the line, or from the end of a line
   * over its newline to the start of the next; at the end of the buffer it stays.
   */
  lemma LineMoveRight(cls: CharClasses, t: Text, p: Pos)
    requires ValidPos(t, p)
    ensures PosOfCharIndex(t, Target(cls, t, CharIndex(t, p), Line, Right)) == (
      if p.column < LineLen(t, p.line) then Pos(p.line, LineLen(t, p.line))
      else if p.line < Newlines(t) then Pos(p.line + 1, 0)
      else p)
  {
    if p.column < LineLen(t, p.line) {
      LineRightWithin(cls, t, p);
    } else if p.line < Newlines(t) {
      LineRightOverNewline(cls, t, p);
    } else {
      LineRightAtEnd(cls, t, p);
    }
  }

  lemma LineRightWithin(cls: CharClasses, t: Text, p: Pos)
    requires ValidPos(t, p) && p.column < LineLen(t, p.line)
    ensures PosOfCharIndex(t, Target(cls, t, CharIndex(t, p), Line, Right)) == Pos(p.line, LineLen(t, p.line))
  {
    LineRightTarget(cls, t, p);
    PosOfCharIndexOfCharIndex(t, Pos(p.line, LineLen(t, p.line)));
  }

  lemma LineRightOverNewline(cls: CharClasses, t: Text, p: Pos)
    requires ValidPos(t, p) && p.column == LineLen(t, p.line) && p.line < Newlines(t)
    ensures PosOfCharIndex(t, Target(cls, t, CharIndex(t, p), Line, Right)) == Pos(p.line + 1, 0)
  {
    LineRightTarget(cls, t, p);
    LineEndNext(t, p);
  }

  lemma LineRightAtEnd(cls: CharClasses, t: Text, p: Pos)
    requires ValidPos(t, p) && p.column == LineLen(t, p.line) && p.line == Newlines(t)
    ensures PosOfCharIndex(t, Target(cls, t, CharIndex(t, p), Line, Right)) == p
  {
    LineRightTarget(cls, t, p);
    PosOfCharIndexOfCharIndex(t, p);
  }

  lemma LineRightTarget(cls: CharClasses, t: Text, p: Pos)
    requires ValidPos(t, p)
    ensures Target(cls, t, CharIndex(t, p), Line, Right) ==
      if p.column < LineLen(t, p.line) then LineStart(t, p.line) + LineLen(t, p.line)
      else if p.line < Newlines(t) then CharIndex(t, p) + 1 else CharIndex(t, p)
  {
    LineRightChars(cls, t, p);
  }

  lemma LineRightChars(cls: CharClasses, t: Text, p: Pos)
    requires ValidPos(t, p)
    ensures UnitChars(cls, Line, t[CharIndex(t, p)..]) ==
      if p.column < LineLen(t, p.line) then LineLen(t, p.line) - p.column
      else if p.line < Newlines(t) then 1 else 0
  {
    LineRunAfter(t, p);
    if p.column == LineLen(t, p.line) {
      LineEndNext(t, p);
    }
  }

  /** From a position, the rest of its line is the run up to the next newline. */
  lemma LineRunAfter(t: Text, p: Pos)
    requires ValidPos(t, p)
    ensures RunToNewline(t[CharIndex(t, p)..]) == LineLen(t, p.line) - p.column
  {
    var j := LineStart(t, p.line);
    assert t[j..][p.column..] == t[CharIndex(t, p)..];
    RunToNewlineDrop(t[j..], p.column);
  }

  /** At the end of a line, a newline follows exactly when a further line exists, and passing it starts that line. */
  lemma LineEndNext(t: Text, p: Pos)
    requires ValidPos(t, p) && p.column == LineLen(t, p.line)
    ensures CharIndex(t, p) < |t| <==> p.line < Newlines(t)
    ensures CharIndex(t, p) < |t| ==>
      IsNewline(t[CharIndex(t, p)]) && PosOfCharIndex(t, CharIndex(t, p) + 1) == Pos(p.line + 1, 0)
  {
    var k := CharIndex(t, p);
    LineRunAfter(t, p);
    PosOfCharIndexOfCharIndex(t, p);
    if k < |t| {
      RunToNewlineStop(t[k..]);
      NewlineAfter(t, k);
      PrefixLineStart(t, k + 1);
    } else {
      assert t[..k] == t;
    }
  }

  /** The position after a newline at index `k` starts the next line. */
  lemma NewlineAfter(t: Text, k: nat)
    requires k < |t| && IsNewline(t[k])
    ensures PosOfCharIndex(t, k + 1) == Pos(Newlines(t[..k]) + 1, 0)
  {
    assert t[..k + 1][..k] == t[..k];
  }

  /**
   * A line move left goes to the start of the line, or from the start of a
   * line over the newline before it to the end of the previous line; at the
   * start of the buffer it stays.
   */
  lemma LineMoveLeft(cls: CharClasses, t: Text, p: Pos)
    requires ValidPos(t, p)
    ensures PosOfCharIndex(t, Target(cls, t, CharIndex(t, p), Line, Left)) == (
      if p.column > 0 then Pos(p.line, 0)
      else if p.line > 0 then Pos(p.line - 1, LineLen(t, p.line - 1))
      else p)
  {
    LineLeftTarget(cls, t, p);
    if p.column > 0 {
      PosOfCharIndexOfCharIndex(t, Pos(p.line, 0));
    } else if p.line > 0 {
      PreviousLineEnd(t, CharIndex(t, p));
    } else {
      PosOfCharIndexOfCharIndex(t, p);
    }
  }

  lemma LineLeftTarget(cls: CharClasses, t: Text, p: Pos)
    requires ValidPos(t, p)
    ensures Target(cls, t, CharIndex(t, p), Line, Left) ==
      if p.column > 0 then LineStart(t, p.line)
      else if p.line > 0 then CharIndex(t, p) - 1 else CharIndex(t, p)
    ensures p.column == 0 && p.line > 0 ==>
      var k := CharIndex(t, p); 0 < k && IsNewline(t[k - 1]) && Newlines(t[..k]) == p.line
  {
    var k := CharIndex(t, p);
    PosOfCharIndexOfCharIndex(t, p);
    var it := Reverse(t[..k]);
    RunToNewlineReverse(t[..k]);
    if k > 0 {
      assert it[0] == t[..k][k - 1];
    }
  }

  /** The position before the newline that ends `t[..k]` is the end of the previous line. */
  lemma PreviousLineEnd(t: Text, k: nat)
    requires 0 < k <= |t| && IsNewline(t[k - 1])
    ensures 0 < Newlines(t[..k]) <= Newlines(t)
    ensures PosOfCharIndex(t, k - 1) == Pos(Newlines(t[..k]) - 1, LineLen(t, Newlines(t[..k]) - 1))
  {
    PrefixLineStart(t, k);
    PrefixEndsInNewline(t, k);
    LineEndsAtNewline(t, k - 1);
  }

  lemma PrefixEndsInNewline(t: Text, k: nat)
    requires 0 < k <= |t| && IsNewline(t[k - 1])
    ensures Newlines(t[..k]) == Newlines(t[..k - 1]) + 1
  {
    assert t[..k][..k - 1] == t[..k - 1];
  }

  /** When character `n` is a newline, the position in front of it is the end of its line. */
  lemma LineEndsAtNewline(t: Text, n: nat)
    requires n < |t| && IsNewline(t[n])
    ensures Newlines(t[..n]) <= Newlines(t)
    ensures PosOfCharIndex(t, n) == Pos(Newlines(t[..n]), LineLen(t, Newlines(t[..n])))
  {
    PrefixLineStart(t, n);
    var j := LastLineStart(t[..n]);
    var s := t[j..];
    assert s[n - j] == t[n];
    RunToNewlineSpec(s, n - j + 1);
  }
}
