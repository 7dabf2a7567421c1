/**
 * The text buffer the editor works on, in the shape the `crop` rope shows it
 * to its callers: a sequence of characters addressed by byte offset, split
 * into lines by '\n'. A trailing newline does not start a further line, and
 * the empty text has no lines at all.
 */
module Rope {

  type Text = seq<char>

  /** Number of bytes of `c` in UTF-8. */
  function Width(c: char): (w: nat)
    ensures 1 <= w <= 4
  {
    if c as int < 0x80 then 1
    else if c as int < 0x800 then 2
    else if c as int < 0x1_0000 then 3
    else 4
  }

  predicate IsNewline(c: char) {
    c == '\n'
  }

  /** Number of bytes of `s` in UTF-8. */
  function Bytes(s: seq<char>): nat
  {
    if s == [] then 0 else Width(s[0]) + Bytes(s[1..])
  }

  function ByteLen(t: Text): nat {
    Bytes(t)
  }

  lemma {:induction false} BytesAppend(a: seq<char>, b: seq<char>)
    ensures Bytes(a + b) == Bytes(a) + Bytes(b)
  {
    if a != [] {
      assert (a + b)[1..] == a[1..] + b;
      BytesAppend(a[1..], b);
    } else {
      assert a + b == b;
    }
  }

  /** A text of one-byte characters has as many bytes as characters. */
  lemma {:induction false} OneByteChars(s: seq<char>)
    requires forall i :: 0 <= i < |s| ==> Width(s[i]) == 1
    ensures Bytes(s) == |s|
  {
    if s != [] {
      assert forall i :: 0 <= i < |s| - 1 ==> s[1..][i] == s[i + 1];
      OneByteChars(s[1..]);
    }
  }

  /** Byte offsets of character prefixes split additively and grow strictly with the prefix. */
  lemma BytesSplit(s: seq<char>, i: nat, j: nat)
    requires i <= j <= |s|
    ensures Bytes(s[..j]) == Bytes(s[..i]) + Bytes(s[i..j])
    ensures i < j ==> Bytes(s[..i]) < Bytes(s[..j])
  {
    assert s[..j] == s[..i] + s[i..j];
    BytesAppend(s[..i], s[i..j]);
  }

  lemma BytesPrefixMonotone(s: seq<char>, i: nat, j: nat)
    requires i <= |s| && j <= |s|
    ensures Bytes(s[..i]) <= Bytes(s[..j]) <==> i <= j
  {
    if i <= j { BytesSplit(s, i, j); } else { BytesSplit(s, j, i); }
  }

  /** Whether byte offset `b` falls between two characters (or at either end) of `t`. */
  predicate IsCharBoundary(t: Text, b: nat)
    decreases |t|
  {
    b == 0 || (t != [] && b >= Width(t[0]) && IsCharBoundary(t[1..], b - Width(t[0])))
  }

  /** The number of characters before the char boundary `b`. */
  function CharIndexOfByte(t: Text, b: nat): (k: nat)
    requires IsCharBoundary(t, b)
    ensures k <= |t| && Bytes(t[..k]) == b
    decreases |t|
  {
    if b == 0 then 0
    else
      var k' := CharIndexOfByte(t[1..], b - Width(t[0]));
      assert t[..k' + 1][1..] == t[1..][..k'];
      k' + 1
  }

  /** Every character prefix ends on a char boundary, and that boundary gives the prefix back. */
  lemma {:induction false} CharIndexOfPrefixBytes(t: Text, k: nat)
    requires k <= |t|
    ensures IsCharBoundary(t, Bytes(t[..k]))
    ensures CharIndexOfByte(t, Bytes(t[..k])) == k
  {
    if k > 0 {
      assert t[..k][1..] == t[1..][..k - 1];
      CharIndexOfPrefixBytes(t[1..], k - 1);
    }
  }

  /** `insert(b, s)`: place `s` at the char boundary `b`. */
  function RopeInsert(t: Text, b: nat, s: Text): Text
    requires IsCharBoundary(t, b)
  {
    var k := CharIndexOfByte(t, b);
    t[..k] + s + t[k..]
  }

  /** The characters of the byte range `b1..b2`. */
  function RopeSlice(t: Text, b1: nat, b2: nat): Text
    requires IsCharBoundary(t, b1) && IsCharBoundary(t, b2) && b1 <= b2
  {
    var k1, k2 := CharIndexOfByte(t, b1), CharIndexOfByte(t, b2);
    BytesPrefixMonotone(t, k1, k2);
    t[k1..k2]
  }

  /** `delete(b1..b2)`: remove the byte range `b1..b2`. */
  function RopeDelete(t: Text, b1: nat, b2: nat): Text
    requires IsCharBoundary(t, b1) && IsCharBoundary(t, b2) && b1 <= b2
  {
    var k1, k2 := CharIndexOfByte(t, b1), CharIndexOfByte(t, b2);
    BytesPrefixMonotone(t, k1, k2);
    t[..k1] + t[k2..]
  }

  /** Number of newlines in `s`. */
  function Newlines(s: seq<char>): nat
  {
    if s == [] then 0 else Newlines(s[..|s| - 1]) + (if IsNewline(s[|s| - 1]) then 1 else 0)
  }

  /** The index just past the last newline of `s`, or 0 when `s` has none. */
  function LastLineStart(s: seq<char>): (k: nat)
    ensures k <= |s|
    ensures k > 0 ==> IsNewline(s[k - 1])
    ensures Newlines(s) > 0 <==> k > 0
  {
    if s == [] then 0
    else if IsNewline(s[|s| - 1]) then |s|
    else LastLineStart(s[..|s| - 1])
  }

  /** The text is empty or ends in a newline: the cursor may sit one line past the last. */
  predicate HasSimulatedLine(t: Text) {
    t == [] || IsNewline(t[|t| - 1])
  }

  /** `line_len()`: a trailing newline does not start a line of its own. */
  function LineCount(t: Text): nat {
    Newlines(t) + (if HasSimulatedLine(t) then 0 else 1)
  }

  /** Character index where line `l` starts (the simulated line when `l` is the newline count). */
  function LineStart(t: Text, l: nat): (k: nat)
    requires l <= Newlines(t)
    ensures k <= |t|
    decreases |t|
  {
    if Newlines(t) == l then LastLineStart(t) else LineStart(t[..|t| - 1], l)
  }

  /** Number of leading characters of `s` before its first newline. */
  function RunToNewline(s: seq<char>): (n: nat)
    ensures n <= |s|
  {
    if s == [] || IsNewline(s[0]) then 0 else 1 + RunToNewline(s[1..])
  }

  /** Number of characters of line `l`, its newline excluded. */
  function LineLen(t: Text, l: nat): (n: nat)
    requires l <= Newlines(t)
    ensures LineStart(t, l) + n <= |t|
  {
    RunToNewline(t[LineStart(t, l)..])
  }

  /** `line(l)`: the characters of line `l` without its newline. */
  function LineText(t: Text, l: nat): (s: Text)
    requires l <= Newlines(t)
    ensures |s| == LineLen(t, l)
  {
    t[LineStart(t, l)..LineStart(t, l) + LineLen(t, l)]
  }

  /** `byte_of_line(l)`. */
  function ByteOfLine(t: Text, l: nat): nat
    requires l <= Newlines(t)
  {
    Bytes(t[..LineStart(t, l)])
  }

  /** `line_of_byte(b)`: the number of newlines before the char boundary `b`. */
  function LineOfByte(t: Text, b: nat): nat
    requires IsCharBoundary(t, b)
  {
    Newlines(t[..CharIndexOfByte(t, b)])
  }

  /** Characters of the last line (`lines().next_back()`), 0 for the empty text. */
  function LastLineChars(t: Text): nat
  {
    if LineCount(t) == 0 then 0 else LineLen(t, LineCount(t) - 1)
  }

  // ----- Line structure -----

  lemma NoNewlines(s: seq<char>)
    ensures Newlines(s) == 0 <==> forall i | 0 <= i < |s| :: !IsNewline(s[i])
  {
    if s != [] {
      NoNewlines(s[..|s| - 1]);
      assert forall i | 0 <= i < |s| - 1 :: s[..|s| - 1][i] == s[i];
    }
  }

  lemma {:induction false} NewlinesAppend(a: seq<char>, b: seq<char>)
    ensures Newlines(a + b) == Newlines(a) + Newlines(b)
    decreases |b|
  {
    if b != [] {
      assert (a + b)[..|a + b| - 1] == a + b[..|b| - 1];
      NewlinesAppend(a, b[..|b| - 1]);
    } else {
      assert a + b == a;
    }
  }

  lemma {:induction false} LastLineStartAppend(a: seq<char>, b: seq<char>)
    ensures LastLineStart(a + b) == if Newlines(b) > 0 then |a| + LastLineStart(b) else LastLineStart(a)
    decreases |b|
  {
    if b != [] {
      assert (a + b)[..|a + b| - 1] == a + b[..|b| - 1];
      LastLineStartAppend(a, b[..|b| - 1]);
    } else {
      assert a + b == a;
    }
  }

  /** Nothing after the last line start is a newline. */
  lemma {:induction false} AfterLastLineStart(s: seq<char>)
    ensures Newlines(s[..LastLineStart(s)]) == Newlines(s)
    ensures Newlines(s[LastLineStart(s)..]) == 0
  {
    var k := LastLineStart(s);
    if s != [] && !IsNewline(s[|s| - 1]) {
      var init := s[..|s| - 1];
      AfterLastLineStart(init);
      assert s[..k] == init[..k];
      assert s[k..] == init[k..] + [s[|s| - 1]];
      NewlinesAppend(init[k..], [s[|s| - 1]]);
      assert [s[|s| - 1]][..0] == [];
    } else {
      assert s[..k] == s;
      assert s[k..] == [];
    }
  }

  /** The prefix of `s` up to its last line start keeps every newline and ends on one. */
  lemma LastLineStartOfPrefix(s: seq<char>)
    ensures Newlines(s[..LastLineStart(s)]) == Newlines(s)
    ensures LastLineStart(s[..LastLineStart(s)]) == LastLineStart(s)
  {
    var j := LastLineStart(s);
    AfterLastLineStart(s);
    if j > 0 {
      assert s[..j][j - 1] == s[j - 1];
    }
  }

  /** The prefix up to line `l`'s start holds exactly `l` newlines and ends on one (or is empty). */
  lemma {:induction false} LineStartFacts(t: Text, l: nat)
    requires l <= Newlines(t)
    ensures Newlines(t[..LineStart(t, l)]) == l
    ensures LastLineStart(t[..LineStart(t, l)]) == LineStart(t, l)
    decreases |t|
  {
    var k := LineStart(t, l);
    if Newlines(t) == l {
      AfterLastLineStart(t);
      if k > 0 { assert t[..k][k - 1] == t[k - 1]; }
    } else {
      var init := t[..|t| - 1];
      LineStartFacts(init, l);
      assert t[..k] == init[..k];
    }
  }

  /** The first `n` characters of `s` are newline-free exactly when `n` is within the run. */
  lemma RunToNewlineBound(s: seq<char>, n: nat)
    requires n <= |s|
    ensures Newlines(s[..n]) == 0 <==> n <= RunToNewline(s)
  {
    NoNewlines(s[..n]);
    assert forall i | 0 <= i < n :: s[..n][i] == s[i];
    RunToNewlineSpec(s, n);
  }

  lemma {:induction false} RunToNewlineSpec(s: seq<char>, n: nat)
    requires n <= |s|
    ensures (forall i | 0 <= i < n :: !IsNewline(s[i])) <==> n <= RunToNewline(s)
  {
    if n > 0 {
      RunToNewlineSpec(s[1..], n - 1);
      assert forall i | 0 <= i < n - 1 :: s[1..][i] == s[i + 1];
    }
  }

  /** A line start is determined by the number of newlines before it. */
  lemma LineStartUnique(t: Text, l: nat, j: nat)
    requires j <= |t| && Newlines(t[..j]) == l && LastLineStart(t[..j]) == j
    ensures l <= Newlines(t) && LineStart(t, l) == j
  {
    assert t == t[..j] + t[j..];
    NewlinesAppend(t[..j], t[j..]);
    var s := LineStart(t, l);
    LineStartFacts(t, l);
    if s < j {
      NewlinesSplit(t, s, j);
      NoNewlines(t[s..j]);
    } else if j < s {
      NewlinesSplit(t, j, s);
      NoNewlines(t[j..s]);
    }
  }

  lemma NewlinesSplit(s: seq<char>, i: nat, j: nat)
    requires i <= j <= |s|
    ensures Newlines(s[..j]) == Newlines(s[..i]) + Newlines(s[i..j])
  {
    assert s[..j] == s[..i] + s[i..j];
    NewlinesAppend(s[..i], s[i..j]);
  }

  /** In a text with a simulated line, that line starts at the very end and is empty. */
  lemma SimulatedLine(t: Text)
    requires HasSimulatedLine(t)
    ensures LineCount(t) == Newlines(t)
    ensures LineStart(t, Newlines(t)) == |t|
    ensures LineLen(t, Newlines(t)) == 0
  {
  }

  /** The last line of a text without a trailing newline runs to the end. */
  lemma OpenLastLine(t: Text)
    requires !HasSimulatedLine(t)
    ensures LineCount(t) == Newlines(t) + 1
    ensures LineStart(t, Newlines(t)) == LastLineStart(t)
    ensures LineStart(t, Newlines(t)) + LineLen(t, Newlines(t)) == |t|
  {
    var k, n := LastLineStart(t), Newlines(t);
    assert LineStart(t, n) == k;
    AfterLastLineStart(t);
    var rest := t[k..];
    assert rest[..|rest|] == rest;
    RunToNewlineBound(rest, |rest|);
    assert LineLen(t, n) == RunToNewline(rest) == |rest|;
  }

  /** A one-character step of a prefix adds that character's width. */
  lemma BytesPrefixStep(s: seq<char>, j: nat)
    requires j < |s|
    ensures Bytes(s[..j + 1]) == Bytes(s[..j]) + Width(s[j])
  {
    assert s[..j + 1] == s[..j] + [s[j]];
    BytesAppend(s[..j], [s[j]]);
    assert [s[j]][1..] == [];
  }

  /** Past the first `i` characters of a line's run, the run is `i` shorter. */
  lemma {:induction false} RunToNewlineDrop(s: seq<char>, i: nat)
    requires i <= RunToNewline(s)
    ensures RunToNewline(s[i..]) == RunToNewline(s) - i
  {
    if i > 0 {
      RunToNewlineDrop(s[1..], i - 1);
      assert s[1..][i - 1..] == s[i..];
    }
  }

  /** A run that stops before the end stops at a newline. */
  lemma {:induction false} RunToNewlineStop(s: seq<char>)
    requires RunToNewline(s) < |s|
    ensures IsNewline(s[RunToNewline(s)])
  {
    if !IsNewline(s[0]) {
      RunToNewlineStop(s[1..]);
    }
  }

  // ----- Reading backwards -----

  /** `chars().rev()`. */
  function Reverse(s: seq<char>): (r: seq<char>)
    ensures |r| == |s|
  {
    if s == [] then [] else [s[|s| - 1]] + Reverse(s[..|s| - 1])
  }

  /** The first `m` characters read backwards weigh what the last `m` characters do. */
  lemma {:induction false} BytesReverse(s: seq<char>, m: nat)
    requires m <= |s|
    ensures Bytes(Reverse(s)[..m]) == Bytes(s[|s| - m..])
  {
    if m == 0 {
      assert s[|s|..] == [];
    } else {
      var init, last := s[..|s| - 1], s[|s| - 1];
      var r := Reverse(s)[..m];
      assert r[0] == last;
      assert r[1..] == Reverse(init)[..m - 1];
      BytesReverse(init, m - 1);
      assert s[|s| - m..] == init[|s| - m..] + [last];
      BytesAppend(init[|s| - m..], [last]);
      assert [last][1..] == [];
    }
  }

  /** Read backwards, the run before the first newline is the part of the last line already passed. */
  lemma {:induction false} RunToNewlineReverse(s: seq<char>)
    ensures RunToNewline(Reverse(s)) == |s| - LastLineStart(s)
  {
    if s != [] && !IsNewline(s[|s| - 1]) {
      var init := s[..|s| - 1];
      assert Reverse(s)[1..] == Reverse(init);
      RunToNewlineReverse(init);
    }
  }
}
