/** The string primitives the note store relies on: Python's `str.isalnum`,
    `str.lower`, `str.strip`, `str.split` and the `in` substring test, all
    restricted to ASCII. */
module Text {

  predicate IsAsciiDigit(ch: char) {
    '0' <= ch <= '9'
  }

  predicate IsAsciiUpper(ch: char) {
    'A' <= ch <= 'Z'
  }

  predicate IsAsciiLower(ch: char) {
    'a' <= ch <= 'z'
  }

  /** `str.isalnum` on a single ASCII character. */
  predicate IsAlnum(ch: char) {
    IsAsciiDigit(ch) || IsAsciiUpper(ch) || IsAsciiLower(ch)
  }

  /** The ASCII characters for which Python's `str.isspace` holds. */
  predicate IsSpace(ch: char) {
    var c := ch as int;
    c == 32 || 9 <= c <= 13 || 28 <= c <= 31
  }

  function LowerChar(ch: char): char {
    if IsAsciiUpper(ch) then (ch as int - 'A' as int + 'a' as int) as char else ch
  }

  /** `str.lower` on ASCII: upper-case letters are mapped to lower case,
      everything else is kept. */
  function Lower(s: string): (r: string)
    ensures |r| == |s|
    ensures forall i :: 0 <= i < |s| ==> r[i] == LowerChar(s[i])
  {
    seq(|s|, i requires 0 <= i < |s| => LowerChar(s[i]))
  }

  /** A string without upper-case letters is its own lower-case form. */
  lemma LowerKeepsLowerCase(s: string)
    requires forall i :: 0 <= i < |s| ==> !IsAsciiUpper(s[i])
    ensures Lower(s) == s
  {
  }

  lemma LowerIdempotent(s: string)
    ensures Lower(Lower(s)) == Lower(s)
    ensures forall i :: 0 <= i < |s| ==> !IsAsciiUpper(Lower(s)[i])
  {
  }

  // ---------------------------------------------------------------------
  // Substring test (`q in s`)
  // ---------------------------------------------------------------------

  /** `q` occurs in `s` starting at position `i`. */
  ghost predicate OccursAt(q: string, s: string, i: int) {
    0 <= i && i + |q| <= |s| && s[i..i + |q|] == q
  }

  /** The reference meaning of Python's `q in s`: some window of `s` equals `q`. */
  ghost predicate Occurs(q: string, s: string) {
    exists i :: OccursAt(q, s, i)
  }

  /** Python's `q in s`, computed by trying each start position in turn. */
  function Contains(s: string, q: string): (b: bool)
    ensures b <==> Occurs(q, s)
    decreases |s|
  {
    if q <= s then
      assert OccursAt(q, s, 0);
      true
    else if |s| == 0 then
      assert forall i :: !OccursAt(q, s, i);
      false
    else
      var b := Contains(s[1..], q);
      ShiftOccurrence(q, s);
      b
  }

  /** When `q` is not a prefix of a non-empty `s`, it occurs in `s` exactly
      when it occurs in `s[1..]`. */
  lemma ShiftOccurrence(q: string, s: string)
    requires |s| > 0 && !(q <= s)
    ensures Occurs(q, s[1..]) <==> Occurs(q, s)
  {
    if Occurs(q, s[1..]) {
      var i :| OccursAt(q, s[1..], i);
      assert s[1..][i..i + |q|] == s[i + 1..i + 1 + |q|];
      assert OccursAt(q, s, i + 1);
    }
    if Occurs(q, s) {
      var i :| OccursAt(q, s, i);
      assert i != 0;
      assert s[1..][i - 1..i - 1 + |q|] == s[i..i + |q|];
      assert OccursAt(q, s[1..], i - 1);
    }
  }

  /** Every character of an occurring string is a character of the string
      it occurs in. */
  lemma OccursKeepsChars(q: string, s: string)
    ensures Occurs(q, s) ==> forall ch :: ch in q ==> ch in s
  {
    if Occurs(q, s) {
      var i :| OccursAt(q, s, i);
      forall ch | ch in q
        ensures ch in s
      {
        var j :| 0 <= j < |q| && q[j] == ch;
        assert s[i..i + |q|][j] == s[i + j];
      }
    }
  }

  // ---------------------------------------------------------------------
  // Splitting and joining on a separator (`s.split(sep)`)
  // ---------------------------------------------------------------------

  /** `sep.join(parts)`; defined on the non-empty lists `split` produces. */
  function JoinWith(parts: seq<string>, sep: char): string
    requires |parts| >= 1
  {
    if |parts| == 1 then parts[0] else parts[0] + [sep] + JoinWith(parts[1..], sep)
  }

  /** Python's `s.split(sep)` for a one-character separator: at least one
      piece, no piece holds the separator, and joining the pieces back with
      the separator gives `s` again. */
  function Split(s: string, sep: char): (parts: seq<string>)
    ensures |parts| >= 1
    ensures forall i :: 0 <= i < |parts| ==> sep !in parts[i]
    ensures JoinWith(parts, sep) == s
    ensures sep !in s ==> parts == [s]
    ensures sep in s ==> |parts| >= 2
    decreases |s|
  {
    if |s| == 0 then
      [""]
    else
      var rest := Split(s[1..], sep);
      if s[0] == sep then
        assert JoinWith([""] + rest, sep) == [sep] + JoinWith(rest, sep);
        assert [sep] + s[1..] == s;
        [""] + rest
      else
        var parts := [[s[0]] + rest[0]] + rest[1..];
        assert parts[1..] == rest[1..];
        assert [s[0]] + s[1..] == s;
        if |rest| == 1 then
          parts
        else
          assert JoinWith(rest, sep) == rest[0] + [sep] + JoinWith(rest[1..], sep);
          assert JoinWith(parts, sep) == ([s[0]] + rest[0]) + [sep] + JoinWith(rest[1..], sep);
          parts
  }

  /** The other half of the round trip: splitting a join of separator-free
      pieces gives the pieces back. */
  lemma {:induction false} SplitJoin(parts: seq<string>, sep: char)
    requires |parts| >= 1
    requires forall i :: 0 <= i < |parts| ==> sep !in parts[i]
    ensures Split(JoinWith(parts, sep), sep) == parts
    decreases |parts|
  {
    if |parts| == 1 {
    } else {
      SplitJoin(parts[1..], sep);
      var tail := JoinWith(parts[1..], sep);
      SplitAfterPiece(parts[0], tail, sep);
      assert Split(JoinWith(parts, sep), sep) == [parts[0]] + Split(tail, sep);
      assert [parts[0]] + parts[1..] == parts;
    }
  }

  /** Splitting `piece + [sep] + tail`, where `piece` holds no separator,
      yields `piece` followed by the pieces of `tail`. */
  lemma {:induction false} SplitAfterPiece(piece: string, tail: string, sep: char)
    requires sep !in piece
    ensures Split(piece + [sep] + tail, sep) == [piece] + Split(tail, sep)
    decreases |piece|
  {
    var s := piece + [sep] + tail;
    if |piece| == 0 {
      assert s == [sep] + tail;
      assert s[1..] == tail;
    } else {
      assert s[0] == piece[0];
      assert s[1..] == piece[1..] + [sep] + tail;
      SplitAfterPiece(piece[1..], tail, sep);
      assert [piece[0]] + piece[1..] == piece;
    }
  }

  // ---------------------------------------------------------------------
  // Whitespace trimming (`s.strip()`)
  // ---------------------------------------------------------------------

  /** The number of leading whitespace characters of `s`. */
  function LeadingSpaces(s: string): (n: nat)
    ensures n <= |s|
    ensures forall k :: 0 <= k < n ==> IsSpace(s[k])
    ensures n < |s| ==> !IsSpace(s[n])
    decreases |s|
  {
    if |s| == 0 || !IsSpace(s[0]) then 0 else 1 + LeadingSpaces(s[1..])
  }

  /** The number of trailing whitespace characters of `s`. */
  function TrailingSpaces(s: string): (n: nat)
    ensures n <= |s|
    ensures forall k :: |s| - n <= k < |s| ==> IsSpace(s[k])
    ensures n < |s| ==> !IsSpace(s[|s| - n - 1])
    decreases |s|
  {
    if |s| == 0 || !IsSpace(s[|s| - 1]) then 0 else 1 + TrailingSpaces(s[..|s| - 1])
  }

  /** Python's `s.strip()`: the result is a contiguous slice of `s`, what is
      cut away on either side is whitespace, and the result neither starts
      nor ends with whitespace. */
  function Strip(s: string): (r: string)
    ensures exists i, j ::
              && 0 <= i <= j <= |s| && r == s[i..j]
              && (forall k :: 0 <= k < i ==> IsSpace(s[k]))
              && (forall k :: j <= k < |s| ==> IsSpace(s[k]))
    ensures |r| > 0 ==> !IsSpace(r[0]) && !IsSpace(r[|r| - 1])
    ensures forall k :: 0 <= k < |r| ==> r[k] in s
  {
    var i := LeadingSpaces(s);
    if i == |s| then
      assert s[i..i] == "";
      ""
    else
      var j := |s| - TrailingSpaces(s);
      assert i < j;
      s[i..j]
  }
}
