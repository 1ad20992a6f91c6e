/**
  String helpers with Python's meaning: substring tests (`sub in s`),
  `startswith`/`endswith`, `str.split(sep)`, `sep.join(parts)`, ASCII case
  mapping, and the decimal rendering JavaScript uses for a non-negative
  integer.
 */
module Text {

  predicate IsPrefix(p: string, s: string) {
    |p| <= |s| && s[..|p|] == p
  }

  predicate IsSuffix(p: string, s: string) {
    |p| <= |s| && s[|s| - |p|..] == p
  }

  /** `sub` occurs in `s` starting at index `i`. */
  predicate OccursAt(s: string, sub: string, i: nat) {
    i + |sub| <= |s| && s[i..i + |sub|] == sub
  }

  /** Python's `sub in s` searched from index `i` onwards. */
  function ContainsFrom(s: string, sub: string, i: nat): (b: bool)
    requires i <= |s|
    ensures b <==> exists j :: i <= j <= |s| && OccursAt(s, sub, j)
    decreases |s| - i
  {
    if OccursAt(s, sub, i) then true
    else if i == |s| then false
    else ContainsFrom(s, sub, i + 1)
  }

  /** Python's `sub in s`. */
  function Contains(s: string, sub: string): (b: bool)
    ensures b <==> exists j :: 0 <= j <= |s| && OccursAt(s, sub, j)
  {
    ContainsFrom(s, sub, 0)
  }

  /** The first index of `c` in `s`. */
  function IndexOf(s: string, c: char): (i: nat)
    requires c in s
    ensures i < |s| && s[i] == c && c !in s[..i]
  {
    if s[0] == c then 0
    else
      var j := IndexOf(s[1..], c);
      assert s[..j + 1] == [s[0]] + s[1..][..j];
      j + 1
  }

  /** Python's `str.split(sep)` for a one-character separator: every
      occurrence splits, empty pieces are kept, and `"".split(sep)` is `[""]`. */
  function Split(s: string, sep: char): (parts: seq<string>)
    ensures |parts| >= 1
    ensures forall i :: 0 <= i < |parts| ==> sep !in parts[i]
    decreases |s|
  {
    if sep !in s then [s]
    else
      var i := IndexOf(s, sep);
      [s[..i]] + Split(s[i + 1..], sep)
  }

  /** Python's `sep.join(parts)`. */
  function Join(parts: seq<string>, sep: string): string
    decreases |parts|
  {
    if |parts| == 0 then ""
    else if |parts| == 1 then parts[0]
    else parts[0] + sep + Join(parts[1..], sep)
  }

  /** Joining the pieces of a split with the separator gives back the string. */
  lemma {:induction false} JoinSplit(s: string, sep: char)
    ensures Join(Split(s, sep), [sep]) == s
    decreases |s|
  {
    if sep in s {
      var i := IndexOf(s, sep);
      var rest := Split(s[i + 1..], sep);
      JoinSplit(s[i + 1..], sep);
      assert Split(s, sep) == [s[..i]] + rest;
      assert ([s[..i]] + rest)[1..] == rest;
      assert s == s[..i] + [sep] + s[i + 1..];
    }
  }

  /** Splitting a join of separator-free pieces gives back the pieces. */
  lemma {:induction false} SplitJoin(parts: seq<string>, sep: char)
    requires |parts| >= 1
    requires forall i :: 0 <= i < |parts| ==> sep !in parts[i]
    ensures Split(Join(parts, [sep]), sep) == parts
    decreases |parts|
  {
    if |parts| > 1 {
      var tail := Join(parts[1..], [sep]);
      assert Join(parts, [sep]) == parts[0] + [sep] + tail;
      SplitFirstPiece(parts[0], sep, tail);
      SplitJoin(parts[1..], sep);
      assert parts == [parts[0]] + parts[1..];
    }
  }

  /** A piece without the separator, followed by the separator, is the first
      piece of the split. */
  lemma SplitFirstPiece(piece: string, sep: char, tail: string)
    requires sep !in piece
    ensures Split(piece + [sep] + tail, sep) == [piece] + Split(tail, sep)
  {
    var s := piece + [sep] + tail;
    assert s[|piece|] == sep;
    assert s[..|piece|] == piece;
    assert IndexOf(s, sep) == |piece|;
    assert s[|piece| + 1..] == tail;
  }

  /** `w` occurs in `s` as a whole field: preceded by the start or a
      separator and followed by the end or a separator. */
  predicate DelimitedAt(s: string, w: string, sep: char, i: nat) {
    && OccursAt(s, w, i)
    && (i == 0 || s[i - 1] == sep)
    && (i + |w| == |s| || s[i + |w|] == sep)
  }

  predicate DelimitedIn(s: string, w: string, sep: char) {
    exists i: nat :: i <= |s| && DelimitedAt(s, w, sep, i)
  }

  /** Without separators in `s`, the only delimited word is `s` itself. */
  lemma DelimitedWithoutSeparator(s: string, w: string, sep: char)
    requires sep !in s
    ensures DelimitedIn(s, w, sep) <==> w == s
  {
    if w == s {
      assert DelimitedAt(s, w, sep, 0);
    }
    if DelimitedIn(s, w, sep) {
      var i: nat :| i <= |s| && DelimitedAt(s, w, sep, i);
      assert forall j :: 0 <= j < |s| ==> s[j] != sep;
      assert i == 0;
      assert |w| == |s|;
    }
  }

  /** A delimited word either ends at the first separator or lies beyond it. */
  lemma DelimitedBeforeOrAfter(s: string, w: string, sep: char, k: nat)
    requires sep !in w && k < |s| && s[k] == sep && sep !in s[..k]
    ensures DelimitedIn(s, w, sep) <==> w == s[..k] || DelimitedIn(s[k + 1..], w, sep)
  {
    if w == s[..k] {
      assert DelimitedAt(s, w, sep, 0);
    }
    if DelimitedIn(s[k + 1..], w, sep) {
      var j: nat :| j <= |s[k + 1..]| && DelimitedAt(s[k + 1..], w, sep, j);
      DelimitedShiftOut(s, w, sep, k, j);
    }
    if DelimitedIn(s, w, sep) {
      var i: nat :| i <= |s| && DelimitedAt(s, w, sep, i);
      if i <= k {
        DelimitedStartsAtZero(s, w, sep, k, i);
      } else {
        DelimitedShiftIn(s, w, sep, k, i);
      }
    }
  }

  lemma DelimitedShiftOut(s: string, w: string, sep: char, k: nat, j: nat)
    requires k < |s| && s[k] == sep
    requires j <= |s[k + 1..]| && DelimitedAt(s[k + 1..], w, sep, j)
    ensures DelimitedAt(s, w, sep, k + 1 + j)
  {
    var t := s[k + 1..];
    assert s[k + 1 + j..k + 1 + j + |w|] == t[j..j + |w|];
  }

  lemma DelimitedShiftIn(s: string, w: string, sep: char, k: nat, i: nat)
    requires k < i <= |s| && DelimitedAt(s, w, sep, i)
    ensures DelimitedAt(s[k + 1..], w, sep, i - k - 1)
  {
    var t := s[k + 1..];
    var j := i - k - 1;
    assert t[j..j + |w|] == s[i..i + |w|];
  }

  lemma DelimitedStartsAtZero(s: string, w: string, sep: char, k: nat, i: nat)
    requires sep !in w && k < |s| && s[k] == sep && sep !in s[..k]
    requires i <= k && DelimitedAt(s, w, sep, i)
    ensures w == s[..k]
  {
    assert forall j :: 0 <= j < k ==> s[j] != sep by {
      forall j | 0 <= j < k ensures s[j] != sep {
        assert s[j] == s[..k][j];
      }
    }
    assert forall j :: 0 <= j < |w| ==> s[i + j] == w[j];
    assert i == 0;
    assert forall j :: 0 <= j < |w| ==> w[j] != sep;
    assert |w| == k;
  }

  /** A separator-free word is one of the pieces of a split exactly when it
      occurs in the string delimited by separators or the ends. */
  lemma {:induction false} DelimitedInSplit(s: string, w: string, sep: char)
    requires sep !in w
    ensures w in Split(s, sep) <==> DelimitedIn(s, w, sep)
    decreases |s|
  {
    if sep !in s {
      DelimitedWithoutSeparator(s, w, sep);
    } else {
      var k := IndexOf(s, sep);
      DelimitedInSplit(s[k + 1..], w, sep);
      DelimitedBeforeOrAfter(s, w, sep, k);
      assert Split(s, sep) == [s[..k]] + Split(s[k + 1..], sep);
    }
  }

  predicate IsAsciiLower(c: char) {
    'a' <= c <= 'z'
  }

  predicate IsAsciiUpper(c: char) {
    'A' <= c <= 'Z'
  }

  function UpperChar(c: char): (u: char)
    ensures IsAsciiLower(c) ==> IsAsciiUpper(u)
    ensures !IsAsciiLower(c) ==> u == c
  {
    if IsAsciiLower(c) then (c as int - 32) as char else c
  }

  function LowerChar(c: char): (l: char)
    ensures IsAsciiUpper(c) ==> IsAsciiLower(l)
    ensures !IsAsciiUpper(c) ==> l == c
  {
    if IsAsciiUpper(c) then (c as int + 32) as char else c
  }

  /** `str.upper()` on ASCII text. */
  function Upper(s: string): (u: string)
    ensures |u| == |s|
    ensures forall i :: 0 <= i < |s| ==> u[i] == UpperChar(s[i])
  {
    seq(|s|, i requires 0 <= i < |s| => UpperChar(s[i]))
  }

  /** `str.lower()` on ASCII text. */
  function Lower(s: string): (l: string)
    ensures |l| == |s|
    ensures forall i :: 0 <= i < |s| ==> l[i] == LowerChar(s[i])
  {
    seq(|s|, i requires 0 <= i < |s| => LowerChar(s[i]))
  }

  /** `str.capitalize()` on ASCII text: first character upper-cased, the rest
      lower-cased. */
  function Capitalize(s: string): (c: string)
    ensures |c| == |s|
    ensures |s| > 0 ==> c[0] == UpperChar(s[0])
    ensures forall i :: 1 <= i < |s| ==> c[i] == LowerChar(s[i])
  {
    if |s| == 0 then "" else [UpperChar(s[0])] + Lower(s[1..])
  }

  /** `s.replace(a, b)` for one-character `a` and `b`. */
  function ReplaceChar(s: string, a: char, b: char): (r: string)
    ensures |r| == |s|
    ensures forall i :: 0 <= i < |s| ==> r[i] == (if s[i] == a then b else s[i])
  {
    seq(|s|, i requires 0 <= i < |s| => if s[i] == a then b else s[i])
  }

  predicate IsDigit(c: char) {
    '0' <= c <= '9'
  }

  function DigitChar(d: nat): (c: char)
    requires d < 10
    ensures IsDigit(c)
    ensures c == '0' <==> d == 0
  {
    ('0' as int + d) as char
  }

  /** The decimal text JavaScript produces for a non-negative integer. */
  function NatToString(n: nat): (s: string)
    ensures |s| >= 1
    ensures forall i :: 0 <= i < |s| ==> IsDigit(s[i])
    ensures s[0] == '0' <==> n == 0
    ensures n == 0 ==> s == "0"
  {
    if n < 10 then [DigitChar(n)] else NatToString(n / 10) + [DigitChar(n % 10)]
  }

  /** The value of a string of decimal digits. */
  function DigitsValue(s: string): nat
    requires forall i :: 0 <= i < |s| ==> IsDigit(s[i])
  {
    if |s| == 0 then 0
    else
      var last := s[|s| - 1];
      assert IsDigit(last);
      DigitsValue(s[..|s| - 1]) * 10 + (last as int - '0' as int)
  }

  lemma {:induction false} DigitsValueOfNatToString(n: nat)
    ensures DigitsValue(NatToString(n)) == n
  {
    if n >= 10 {
      var s := NatToString(n);
      assert s[..|s| - 1] == NatToString(n / 10);
      DigitsValueOfNatToString(n / 10);
    }
  }
}
