/** String helpers with the meaning JavaScript gives them in the pages:
    `trim`, the regular-expression class `\s`, `toLowerCase`, `includes`,
    `endsWith`, `split` on one separator character and `join`. A string is
    a sequence of Unicode characters; JavaScript counts UTF-16 code units
    instead, which differs only for characters outside the Basic
    Multilingual Plane. */
module Text {

  datatype Option<T> = None | Some(value: T)

  /** The white space that `String.prototype.trim` removes and that `\s`
      matches: the ECMAScript WhiteSpace and LineTerminator characters.
      Below U+0080 these are the space and TAB, LF, VT, FF, CR; above it,
      NBSP, U+1680, U+2000 to U+200A, LS, PS, U+202F, U+205F, U+3000 and
      the byte-order mark. */
  predicate IsSpace(c: char) {
    if c < '\U{80}' then c == ' ' || ('\t' <= c <= '\r')
    else ('\U{2000}' <= c <= '\U{200A}') || Among(c, "\U{A0}\U{1680}\U{2028}\U{2029}\U{202F}\U{205F}\U{3000}\U{FEFF}")
  }

  /** `c` is one of the characters of `chars` (a recursion, so that the
      verifier unfolds it only as far as a proof needs). */
  predicate Among(c: char, chars: string)
    decreases |chars|
  {
    chars != [] && (c == chars[0] || Among(c, chars[1..]))
  }

  /** Every character of `s` is white space (this includes the empty string). */
  predicate IsBlank(s: string) {
    forall i :: 0 <= i < |s| ==> IsSpace(s[i])
  }

  /** The end of the run of white space that starts at `from`. */
  function SpaceEnd(s: string, from: nat): (e: nat)
    requires from <= |s|
    ensures from <= e <= |s|
    ensures forall d :: from <= d < e ==> IsSpace(s[d])
    ensures e < |s| ==> !IsSpace(s[e])
    decreases |s| - from
  {
    if from < |s| && IsSpace(s[from]) then SpaceEnd(s, from + 1) else from
  }

  /** A run of white space from `from` that stops at a non-space (or at
      the end) at `e` is the run `SpaceEnd` finds. */
  lemma {:induction false} SpaceEndAt(s: string, from: nat, e: nat)
    requires from <= e <= |s|
    requires forall d :: from <= d < e ==> IsSpace(s[d])
    requires e == |s| || !IsSpace(s[e])
    ensures SpaceEnd(s, from) == e
    decreases e - from
  {
    if from < e {
      SpaceEndAt(s, from + 1, e);
    }
  }

  /** JavaScript's `s.trim()`: leading and trailing white space removed.
      Written as one recursion, so that a proof that only compares trimmed
      strings does not unfold it. */
  function Trim(s: string): (r: string)
    ensures |r| <= |s|
    ensures r == [] || (!IsSpace(r[0]) && !IsSpace(r[|r| - 1]))
    decreases |s|
  {
    if s != [] && IsSpace(s[0]) then Trim(s[1..])
    else if s != [] && IsSpace(s[|s| - 1]) then Trim(s[..|s| - 1])
    else s
  }

  /** `!s.trim()` in the source: a string trims to nothing exactly when it
      is blank. */
  lemma {:induction false} TrimEmptyIffBlank(s: string)
    ensures Trim(s) == [] <==> IsBlank(s)
    decreases |s|
  {
    if s != [] && IsSpace(s[0]) {
      TrimEmptyIffBlank(s[1..]);
      assert forall i :: 0 < i < |s| ==> s[i] == s[1..][i - 1];
    } else if s != [] && IsSpace(s[|s| - 1]) {
      TrimEmptyIffBlank(s[..|s| - 1]);
      assert forall i :: 0 <= i < |s| - 1 ==> s[i] == s[..|s| - 1][i];
    }
  }

  /** `s[a..b]` is `s` with a blank prefix and a blank suffix cut off. */
  predicate TrimmedTo(s: string, a: int, b: int) {
    && 0 <= a <= b <= |s|
    && (forall i :: 0 <= i < a ==> IsSpace(s[i]))
    && (forall i :: b <= i < |s| ==> IsSpace(s[i]))
  }

  /** `trim` removes only white space, and only at the ends: the result is
      the slice of `s` between a blank prefix and a blank suffix. */
  lemma {:induction false} TrimIsSlice(s: string)
    ensures exists a, b :: TrimmedTo(s, a, b) && Trim(s) == s[a..b]
    decreases |s|
  {
    if s != [] && IsSpace(s[0]) {
      TrimIsSlice(s[1..]);
      var a, b :| TrimmedTo(s[1..], a, b) && Trim(s[1..]) == s[1..][a..b];
      TrimmedFront(s, a, b);
    } else if s != [] && IsSpace(s[|s| - 1]) {
      TrimIsSlice(s[..|s| - 1]);
      var a, b :| TrimmedTo(s[..|s| - 1], a, b) && Trim(s[..|s| - 1]) == s[..|s| - 1][a..b];
      TrimmedBack(s, a, b);
    } else {
      assert TrimmedTo(s, 0, |s|) && s[0..|s|] == s;
    }
  }

  /** A leading space widens the blank prefix by one. */
  lemma TrimmedFront(s: string, a: int, b: int)
    requires s != [] && IsSpace(s[0]) && TrimmedTo(s[1..], a, b)
    ensures TrimmedTo(s, a + 1, b + 1) && s[1..][a..b] == s[a + 1..b + 1]
  {
    assert forall i :: 1 <= i < |s| ==> s[i] == s[1..][i - 1];
  }

  /** A trailing space widens the blank suffix by one. */
  lemma TrimmedBack(s: string, a: int, b: int)
    requires s != [] && IsSpace(s[|s| - 1]) && TrimmedTo(s[..|s| - 1], a, b)
    ensures TrimmedTo(s, a, b) && s[..|s| - 1][a..b] == s[a..b]
  {
    assert forall i :: 0 <= i < |s| - 1 ==> s[i] == s[..|s| - 1][i];
  }

  /** Trimming adds no character. */
  lemma {:induction false} TrimKeepsOut(s: string, c: char)
    requires c !in s
    ensures c !in Trim(s)
    decreases |s|
  {
    if s != [] && IsSpace(s[0]) {
      TrimKeepsOut(s[1..], c);
    } else if s != [] && IsSpace(s[|s| - 1]) {
      TrimKeepsOut(s[..|s| - 1], c);
    }
  }

  /** `toLowerCase` on one code unit (ASCII letters only). */
  function LowerChar(c: char): (r: char)
    ensures 'A' <= c <= 'Z' ==> 'a' <= r <= 'z'
    ensures !('A' <= c <= 'Z') ==> r == c
  {
    if 'A' <= c <= 'Z' then (c as int + 32) as char else c
  }

  /** JavaScript's `s.toLowerCase()`, restricted to ASCII letters. */
  function Lower(s: string): (r: string)
    ensures |r| == |s|
    ensures forall i :: 0 <= i < |s| ==> r[i] == LowerChar(s[i])
  {
    seq(|s|, i requires 0 <= i < |s| => LowerChar(s[i]))
  }

  /** `s.startsWith(p)`. */
  predicate StartsWith(s: string, p: string) {
    |p| <= |s| && s[..|p|] == p
  }

  /** `s.endsWith(p)`. */
  predicate EndsWith(s: string, p: string) {
    |p| <= |s| && s[|s| - |p|..] == p
  }

  /** `s.includes(t)`: `t` occurs somewhere in `s`. */
  predicate Contains(s: string, t: string)
    decreases |s|
  {
    StartsWith(s, t) || (s != [] && Contains(s[1..], t))
  }

  /** `t` occurs in `s` starting at index `i`. */
  predicate OccursAt(s: string, t: string, i: int) {
    0 <= i <= |s| - |t| && s[i..i + |t|] == t
  }

  /** `includes` agrees with the textbook definition of a substring. */
  lemma {:induction false} ContainsIff(s: string, t: string)
    ensures Contains(s, t) <==> exists i :: OccursAt(s, t, i)
    decreases |s|
  {
    if s == [] {
      if Contains(s, t) { assert OccursAt(s, t, 0); }
    } else {
      ContainsIff(s[1..], t);
      if Contains(s, t) {
        if StartsWith(s, t) {
          assert OccursAt(s, t, 0);
        } else {
          var i :| OccursAt(s[1..], t, i);
          OccursShift(s, t, i + 1);
        }
      } else {
        forall i | OccursAt(s, t, i) ensures false {
          if i > 0 {
            OccursShift(s, t, i);
          }
        }
      }
    }
  }

  /** An occurrence after the first character is an occurrence in the rest. */
  lemma OccursShift(s: string, t: string, i: int)
    requires s != [] && i >= 1
    ensures OccursAt(s, t, i) <==> OccursAt(s[1..], t, i - 1)
  {
    if 0 <= i - 1 <= |s| - 1 - |t| {
      assert s[1..][i - 1..i - 1 + |t|] == s[i..i + |t|];
    }
  }

  /** Every string includes the empty string. */
  lemma {:induction false} ContainsEmpty(s: string)
    ensures Contains(s, [])
  {
  }

  /** `s.split(sep)`: the maximal pieces between separators, at least one
      piece (the empty string splits into `[""]`). */
  function Split(s: string, sep: char): (r: seq<string>)
    ensures |r| >= 1
    ensures forall i :: 0 <= i < |r| ==> sep !in r[i]
    decreases |s|
  {
    if s == [] then [[]]
    else
      var rest := Split(s[1..], sep);
      if s[0] == sep then [[]] + rest else [[s[0]] + rest[0]] + rest[1..]
  }

  /** `pieces.join(sep)`. */
  function Join(pieces: seq<string>, sep: char): string
    requires |pieces| >= 1
  {
    if |pieces| == 1 then pieces[0] else pieces[0] + [sep] + Join(pieces[1..], sep)
  }

  /** Splitting loses nothing: joining the pieces back gives the string. */
  lemma {:induction false} JoinSplit(s: string, sep: char)
    ensures Join(Split(s, sep), sep) == s
    decreases |s|
  {
    if s != [] {
      JoinSplit(s[1..], sep);
      var rest := Split(s[1..], sep);
      if s[0] != sep && |rest| > 1 {
        assert Split(s, sep)[1..] == rest[1..];
      }
    }
  }

  /** Splitting a string with no separator gives it back whole. */
  lemma {:induction false} SplitNoSeparator(s: string, sep: char)
    requires sep !in s
    ensures Split(s, sep) == [s]
    decreases |s|
  {
    if s != [] {
      SplitNoSeparator(s[1..], sep);
      assert [s[0]] + s[1..] == s;
    }
  }

  /** The first piece of `s.split(sep)` is the text before the first `sep`. */
  lemma {:induction false} SplitFirstPiece(s: string, sep: char)
    ensures StartsWith(s, Split(s, sep)[0])
    ensures |Split(s, sep)[0]| < |s| ==> s[|Split(s, sep)[0]|] == sep
    decreases |s|
  {
    if s != [] {
      SplitFirstPiece(s[1..], sep);
    }
  }

  /** Splitting at the first separator: the text before it is the first
      piece and the pieces of the text after it follow. */
  lemma {:induction false} SplitAfterSeparator(a: string, b: string, sep: char)
    requires sep !in a
    ensures Split(a + [sep] + b, sep) == [a] + Split(b, sep)
    decreases |a|
  {
    if a == [] {
      assert [] + [sep] + b == [sep] + b;
      assert ([sep] + b)[1..] == b;
    } else {
      SplitAfterSeparator(a[1..], b, sep);
      assert (a + [sep] + b)[1..] == a[1..] + [sep] + b;
      assert [a[0]] + a[1..] == a;
    }
  }

  predicate IsDigit(c: char) {
    '0' <= c <= '9'
  }

  /** The end of the run of decimal digits that starts at `from`. */
  function DigitEnd(s: string, from: nat): (e: nat)
    requires from <= |s|
    ensures from <= e <= |s|
    ensures forall d :: from <= d < e ==> IsDigit(s[d])
    ensures e < |s| ==> !IsDigit(s[e])
    decreases |s| - from
  {
    if from < |s| && IsDigit(s[from]) then DigitEnd(s, from + 1) else from
  }

  /** A run of digits from `from` that stops at a non-digit (or at the
      end) at `e` is the run `DigitEnd` finds. */
  lemma {:induction false} DigitEndAt(s: string, from: nat, e: nat)
    requires from <= e <= |s|
    requires forall d :: from <= d < e ==> IsDigit(s[d])
    requires e == |s| || !IsDigit(s[e])
    ensures DigitEnd(s, from) == e
    decreases e - from
  {
    if from < e {
      DigitEndAt(s, from + 1, e);
    }
  }

  /** The value of a string of decimal digits. */
  function DigitsValue(s: string): int
    requires forall i :: 0 <= i < |s| ==> IsDigit(s[i])
  {
    if s == [] then 0 else 10 * DigitsValue(s[..|s| - 1]) + (s[|s| - 1] as int - '0' as int)
  }

  /** `String(n)` for a non-negative integer: its decimal numeral. */
  function NatToString(n: nat): (r: string)
    ensures |r| >= 1
    ensures forall i :: 0 <= i < |r| ==> IsDigit(r[i])
  {
    if n < 10 then [('0' as int + n) as char]
    else NatToString(n / 10) + [('0' as int + n % 10) as char]
  }

  /** The numeral reads back as the number. */
  lemma {:induction false} NatToStringValue(n: nat)
    ensures DigitsValue(NatToString(n)) == n
  {
    if n >= 10 {
      NatToStringValue(n / 10);
      var r := NatToString(n);
      assert r[..|r| - 1] == NatToString(n / 10);
    }
  }

  /** `s` is a string of decimal digits whose value is `n`. */
  predicate IsNumeral(s: string, n: int) {
    (forall i :: 0 <= i < |s| ==> IsDigit(s[i])) && DigitsValue(s) == n
  }

  /** `s` is `n` written in decimal, with a leading `-` when negative. */
  predicate IsSignedNumeral(s: string, n: int) {
    if n >= 0 then IsNumeral(s, n) else |s| >= 1 && s[0] == '-' && IsNumeral(s[1..], -n)
  }

  /** `String(n)` for any integer. */
  function IntToString(n: int): (r: string)
    ensures |r| >= 1
    ensures forall i :: 0 <= i < |r| ==> IsDigit(r[i]) || r[i] == '-'
    ensures IsSignedNumeral(r, n)
  {
    if n < 0 then
      NatToStringValue(-n);
      assert ("-" + NatToString(-n))[1..] == NatToString(-n);
      "-" + NatToString(-n)
    else
      NatToStringValue(n);
      NatToString(n)
  }
}
