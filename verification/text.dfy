/**
 * The Python 2 string operations the DSC reader relies on: `strip()`, `lower()`,
 * the `in` substring test, `split(sep)` with an explicit one-character separator,
 * and `int()` on a decimal string. A `string` stands for a Python 2 byte string,
 * one character per byte.
 */
module Text {
  import opened Wrappers

  /** The characters Python 2's `str.strip()` and `int()` treat as whitespace (C `isspace`). */
  predicate IsSpace(c: char) {
    c == ' ' || c == '\t' || c == '\n' || c == '\r' || c == '\U{000B}' || c == '\U{000C}'
  }

  predicate AllSpace(s: string) {
    forall k :: 0 <= k < |s| ==> IsSpace(s[k])
  }

  predicate NoSpace(s: string) {
    forall k :: 0 <= k < |s| ==> !IsSpace(s[k])
  }

  /** Neither starts nor ends with whitespace: what `strip()` returns. */
  predicate IsStripped(s: string) {
    s == [] || (!IsSpace(s[0]) && !IsSpace(s[|s| - 1]))
  }

  /** `s.lstrip()`: drops the leading whitespace. */
  function TrimLeft(s: string): (r: string)
    ensures |r| <= |s|
    ensures r == [] || !IsSpace(r[0])
  {
    if |s| > 0 && IsSpace(s[0]) then TrimLeft(s[1..]) else s
  }

  /** `s.rstrip()`: drops the trailing whitespace. */
  function TrimRight(s: string): (r: string)
    ensures |r| <= |s| && r == s[..|r|]
    ensures r == [] || !IsSpace(r[|r| - 1])
  {
    if |s| > 0 && IsSpace(s[|s| - 1]) then
      var r := TrimRight(s[..|s| - 1]);
      assert s[..|r|] == s[..|s| - 1][..|r|];
      r
    else s
  }

  /** `s.strip()`: the leading and the trailing whitespace removed. */
  function Strip(s: string): (r: string)
    ensures IsStripped(r)
  {
    TrimRight(TrimLeft(s))
  }

  /** `lstrip()` keeps a suffix and drops only whitespace before it. */
  lemma {:induction false} TrimLeftSuffix(s: string)
    ensures var r := TrimLeft(s); r == s[|s| - |r|..] && AllSpace(s[..|s| - |r|])
    decreases |s|
  {
    if |s| > 0 && IsSpace(s[0]) {
      TrimLeftSuffix(s[1..]);
      var r := TrimLeft(s);
      assert s[..|s| - |r|] == [s[0]] + s[1..][..|s| - 1 - |r|];
      assert s[|s| - |r|..] == s[1..][|s| - 1 - |r|..];
    }
  }

  /** `rstrip()` keeps a prefix and drops only whitespace after it. */
  lemma {:induction false} TrimRightPrefix(s: string)
    ensures var r := TrimRight(s); r == s[..|r|] && AllSpace(s[|r|..])
    decreases |s|
  {
    if |s| > 0 && IsSpace(s[|s| - 1]) {
      TrimRightPrefix(s[..|s| - 1]);
      var r := TrimRight(s);
      assert s[|r|..] == s[..|s| - 1][|r|..] + [s[|s| - 1]];
    }
  }

  lemma {:induction false} TrimLeftPadded(p: string, s: string)
    requires AllSpace(p) && (s == [] || !IsSpace(s[0]))
    ensures TrimLeft(p + s) == s
    decreases |p|
  {
    if |p| > 0 {
      assert (p + s)[1..] == p[1..] + s;
      TrimLeftPadded(p[1..], s);
    }
  }

  lemma {:induction false} TrimRightPadded(s: string, q: string)
    requires AllSpace(q) && (s == [] || !IsSpace(s[|s| - 1]))
    ensures TrimRight(s + q) == s
    decreases |q|
  {
    if |q| > 0 {
      assert (s + q)[..|s + q| - 1] == s + q[..|q| - 1];
      TrimRightPadded(s, q[..|q| - 1]);
    }
  }

  /**
   * `strip()` removes exactly the whitespace around a stripped string: together
   * with `IsStripped(Strip(s))` this pins `Strip` down completely.
   */
  lemma StripPadded(p: string, s: string, q: string)
    requires AllSpace(p) && AllSpace(q) && IsStripped(s)
    ensures Strip(p + s + q) == s
  {
    if s == [] {
      assert p + s + q == p + q;
      assert AllSpace(p + q);
      TrimLeftPadded(p + q, []);
      assert p + q + [] == p + q;
      TrimRightPadded([], []);
    } else {
      assert p + s + q == p + (s + q);
      TrimLeftPadded(p, s + q);
      TrimRightPadded(s, q);
    }
  }

  lemma StripStripped(s: string)
    requires IsStripped(s)
    ensures Strip(s) == s
  {
    StripPadded([], s, []);
    assert [] + s + [] == s;
  }

  /** Python 2 `str.lower()` on one byte: ASCII letters only. */
  function LowerChar(c: char): char {
    if 'A' <= c <= 'Z' then (c as int - 'A' as int + 'a' as int) as char else c
  }

  function Lower(s: string): string {
    seq(|s|, k requires 0 <= k < |s| => LowerChar(s[k]))
  }

  /**
   * `lower()` folds case and nothing else: each upper-case ASCII letter becomes
   * its lower-case partner, no upper-case ASCII letter is left, every other
   * character is kept, and lowering twice changes nothing.
   */
  lemma LowerFoldsCase(s: string)
    ensures |Lower(s)| == |s|
    ensures forall k :: 0 <= k < |s| && 'A' <= s[k] <= 'Z' ==> Lower(s)[k] as int == s[k] as int - 'A' as int + 'a' as int
    ensures forall k :: 0 <= k < |s| ==> !('A' <= Lower(s)[k] <= 'Z')
    ensures forall k :: 0 <= k < |s| && !('A' <= s[k] <= 'Z') ==> Lower(s)[k] == s[k]
    ensures Lower(Lower(s)) == Lower(s)
  {
  }

  /** `lower()` works character by character, so it distributes over concatenation. */
  lemma LowerConcat(a: string, b: string)
    ensures Lower(a + b) == Lower(a) + Lower(b)
  {
  }

  predicate IsPrefix(p: string, s: string) {
    |p| <= |s| && s[..|p|] == p
  }

  /** `p` occurs in `s` starting at position `a`. */
  predicate OccursAt(s: string, p: string, a: int) {
    0 <= a <= |s| - |p| && s[a..a + |p|] == p
  }

  /** Python's `p in s` on strings, scanning the start positions left to right. */
  predicate Contains(s: string, p: string)
  {
    IsPrefix(p, s) || (|s| > 0 && Contains(s[1..], p))
  }

  /** `Contains` holds exactly when `p` occurs at some position of `s`. */
  lemma {:induction false} ContainsIff(s: string, p: string)
    ensures Contains(s, p) <==> exists a :: OccursAt(s, p, a)
  {
    if IsPrefix(p, s) {
      assert OccursAt(s, p, 0);
    } else if |s| > 0 {
      ContainsIff(s[1..], p);
      if Contains(s[1..], p) {
        var a :| OccursAt(s[1..], p, a);
        assert OccursAt(s, p, a + 1) by {
          assert s[a + 1..a + 1 + |p|] == s[1..][a..a + |p|];
        }
      } else {
        forall a | OccursAt(s, p, a)
          ensures false
        {
          if a > 0 {
            assert OccursAt(s[1..], p, a - 1) by {
              assert s[a..a + |p|] == s[1..][a - 1..a - 1 + |p|];
            }
          }
        }
      }
    } else {
      assert forall a :: !OccursAt(s, p, a);
    }
  }

  /** Index of the first occurrence of `c` in `s`. */
  function IndexOf(s: string, c: char): (k: nat)
    requires c in s
    ensures k < |s| && s[k] == c && c !in s[..k]
  {
    if s[0] == c then 0 else
      var k := IndexOf(s[1..], c);
      assert s[..k + 1] == [s[0]] + s[1..][..k];
      k + 1
  }

  /** The inverse of `Split`: the pieces with `c` between each two neighbours. */
  function Join(pieces: seq<string>, c: char): string
  {
    if |pieces| == 0 then ""
    else if |pieces| == 1 then pieces[0]
    else pieces[0] + [c] + Join(pieces[1..], c)
  }

  /**
   * Python's `s.split(c)` for an explicit one-character separator: at least one
   * piece (so `"a  b"` has an empty middle piece and `""` splits into `[""]`);
   * `SplitPieces` and `JoinSplit` show the pieces are exactly the text between
   * separators.
   */
  function Split(s: string, c: char): (r: seq<string>)
    ensures |r| >= 1
    decreases |s|
  {
    if c !in s then [s]
    else
      var k := IndexOf(s, c);
      [s[..k]] + Split(s[k + 1..], c)
  }

  /** No piece holds the separator. */
  lemma {:induction false} SplitPieces(s: string, c: char)
    ensures forall k :: 0 <= k < |Split(s, c)| ==> c !in Split(s, c)[k]
    decreases |s|
  {
    if c in s {
      var k := IndexOf(s, c);
      SplitPieces(s[k + 1..], c);
      assert Split(s, c) == [s[..k]] + Split(s[k + 1..], c);
    }
  }

  /** Joining the pieces back with the separator gives the string that was split. */
  lemma {:induction false} JoinSplit(s: string, c: char)
    ensures Join(Split(s, c), c) == s
    decreases |s|
  {
    if c in s {
      var k := IndexOf(s, c);
      var p, rest := s[..k], s[k + 1..];
      assert s == p + [c] + rest;
      SplitCons(p, rest, c);
      JoinSplit(rest, c);
      JoinCons(p, Split(rest, c), c);
    }
  }

  /** Splitting a join of separator-free pieces gives the pieces back. */
  lemma {:induction false} SplitJoin(pieces: seq<string>, c: char)
    requires |pieces| >= 1
    requires forall k :: 0 <= k < |pieces| ==> c !in pieces[k]
    ensures Split(Join(pieces, c), c) == pieces
    decreases |pieces|
  {
    if |pieces| > 1 {
      var tail := pieces[1..];
      JoinCons(pieces[0], tail, c);
      assert pieces == [pieces[0]] + tail;
      SplitCons(pieces[0], Join(tail, c), c);
      SplitJoin(tail, c);
    }
  }

  /** A join of two or more pieces is the first, the separator, and the join of the rest. */
  lemma JoinCons(p: string, rest: seq<string>, c: char)
    requires |rest| >= 1
    ensures Join([p] + rest, c) == p + [c] + Join(rest, c)
  {
    assert ([p] + rest)[1..] == rest;
  }

  /** Text without the separator, then the separator, splits off as the first piece. */
  lemma SplitCons(p: string, rest: string, c: char)
    requires c !in p
    ensures Split(p + [c] + rest, c) == [p] + Split(rest, c)
  {
    var s := p + [c] + rest;
    assert s[|p|] == c;
    var k := IndexOf(s, c);
    assert s[..k] == p;
    assert s[k + 1..] == rest;
  }

  /** A join of non-empty pieces starts with the first piece and ends with the last. */
  lemma {:induction false} JoinEnds(pieces: seq<string>, c: char)
    requires |pieces| >= 1
    requires forall k :: 0 <= k < |pieces| ==> pieces[k] != []
    ensures var s := Join(pieces, c);
      |s| > 0 && s[0] == pieces[0][0] && s[|s| - 1] == pieces[|pieces| - 1][|pieces[|pieces| - 1]| - 1]
    decreases |pieces|
  {
    if |pieces| > 1 {
      JoinEnds(pieces[1..], c);
    }
  }

  lemma JoinTwo(a: string, b: string, c: char)
    ensures Join([a, b], c) == a + [c] + b
  {
    assert [a, b][1..] == [b];
  }

  predicate IsDigit(c: char) {
    '0' <= c <= '9'
  }

  predicate AllDigits(s: string) {
    forall k :: 0 <= k < |s| ==> IsDigit(s[k])
  }

  function DigitValue(c: char): nat
    requires IsDigit(c)
  {
    c as int - '0' as int
  }

  function DigitChar(d: nat): (c: char)
    requires d < 10
    ensures IsDigit(c) && DigitValue(c) == d
  {
    ('0' as int + d) as char
  }

  /** The value of a string of decimal digits, most significant first. */
  function DigitsValue(s: string): nat
    requires AllDigits(s)
  {
    if |s| == 0 then 0 else DigitsValue(s[..|s| - 1]) * 10 + DigitValue(s[|s| - 1])
  }

  /**
   * Python 2 `int(s)` in base 10: surrounding whitespace, an optional sign and
   * at least one ASCII digit; `None` where Python raises ValueError.
   */
  function ParseInt(s: string): Option<int>
  {
    var t := Strip(s);
    if |t| > 0 && (t[0] == '-' || t[0] == '+') then
      var ds := t[1..];
      if |ds| > 0 && AllDigits(ds) then
        var v: int := DigitsValue(ds);
        Some(if t[0] == '-' then -v else v)
      else None
    else if |t| > 0 && AllDigits(t) then Some(DigitsValue(t))
    else None
  }

  /** Shortest decimal spelling of a natural number. */
  function NatToString(n: nat): (r: string)
    ensures |r| >= 1
  {
    if n < 10 then [DigitChar(n)] else NatToString(n / 10) + [DigitChar(n % 10)]
  }

  /** The spelling is all digits, has no leading zero, and has the value `n`. */
  lemma {:induction false} NatToStringDigits(n: nat)
    ensures AllDigits(NatToString(n)) && DigitsValue(NatToString(n)) == n
    ensures NatToString(n)[0] != '0' || n == 0
  {
    if n >= 10 {
      NatToStringDigits(n / 10);
      var front := NatToString(n / 10);
      var r := NatToString(n);
      assert r == front + [DigitChar(n % 10)];
      assert r[..|r| - 1] == front;
    }
  }

  /** Python's `str(n)` for an integer. */
  function IntToString(n: int): (r: string)
    ensures |r| >= 1
  {
    if n < 0 then "-" + NatToString(-n) else NatToString(n)
  }

  /** `str(n)` is digits after an optional minus sign, so it holds no space, `=` or `.`. */
  lemma IntToStringNoSpace(n: int)
    ensures NoSpace(IntToString(n)) && IsStripped(IntToString(n))
    ensures ' ' !in IntToString(n) && '=' !in IntToString(n) && '.' !in IntToString(n)
    ensures IsDigit(IntToString(n)[|IntToString(n)| - 1])
  {
    var r := IntToString(n);
    NatToStringDigits(if n < 0 then -n else n);
    assert forall k :: 0 <= k < |r| ==> IsDigit(r[k]) || (k == 0 && r[k] == '-');
    assert forall k :: 0 <= k < |r| ==> r[k] != ' ' && r[k] != '=' && r[k] != '.' && !IsSpace(r[k]);
  }

  /** `int(str(n)) == n`. */
  lemma ParseIntOfString(n: int)
    ensures ParseInt(IntToString(n)) == Some(n)
  {
    if n < 0 {
      ParseIntOfNegative(n);
    } else {
      ParseIntOfNat(n);
    }
  }

  lemma ParseIntOfNat(n: nat)
    ensures ParseInt(NatToString(n)) == Some(n)
  {
    IntToStringNoSpace(n);
    NatToStringDigits(n);
    ParseIntUnsigned(NatToString(n));
  }

  lemma ParseIntOfNegative(n: int)
    requires n < 0
    ensures ParseInt(IntToString(n)) == Some(n)
  {
    var t := IntToString(n);
    IntToStringNoSpace(n);
    NatToStringDigits(-n);
    assert t[1..] == NatToString(-n);
    ParseIntNegative(t, -n);
  }

  /** A stripped run of digits reads as its value. */
  lemma ParseIntUnsigned(t: string)
    requires IsStripped(t) && |t| > 0 && AllDigits(t)
    ensures ParseInt(t) == Some(DigitsValue(t))
  {
    StripStripped(t);
  }

  /** A minus sign before a run of digits negates its value. */
  lemma ParseIntNegative(t: string, v: nat)
    requires IsStripped(t) && |t| > 1 && t[0] == '-' && AllDigits(t[1..]) && DigitsValue(t[1..]) == v
    ensures ParseInt(t) == Some(0 - v)
  {
    StripStripped(t);
  }

  /** `int()` ignores whitespace around its argument. */
  lemma ParseIntPadded(p: string, t: string, q: string)
    requires AllSpace(p) && AllSpace(q) && IsStripped(t)
    ensures ParseInt(p + t + q) == ParseInt(t)
  {
    StripPadded(p, t, q);
    StripStripped(t);
  }

  /** `int(str(n)) == n`, also with whitespace around the digits. */
  lemma ParseIntRoundTrip(p: string, n: int, q: string)
    requires AllSpace(p) && AllSpace(q)
    ensures ParseInt(p + IntToString(n) + q) == Some(n)
  {
    IntToStringNoSpace(n);
    ParseIntPadded(p, IntToString(n), q);
    ParseIntOfString(n);
  }
}
