/**
 * The chipboard-ID check of the DSC reader: Python's `re.match` with the pattern
 * `[A-Z]\d{2,2}-[A-Z]\d{4,4}` on a byte string. `re.match` anchors the pattern at
 * the start of the string only, so anything may follow a matching prefix.
 */
module Chipboard {
  import opened Text

  /** One character class of a pattern: `[A-Z]`, `\d` (ASCII digits for byte strings) or a literal. */
  datatype CharClass = Upper | Digit | Literal(c: char)

  /** A class repeated exactly `count` times: `X{n,n}`, with a bare `X` being `X{1,1}`. */
  datatype Atom = Atom(cls: CharClass, count: nat)

  predicate IsUpper(c: char) {
    'A' <= c <= 'Z'
  }

  predicate InClass(cls: CharClass, c: char) {
    match cls
    case Upper => IsUpper(c)
    case Digit => IsDigit(c)
    case Literal(l) => c == l
  }

  /** `[A-Z]\d{2,2}-[A-Z]\d{4,4}` as a sequence of atoms. */
  const ChipIdPattern: seq<Atom> :=
    [Atom(Upper, 1), Atom(Digit, 2), Atom(Literal('-'), 1), Atom(Upper, 1), Atom(Digit, 4)]

  function Repeat(cls: CharClass, n: nat): (r: seq<CharClass>)
    ensures |r| == n && forall k :: 0 <= k < n ==> r[k] == cls
  {
    if n == 0 then [] else [cls] + Repeat(cls, n - 1)
  }

  /** The classes a pattern matches, one per character. */
  function Expand(pattern: seq<Atom>): seq<CharClass>
  {
    if |pattern| == 0 then [] else Repeat(pattern[0].cls, pattern[0].count) + Expand(pattern[1..])
  }

  /** The characters of `s`, from the first on, fall into the classes `cs` one by one. */
  predicate MatchClasses(cs: seq<CharClass>, s: string)
  {
    |cs| == 0 || (|s| > 0 && InClass(cs[0], s[0]) && MatchClasses(cs[1..], s[1..]))
  }

  /** `re.match(pattern, s) is not None` for a pattern of fixed repetitions. */
  predicate MatchPrefix(pattern: seq<Atom>, s: string) {
    MatchClasses(Expand(pattern), s)
  }

  /** `isChipIdValid`. */
  predicate IsChipIdValid(s: string) {
    MatchPrefix(ChipIdPattern, s)
  }

  /** Matching at the start is a positional check of the first `|cs|` characters. */
  lemma {:induction false} MatchClassesIff(cs: seq<CharClass>, s: string)
    ensures MatchClasses(cs, s) <==> |cs| <= |s| && forall k :: 0 <= k < |cs| ==> InClass(cs[k], s[k])
  {
    if |cs| > 0 && |s| > 0 {
      MatchClassesIff(cs[1..], s[1..]);
      if InClass(cs[0], s[0]) && MatchClasses(cs[1..], s[1..]) {
        forall k | 0 <= k < |cs|
          ensures InClass(cs[k], s[k])
        {
          if k > 0 {
            assert cs[1..][k - 1] == cs[k] && s[1..][k - 1] == s[k];
          }
        }
      } else if |cs| <= |s| && forall k :: 0 <= k < |cs| ==> InClass(cs[k], s[k]) {
        assert InClass(cs[0], s[0]);
        forall k | 0 <= k < |cs| - 1
          ensures InClass(cs[1..][k], s[1..][k])
        {
          assert InClass(cs[k + 1], s[k + 1]);
        }
      }
    }
  }

  /**
   * A chipboard ID is valid exactly when it starts with an upper-case letter,
   * two digits, a hyphen, an upper-case letter and four digits (`U12-W3456`).
   */
  lemma ChipIdValidIff(s: string)
    ensures IsChipIdValid(s) <==>
      |s| >= 9 && IsUpper(s[0]) && IsDigit(s[1]) && IsDigit(s[2]) && s[3] == '-' &&
      IsUpper(s[4]) && IsDigit(s[5]) && IsDigit(s[6]) && IsDigit(s[7]) && IsDigit(s[8])
  {
    var cs := Expand(ChipIdPattern);
    assert cs == [Upper, Digit, Digit, Literal('-'), Upper, Digit, Digit, Digit, Digit];
    MatchClassesIff(cs, s);
  }

  /** Only the start is anchored: any text after a valid ID keeps it valid. */
  lemma ChipIdIgnoresSuffix(s: string, rest: string)
    requires IsChipIdValid(s)
    ensures IsChipIdValid(s + rest)
  {
    ChipIdValidIff(s);
    ChipIdValidIff(s + rest);
  }

  /** Examples: `U12-W3456` passes; lower case, short fields and bare digits fail. */
  lemma ChipIdExamples()
    ensures IsChipIdValid("U12-W3456")
    ensures IsChipIdValid("U12-W3456 spare")
    ensures !IsChipIdValid("u12-w3456")
    ensures !IsChipIdValid("U1-W345")
    ensures !IsChipIdValid("1234567")
    ensures !IsChipIdValid("U12-W345")
  {
    ChipIdValidIff("U12-W3456");
    ChipIdValidIff("U12-W3456 spare");
    ChipIdValidIff("u12-w3456");
    ChipIdValidIff("U1-W345");
    ChipIdValidIff("1234567");
    ChipIdValidIff("U12-W345");
  }
}
