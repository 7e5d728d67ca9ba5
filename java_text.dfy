/** The java.lang.String and java.lang.Integer operations the core relies on,
    with Java's own edge cases: indexOf returning -1, split dropping trailing
    empty strings, and parseInt rejecting anything outside the 32-bit range. */
module JavaText {
  import opened Wrappers

  const MaxInt: int := 0x7fff_ffff
  const MinInt: int := -0x8000_0000

  // ---------------------------------------------------------------------------
  // indexOf

  /** pat occurs in s starting at position i. */
  predicate OccursAt(s: string, pat: string, i: int) {
    0 <= i && i + |pat| <= |s| && s[i..i + |pat|] == pat
  }

  /** The first position at or after from where pat occurs in s, or -1. */
  function IndexOfFrom(s: string, pat: string, from: nat): (r: int)
    ensures r == -1 || (from <= r && OccursAt(s, pat, r))
    ensures forall i :: from <= i && (r == -1 || i < r) ==> !OccursAt(s, pat, i)
    decreases |s| - from
  {
    if from + |pat| > |s| then -1
    else if s[from..from + |pat|] == pat then from
    else IndexOfFrom(s, pat, from + 1)
  }

  /** String.indexOf(pat): the first occurrence of pat in s, or -1 when there is none. */
  function IndexOf(s: string, pat: string): (r: int)
    ensures r == -1 || OccursAt(s, pat, r)
    ensures r == -1 <==> forall i :: !OccursAt(s, pat, i)
    ensures forall i :: 0 <= i < r ==> !OccursAt(s, pat, i)
  {
    IndexOfFrom(s, pat, 0)
  }

  // ---------------------------------------------------------------------------
  // split

  /** A delimiter that java.util.regex matches with a fixed width: a literal
      string, or the class pattern " [letters]/" (a space, one of the letters,
      then a slash). */
  datatype Delimiter = Literal(text: string) | FlagMarker(letters: string) {
    function Width(): nat {
      match this
      case Literal(t) => |t|
      case FlagMarker(_) => 3
    }
  }

  /** The delimiter matches s at position i. */
  predicate MatchesAt(s: string, d: Delimiter, i: int) {
    0 <= i && i + d.Width() <= |s| &&
    match d
    case Literal(t) => s[i..i + |t|] == t
    case FlagMarker(ls) => s[i] == ' ' && s[i + 1] in ls && s[i + 2] == '/'
  }

  /** The first match of d at or after from, or -1. */
  function FirstMatch(s: string, d: Delimiter, from: nat): (r: int)
    ensures r == -1 || (from <= r && MatchesAt(s, d, r))
    ensures forall i :: from <= i && (r == -1 || i < r) ==> !MatchesAt(s, d, i)
    decreases |s| - from
  {
    if from + d.Width() > |s| then -1
    else if MatchesAt(s, d, from) then from
    else FirstMatch(s, d, from + 1)
  }

  /** The fields between successive left-to-right, non-overlapping matches of d,
      trailing empty fields included. */
  function Fields(s: string, d: Delimiter): (r: seq<string>)
    requires d.Width() > 0
    ensures |r| >= 1
    decreases |s|
  {
    var k := FirstMatch(s, d, 0);
    if k < 0 then [s] else [s[..k]] + Fields(s[k + d.Width()..], d)
  }

  /** Drops the empty strings at the end of fs. */
  function DropTrailingEmpty(fs: seq<string>): (r: seq<string>)
    ensures r <= fs
    ensures |r| > 0 ==> r[|r| - 1] != ""
    ensures forall i :: |r| <= i < |fs| ==> fs[i] == ""
  {
    if |fs| == 0 then []
    else if fs[|fs| - 1] == "" then DropTrailingEmpty(fs[..|fs| - 1])
    else fs
  }

  /** String.split(regex) with the default limit 0: with no match the result is
      the whole input, otherwise the fields with trailing empty strings removed
      (so "   ".split(" ") is an empty array). */
  function Split(s: string, d: Delimiter): seq<string>
    requires d.Width() > 0
  {
    if FirstMatch(s, d, 0) < 0 then [s] else DropTrailingEmpty(Fields(s, d))
  }

  /** Joins fields with sep between them. */
  function Join(fs: seq<string>, sep: string): string
    requires |fs| >= 1
  {
    if |fs| == 1 then fs[0] else fs[0] + sep + Join(fs[1..], sep)
  }

  /** Splitting on a literal loses nothing: joining the fields back with the
      separator gives the input. */
  lemma {:induction false} FieldsJoin(s: string, sep: string)
    requires |sep| > 0
    ensures Join(Fields(s, Literal(sep)), sep) == s
    decreases |s|
  {
    var d := Literal(sep);
    var k := FirstMatch(s, d, 0);
    if k >= 0 {
      var rest := s[k + |sep|..];
      FieldsJoin(rest, sep);
      FieldsAt(s, d, k);
      LiteralAt(s, sep, k);
      JoinFront(s[..k], Fields(rest, d), sep);
      Around(s, k, k + |sep|);
    } else {
      assert Fields(s, d) == [s];
    }
  }

  /** The fields of s, given its first match k. */
  lemma {:induction false} FieldsAt(s: string, d: Delimiter, k: int)
    requires d.Width() > 0 && k == FirstMatch(s, d, 0) && k >= 0
    ensures k + d.Width() <= |s| && MatchesAt(s, d, k)
    ensures Fields(s, d) == [s[..k]] + Fields(s[k + d.Width()..], d)
  {
    var w := d.Width();
    assert k + w <= |s|;
    var rest := s[k + w..];
    assert Fields(s, d) == [s[..k]] + Fields(rest, d);
  }

  /** A literal matches where its text occurs. */
  lemma {:induction false} LiteralAt(s: string, sep: string, k: int)
    requires MatchesAt(s, Literal(sep), k)
    ensures s[k..k + |sep|] == sep
  {
  }

  lemma {:induction false} JoinFront(a: string, fs: seq<string>, sep: string)
    requires |fs| >= 1
    ensures Join([a] + fs, sep) == a + sep + Join(fs, sep)
  {
    assert ([a] + fs)[1..] == fs;
  }

  /** A sequence is its three pieces around [i, j). */
  lemma {:induction false} Around<T>(s: seq<T>, i: int, j: int)
    requires 0 <= i <= j <= |s|
    ensures s == s[..i] + s[i..j] + s[j..]
  {
  }

  /** No field contains a match of the delimiter. */
  lemma {:induction false} FieldsHaveNoDelimiter(s: string, d: Delimiter, j: nat, i: int)
    requires d.Width() > 0
    requires j < |Fields(s, d)|
    ensures !MatchesAt(Fields(s, d)[j], d, i)
    decreases |s|
  {
    var k := FirstMatch(s, d, 0);
    if k < 0 {
      assert Fields(s, d) == [s];
    } else if j == 0 {
      FirstFieldHasNoMatch(s, d, k, i);
    } else {
      FieldsAt(s, d, k);
      FieldsHaveNoDelimiter(s[k + d.Width()..], d, j - 1, i);
      LaterField(s, d, k, j, i);
    }
  }

  /** Field j > 0 of s is field j - 1 of the text after the first match. */
  lemma {:induction false} LaterField(s: string, d: Delimiter, k: int, j: nat, i: int)
    requires d.Width() > 0 && k == FirstMatch(s, d, 0) && k >= 0
    requires 0 < j < |Fields(s, d)|
    requires k + d.Width() <= |s|
    requires j - 1 < |Fields(s[k + d.Width()..], d)|
    requires !MatchesAt(Fields(s[k + d.Width()..], d)[j - 1], d, i)
    ensures !MatchesAt(Fields(s, d)[j], d, i)
  {
    FieldsAt(s, d, k);
  }

  /** The text before the first match holds no match. */
  lemma {:induction false} FirstFieldHasNoMatch(s: string, d: Delimiter, k: int, i: int)
    requires d.Width() > 0 && k == FirstMatch(s, d, 0) && k >= 0
    ensures !MatchesAt(Fields(s, d)[0], d, i)
  {
    FieldsAt(s, d, k);
    if MatchesAt(s[..k], d, i) {
      PrefixMatch(s, d, k, i);
    }
  }

  /** A match inside a prefix of s is a match in s, before the prefix's end. */
  lemma {:induction false} PrefixMatch(s: string, d: Delimiter, k: nat, i: int)
    requires d.Width() > 0 && k <= |s| && MatchesAt(s[..k], d, i)
    ensures MatchesAt(s, d, i) && i < k
  {
    match d
    case Literal(t) =>
      assert s[..k][i..i + |t|] == s[i..i + |t|];
    case FlagMarker(ls) =>
      assert s[..k][i] == s[i] && s[..k][i + 1] == s[i + 1] && s[..k][i + 2] == s[i + 2];
  }

  // ---------------------------------------------------------------------------
  // decimal numbers

  predicate IsDigit(c: char) {
    '0' <= c <= '9'
  }

  predicate AllDigits(s: string) {
    forall i :: 0 <= i < |s| ==> IsDigit(s[i])
  }

  function DigitValue(c: char): nat
    requires IsDigit(c)
  {
    c as int - '0' as int
  }

  /** The value of a decimal digit string, accumulated left to right as
      Integer.parseInt does. */
  function DigitsValue(ds: string): nat
    requires AllDigits(ds)
  {
    if |ds| == 0 then 0 else DigitsValue(ds[..|ds| - 1]) * 10 + DigitValue(ds[|ds| - 1])
  }

  /** Integer.parseInt(s) in radix 10: an optional sign, at least one digit,
      and a value within the 32-bit range; None where Java throws
      NumberFormatException. */
  function ParseInt(s: string): (r: Option<int>)
    ensures r.Some? ==> MinInt <= r.value <= MaxInt
    ensures r.Some? ==> |s| > 0 && (IsDigit(s[0]) || s[0] == '-' || s[0] == '+')
    ensures s == "" || s == "-" || s == "+" ==> r.None?
  {
    if |s| == 0 then None
    else
      var signed := s[0] == '-' || s[0] == '+';
      var digits := if signed then s[1..] else s;
      if |digits| == 0 || !AllDigits(digits) then None
      else
        var v: int := if s[0] == '-' then -(DigitsValue(digits) as int) else DigitsValue(digits);
        if MinInt <= v <= MaxInt then Some(v) else None
  }

  /** An unsigned digit string within range parses to its value. */
  lemma {:induction false} ParseIntOfDigits(ds: string)
    requires |ds| > 0 && AllDigits(ds) && DigitsValue(ds) <= MaxInt
    ensures ParseInt(ds) == Some(DigitsValue(ds))
  {
    assert IsDigit(ds[0]);
  }

  function DigitChar(d: nat): char
    requires d < 10
  {
    ('0' as int + d) as char
  }

  /** The decimal text of n, as Java's string concatenation prints an int. */
  function NatToString(n: nat): (r: string)
    ensures |r| > 0 && AllDigits(r)
  {
    if n < 10 then [DigitChar(n)] else NatToString(n / 10) + [DigitChar(n % 10)]
  }

  lemma {:induction false} DigitsValueOfNatToString(n: nat)
    ensures DigitsValue(NatToString(n)) == n
  {
    var r := NatToString(n);
    if n >= 10 {
      DigitsValueOfNatToString(n / 10);
      assert r[..|r| - 1] == NatToString(n / 10);
    }
  }

  /** Printing an index and parsing it back gives the index. */
  lemma {:induction false} ParseIntOfNatToString(n: nat)
    requires n <= MaxInt
    ensures ParseInt(NatToString(n)) == Some(n)
  {
    DigitsValueOfNatToString(n);
  }
}
