/**
 * The text formatting the simplifier applies to numbers and enum names:
 * Go's `%.0f` verb followed by the literal `px`, space-separated lists of
 * such values, ASCII lower-casing (`strings.ToLower`) and the `%v` rendering
 * of component-property values.
 *
 * The number formatters (`Px`, `PxList`) come with a parser that reads
 * their output back, and the round trip is proved, so the strings the
 * simplifier emits are known to carry exactly the rounded numbers they
 * were made from. `Lower` is stated character by character, and `ToStr`
 * reads back as the value for the cases it renders exactly.
 */
module Format {
  import opened Wrappers
  import opened JsonValue

  // ---------------------------------------------------------------------
  // Decimal digits
  // ---------------------------------------------------------------------

  predicate IsDigit(c: char) {
    '0' <= c <= '9'
  }

  predicate AllDigits(s: string) {
    forall i :: 0 <= i < |s| ==> IsDigit(s[i])
  }

  function DigitChar(d: nat): (c: char)
    requires d < 10
    ensures IsDigit(c)
    ensures c as int - '0' as int == d
  {
    ('0' as int + d) as char
  }

  /** Decimal representation of `n`, most significant digit first. */
  function NatToString(n: nat): (s: string)
    ensures 1 <= |s|
    ensures AllDigits(s)
    ensures n < 10 <==> |s| == 1
    ensures s[0] == '0' <==> n == 0
    ensures |s| > 1 ==> s[0] != '0'
    decreases n
  {
    if n < 10 then [DigitChar(n)] else NatToString(n / 10) + [DigitChar(n % 10)]
  }

  /** The number a string of decimal digits denotes. */
  function DigitsValue(s: string): nat
    requires AllDigits(s)
    decreases |s|
  {
    if s == [] then 0
    else DigitsValue(s[..|s| - 1]) * 10 + (s[|s| - 1] as int - '0' as int)
  }

  lemma {:induction false} DigitsValueOfNatToString(n: nat)
    ensures DigitsValue(NatToString(n)) == n
    decreases n
  {
    if n >= 10 {
      var s := NatToString(n);
      assert s[..|s| - 1] == NatToString(n / 10);
      DigitsValueOfNatToString(n / 10);
    }
  }

  // ---------------------------------------------------------------------
  // Go's %.0f: round half to even, then print the sign and the digits
  // ---------------------------------------------------------------------

  /** The integer nearest to `x`, ties going to the even neighbour. */
  function RoundHalfEven(x: real): (r: nat)
    requires 0.0 <= x
    ensures x - 0.5 <= r as real <= x + 0.5
    ensures r as real - x == 0.5 ==> r % 2 == 0
    ensures x - r as real == 0.5 ==> r % 2 == 0
  {
    var f := x.Floor;
    var frac := x - f as real;
    if frac < 0.5 then f
    else if frac > 0.5 then f + 1
    else if f % 2 == 0 then f
    else f + 1
  }

  /** The integer `%.0f` prints for `x` (a printed "-0" reads as 0). */
  function RoundToInt(x: real): int {
    if x < 0.0 then -(RoundHalfEven(-x) as int) else RoundHalfEven(x)
  }

  /**
   * Go's `fmt.Sprintf("%.0f", x)`: a minus sign for every negative `x`, even
   * one that rounds to zero, then the rounded magnitude.
   */
  function FormatFixed0(x: real): (s: string)
    ensures 1 <= |s|
    ensures (s[0] == '-') <==> x < 0.0
    ensures AllDigits(if x < 0.0 then s[1..] else s)
    ensures var digits := if x < 0.0 then s[1..] else s;
      && DigitsValue(digits) == RoundHalfEven(if x < 0.0 then -x else x)
      && (|digits| > 1 ==> digits[0] != '0')
  {
    var m := RoundHalfEven(if x < 0.0 then -x else x);
    DigitsValueOfNatToString(m);
    var s := (if x < 0.0 then "-" else "") + NatToString(m);
    assert (if x < 0.0 then s[1..] else s) == NatToString(m);
    s
  }

  /** Go's `fmt.Sprintf("%.0fpx", x)`. */
  function Px(x: real): (s: string)
    ensures 3 <= |s| && s[|s| - 2..] == "px"
    ensures ' ' !in s
  {
    FormatFixed0(x) + "px"
  }

  /** Reads back one `<integer>px` token. */
  function ParsePx(s: string): Option<int> {
    if |s| < 3 || s[|s| - 2..] != "px" then None
    else
      var body := s[..|s| - 2];
      if body[0] == '-' then
        if AllDigits(body[1..]) && 1 < |body| then Some(-(DigitsValue(body[1..]) as int)) else None
      else if AllDigits(body) then Some(DigitsValue(body))
      else None
  }

  lemma PxRoundTrip(x: real)
    ensures ParsePx(Px(x)) == Some(RoundToInt(x))
  {
    var f := FormatFixed0(x);
    var s := Px(x);
    assert s[..|s| - 2] == f;
    if x < 0.0 {
      assert f[0] == '-' && 1 < |f|;
    }
  }

  // ---------------------------------------------------------------------
  // Space-separated lists
  // ---------------------------------------------------------------------

  /** The parts joined by single spaces, as in `"%.0fpx %.0fpx ..."`. */
  function Join(parts: seq<string>): string
    decreases |parts|
  {
    if |parts| == 0 then ""
    else if |parts| == 1 then parts[0]
    else parts[0] + " " + Join(parts[1..])
  }

  /** The maximal space-free runs of `s`, including empty ones. */
  function Split(s: string): (parts: seq<string>)
    ensures 1 <= |parts|
    decreases |s|
  {
    if s == [] then [""]
    else
      var rest := Split(s[1..]);
      if s[0] == ' ' then [""] + rest
      else [[s[0]] + rest[0]] + rest[1..]
  }

  lemma {:induction false} SplitSpaceFree(a: string, tail: seq<string>, b: string)
    requires ' ' !in a
    requires Split(b) == [""] + tail
    ensures Split(a + b) == [a] + tail
    decreases |a|
  {
    if a == [] {
      assert a + b == b;
    } else {
      var ab := a + b;
      assert ab[0] == a[0] && ab[0] != ' ';
      assert ab[1..] == a[1..] + b;
      SplitSpaceFree(a[1..], tail, b);
      var rest := Split(ab[1..]);
      assert rest == [a[1..]] + tail;
      assert Split(ab) == [[a[0]] + rest[0]] + rest[1..];
      assert [a[0]] + a[1..] == a;
    }
  }

  lemma {:induction false} SplitJoin(parts: seq<string>)
    requires 1 <= |parts|
    requires forall i :: 0 <= i < |parts| ==> ' ' !in parts[i]
    ensures Split(Join(parts)) == parts
    decreases |parts|
  {
    if |parts| == 1 {
      SplitSpaceFree(parts[0], [], "");
      assert parts[0] + "" == parts[0];
    } else {
      var rest := Join(parts[1..]);
      SplitJoin(parts[1..]);
      assert Split(" " + rest) == [""] + parts[1..] by {
        assert (" " + rest)[1..] == rest;
      }
      assert parts[0] + " " + rest == parts[0] + (" " + rest);
      SplitSpaceFree(parts[0], parts[1..], " " + rest);
    }
  }

  /** Every `x` formatted with `Px`. */
  function PxAll(xs: seq<real>): (r: seq<string>)
    ensures |r| == |xs|
    ensures forall i :: 0 <= i < |xs| ==> r[i] == Px(xs[i])
  {
    if xs == [] then [] else [Px(xs[0])] + PxAll(xs[1..])
  }

  /** Go's `"%.0fpx %.0fpx ..."` over the values of `xs`. */
  function PxList(xs: seq<real>): (s: string)
    ensures |xs| == 1 ==> s == Px(xs[0])
    ensures 1 <= |xs| ==> ParsePxList(s) == Some(RoundAll(xs))
  {
    if 1 <= |xs| then
      SplitJoin(PxAll(xs));
      ParseTokensOfPx(xs);
      Join(PxAll(xs))
    else Join(PxAll(xs))
  }

  function RoundAll(xs: seq<real>): (r: seq<int>)
    ensures |r| == |xs|
    ensures forall i :: 0 <= i < |xs| ==> r[i] == RoundToInt(xs[i])
  {
    seq(|xs|, i requires 0 <= i < |xs| => RoundToInt(xs[i]))
  }

  /** Reads every token of a space-separated list; None if one is not `<integer>px`. */
  function ParseTokens(parts: seq<string>): Option<seq<int>>
    decreases |parts|
  {
    if parts == [] then Some([])
    else
      var head := ParsePx(parts[0]);
      var tail := ParseTokens(parts[1..]);
      if head.Some? && tail.Some? then Some([head.value] + tail.value) else None
  }

  function ParsePxList(s: string): Option<seq<int>> {
    ParseTokens(Split(s))
  }

  lemma {:induction false} ParseTokensOfPx(xs: seq<real>)
    ensures ParseTokens(PxAll(xs)) == Some(RoundAll(xs))
    decreases |xs|
  {
    if xs != [] {
      PxRoundTrip(xs[0]);
      ParseTokensOfPx(xs[1..]);
      RoundAllCons(xs);
      ParseTokensCons(Px(xs[0]), PxAll(xs[1..]));
    }
  }

  lemma RoundAllCons(xs: seq<real>)
    requires xs != []
    ensures RoundAll(xs) == [RoundToInt(xs[0])] + RoundAll(xs[1..])
  {
    var r, u := RoundAll(xs), [RoundToInt(xs[0])] + RoundAll(xs[1..]);
    forall i | 0 <= i < |xs| ensures r[i] == u[i] {
      if i > 0 {
        assert u[i] == RoundAll(xs[1..])[i - 1];
      }
    }
  }

  /** Reading a list reads its first token, then the rest. */
  lemma ParseTokensCons(p: string, rest: seq<string>)
    ensures ParseTokens([p] + rest) ==
      if ParsePx(p).Some? && ParseTokens(rest).Some? then Some([ParsePx(p).value] + ParseTokens(rest).value) else None
  {
    assert ([p] + rest)[1..] == rest;
  }

  // ---------------------------------------------------------------------
  // strings.ToLower, restricted to ASCII
  // ---------------------------------------------------------------------

  predicate IsUpper(c: char) {
    'A' <= c <= 'Z'
  }

  function LowerChar(c: char): char {
    if IsUpper(c) then (c as int + 32) as char else c
  }

  function Lower(s: string): (r: string)
    ensures |r| == |s|
    ensures forall i :: 0 <= i < |s| ==> r[i] == LowerChar(s[i])
  {
    seq(|s|, i requires 0 <= i < |s| => LowerChar(s[i]))
  }

  /**
   * Lower-casing leaves no upper-case letter, changes nothing else, and a
   * second application changes nothing.
   */
  lemma LowerProperties(s: string)
    ensures forall i :: 0 <= i < |s| ==> !IsUpper(Lower(s)[i])
    ensures forall i :: 0 <= i < |s| && !IsUpper(s[i]) ==> Lower(s)[i] == s[i]
    ensures forall i :: 0 <= i < |s| && IsUpper(s[i]) ==> Lower(s)[i] as int == s[i] as int + 32
    ensures Lower(Lower(s)) == Lower(s)
  {
  }

  // ---------------------------------------------------------------------
  // %v of a decoded JSON value
  // ---------------------------------------------------------------------

  /** The integral value of `x` when `%v` prints it as plain digits. */
  predicate PlainInteger(x: real) {
    x == x.Floor as real && -1000000.0 < x < 1000000.0
  }

  /**
   * `fmt.Sprintf("%v", v)` for the values a component property holds:
   * strings print as themselves, booleans as `true`/`false`, null as
   * `<nil>`, and integral numbers below a million as their digits. Other
   * numbers, arrays and objects print as a fixed placeholder.
   */
  function ToStr(v: Json): (r: string)
    ensures v.JStr? ==> r == v.s
    ensures v.JBool? ==> (r == "true" <==> v.b) && (r == "false" <==> !v.b)
    ensures v.JNull? ==> r == "<nil>"
    ensures v.JNum? && PlainInteger(v.n) ==>
      && 1 <= |r|
      && (r[0] == '-' <==> v.n < 0.0)
      && var digits := if v.n < 0.0 then r[1..] else r;
         AllDigits(digits)
         && (if v.n < 0.0 then -(DigitsValue(digits) as int) else DigitsValue(digits) as int) == v.n.Floor
  {
    match v
    case JStr(s) => s
    case JBool(b) => if b then "true" else "false"
    case JNull => "<nil>"
    case JNum(x) =>
      if PlainInteger(x) then
        var m: nat := if x < 0.0 then -x.Floor else x.Floor;
        DigitsValueOfNatToString(m);
        var t := (if x < 0.0 then "-" else "") + NatToString(m);
        assert (if x < 0.0 then t[1..] else t) == NatToString(m);
        t
      else "<number>"
    case JArr(_) => "<array>"
    case JObj(_) => "<object>"
  }
}
