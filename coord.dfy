/**
 * The cell key of the Lights Out board: the render loop names cell (y, x)
 * by the string `${y}-${x}`, and the click handler recovers the pair with
 * `coord.split("-").map(Number)` followed by `const [y, x] = ...`.
 *
 * JavaScript's `Number` is modelled on the strings the key can hold: the
 * empty string is 0, a string of decimal digits is its value, anything else
 * is NaN, represented here by `None`.
 */
module Coord {
  import opened Wrappers

  const Sep: char := '-'

  predicate IsDigit(ch: char) {
    '0' <= ch <= '9'
  }

  /** Decimal representation of a natural number, as template literals print it. */
  function DecimalString(n: nat): (s: string)
    ensures |s| > 0
    ensures forall i :: 0 <= i < |s| ==> IsDigit(s[i])
    decreases n
  {
    var last := ['0' + (n % 10) as char];
    if n < 10 then last else DecimalString(n / 10) + last
  }

  /** Value of a string of decimal digits, most significant first. */
  function DigitsValue(s: string): (v: nat)
    requires forall i :: 0 <= i < |s| ==> IsDigit(s[i])
  {
    if s == [] then 0
    else
      assert IsDigit(s[|s| - 1]);
      10 * DigitsValue(s[..|s| - 1]) + (s[|s| - 1] as int - '0' as int) as nat
  }

  /** `Number(s)` on the forms the key produces: "" is 0, digits are their value, the rest NaN. */
  function ToNumber(s: string): (r: Option<nat>)
    ensures r.Some? <==> forall i :: 0 <= i < |s| ==> IsDigit(s[i])
    ensures s == [] ==> r == Some(0)
  {
    if forall i :: 0 <= i < |s| ==> IsDigit(s[i]) then Some(DigitsValue(s)) else None
  }

  /** `parts.join(sep)`: the pieces with one separator between neighbours. */
  function Join(parts: seq<string>, sep: char): string {
    if parts == [] then ""
    else if |parts| == 1 then parts[0]
    else parts[0] + [sep] + Join(parts[1..], sep)
  }

  /**
   * `s.split(sep)`: never empty ("" gives [""]), no piece holds the
   * separator, and joining the pieces with it gives `s` back.
   */
  function Split(s: string, sep: char): (parts: seq<string>)
    ensures |parts| >= 1
    ensures forall k :: 0 <= k < |parts| ==> sep !in parts[k]
    ensures Join(parts, sep) == s
  {
    if s == [] then [""]
    else
      var rest := Split(s[1..], sep);
      if s[0] == sep then [""] + rest
      else [[s[0]] + rest[0]] + rest[1..]
  }

  /** `${y}-${x}`: splits at `-` into exactly the two printed numbers. */
  function FormatCoord(y: nat, x: nat): (key: string)
    ensures Split(key, Sep) == [DecimalString(y), DecimalString(x)]
  {
    var a, b := DecimalString(y), DecimalString(x);
    assert Sep !in a && Sep !in b;
    SplitAfterPiece(a, Sep, b);
    SplitNoSep(b, Sep);
    a + [Sep] + b
  }

  /**
   * `const [y, x] = coord.split("-").map(Number)`, with `None` when either
   * component is NaN or `undefined` (a key without a separator).
   */
  function ParseCoord(coord: string): (r: Option<(int, int)>)
    ensures r.Some? ==> r.value.0 >= 0 && r.value.1 >= 0
    ensures Sep !in coord ==> r.None?
    ensures |Split(coord, Sep)| >= 2 && ToNumber(Split(coord, Sep)[0]).None? ==> r.None?
    ensures |Split(coord, Sep)| >= 2 && ToNumber(Split(coord, Sep)[1]).None? ==> r.None?
    ensures |Split(coord, Sep)| >= 2 && ToNumber(Split(coord, Sep)[0]).Some? && ToNumber(Split(coord, Sep)[1]).Some?
      ==> r == Some((ToNumber(Split(coord, Sep)[0]).value, ToNumber(Split(coord, Sep)[1]).value))
  {
    assert Sep !in coord ==> Split(coord, Sep) == [coord] by {
      if Sep !in coord { SplitNoSep(coord, Sep); }
    }
    var parts := Split(coord, Sep);
    if |parts| < 2 then None
    else
      match (ToNumber(parts[0]), ToNumber(parts[1]))
      case (Some(y), Some(x)) => Some((y, x))
      case _ => None
  }

  lemma {:induction false} DigitsValueOfDecimal(n: nat)
    ensures DigitsValue(DecimalString(n)) == n
    decreases n
  {
    var s := DecimalString(n);
    if n >= 10 {
      DigitsValueOfDecimal(n / 10);
      assert s[..|s| - 1] == DecimalString(n / 10);
    }
  }

  /** Reading back a printed natural number gives the number. */
  lemma ToNumberOfDecimal(n: nat)
    ensures ToNumber(DecimalString(n)) == Some(n)
  {
    DigitsValueOfDecimal(n);
  }

  /** A separator-free string splits into itself. */
  lemma {:induction false} SplitNoSep(s: string, sep: char)
    requires sep !in s
    ensures Split(s, sep) == [s]
  {
    if s != [] {
      assert sep !in s[1..];
      SplitNoSep(s[1..], sep);
      assert [s[0]] + s[1..] == s;
    }
  }

  /** Splitting `a + sep + b` with a separator-free `a` peels `a` off the front. */
  lemma {:induction false} SplitAfterPiece(a: string, sep: char, b: string)
    requires sep !in a
    ensures Split(a + [sep] + b, sep) == [a] + Split(b, sep)
  {
    if a != [] {
      assert (a + [sep] + b)[1..] == a[1..] + [sep] + b;
      assert sep !in a[1..];
      SplitAfterPiece(a[1..], sep, b);
      assert [a[0]] + a[1..] == a;
    } else {
      assert (a + [sep] + b)[1..] == b;
    }
  }

  /** Parsing a formatted key recovers the coordinate pair. */
  lemma ParseFormat(y: nat, x: nat)
    ensures ParseCoord(FormatCoord(y, x)) == Some((y, x))
  {
    ToNumberOfDecimal(y);
    ToNumberOfDecimal(x);
  }
}
