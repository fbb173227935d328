/** Printing and parsing of integers in a radix of at most 16, as Rust's formatter and `from_str_radix` do. */
module Radix {
  import opened Wrappers
  import opened Felts

  function Digit(d: nat): (c: char)
    requires d < 16
  {
    if d < 10 then (('0' as int) + d) as char else (('a' as int) + d - 10) as char
  }

  function DigitValue(c: char, radix: nat): (d: Option<nat>)
    ensures d.Some? ==> d.value < radix
  {
    var v :=
      if '0' <= c <= '9' then (c as int) - ('0' as int)
      else if 'a' <= c <= 'f' then (c as int) - ('a' as int) + 10
      else if 'A' <= c <= 'F' then (c as int) - ('A' as int) + 10
      else 16;
    if v < radix && v < 16 then Some(v) else None
  }

  /** The shortest digits of `n`, lower case, no sign. */
  function Print(n: nat, radix: nat): (s: string)
    requires 2 <= radix <= 16
    ensures s != []
  {
    if n < radix then [Digit(n)] else assert n / radix < n; Print(n / radix, radix) + [Digit(n % radix)]
  }

  /** Exactly `width` hexadecimal digits of `n`, padded with zeros. */
  function PrintHex(n: nat, width: nat): (s: string)
    ensures |s| == width
  {
    if width == 0 then [] else PrintHex(n / 16, width - 1) + [Digit(n % 16)]
  }

  /** The number a string of digits denotes; `None` if some character is not a digit. */
  function ParseDigits(s: string, radix: nat): (n: Option<nat>)
    requires 2 <= radix <= 16
  {
    if s == [] then Some(0)
    else
      match (ParseDigits(s[..|s| - 1], radix), DigitValue(s[|s| - 1], radix))
      case (Some(high), Some(low)) => Some(high * radix + low)
      case _ => None
  }

  /** `from_str_radix` for an unsigned type: an optional plus sign, then digits, below `limit`. */
  function ParseUnsigned(s: string, radix: nat, limit: nat): (n: Option<nat>)
    requires 2 <= radix <= 16
    ensures n.Some? ==> n.value < limit
  {
    var digits := if s != [] && s[0] == '+' then s[1..] else s;
    if digits == [] then None
    else
      match ParseDigits(digits, radix)
      case Some(n) => if n < limit then Some(n) else None
      case None => None
  }

  /** `from_str` for a signed type that holds -limit to limit - 1. */
  function ParseSigned(s: string, limit: int): (n: Option<int>)
    requires limit > 0
    ensures n.Some? ==> -limit <= n.value < limit
  {
    if s != [] && s[0] == '-' then
      if s[1..] == [] then None
      else
        match ParseDigits(s[1..], 10)
        case Some(n) => var m: int := n; if m <= limit then Some(-m) else None
        case None => None
    else
      ParseUnsigned(s, 10, limit)
  }

  function PrintSigned(v: int): (s: string)
    ensures s != []
  {
    if v < 0 then "-" + Print(-v, 10) else Print(v, 10)
  }

  /** Characters that separate or mark numbers, none of which is ever printed as a digit. */
  predicate Mark(c: char) {
    c in {',', 'F', '+', '-', 'x'}
  }

  lemma DigitRoundTrip(d: nat, radix: nat)
    requires d < radix <= 16
    ensures DigitValue(Digit(d), radix) == Some(d) && !Mark(Digit(d))
  {
  }

  lemma Divide(n: nat, radix: nat) returns (q: nat, r: nat)
    requires radix >= 2
    ensures q == n / radix && r == n % radix && r < radix && q * radix + r == n
    ensures n >= radix ==> q < n
  {
    q, r := n / radix, n % radix;
  }

  lemma ParseSnoc(s: string, c: char, radix: nat, high: nat, low: nat)
    requires 2 <= radix <= 16
    requires ParseDigits(s, radix) == Some(high) && DigitValue(c, radix) == Some(low)
    ensures ParseDigits(s + [c], radix) == Some(high * radix + low)
  {
    var t := s + [c];
    assert t[..|t| - 1] == s && t[|t| - 1] == c;
  }

  /** Printing a number as digits loses nothing. */
  lemma {:induction false} ParsePrint(n: nat, radix: nat)
    requires 2 <= radix <= 16
    ensures ParseDigits(Print(n, radix), radix) == Some(n)
  {
    if n < radix {
      DigitRoundTrip(n, radix);
      ParseSnoc([], Digit(n), radix, 0, n);
    } else {
      var q, r := Divide(n, radix);
      DigitRoundTrip(r, radix);
      ParsePrint(q, radix);
      ParseSnoc(Print(q, radix), Digit(r), radix, q, r);
    }
  }

  lemma {:induction false} ParsePrintHex(n: nat, width: nat)
    requires n < Pow(16, width)
    ensures ParseDigits(PrintHex(n, width), 16) == Some(n)
  {
    if width > 0 {
      DigitRoundTrip(n % 16, 16);
      ParsePrintHex(n / 16, width - 1);
      ParseSnoc(PrintHex(n / 16, width - 1), Digit(n % 16), 16, n / 16, n % 16);
    }
  }

  /** Printed digits contain none of the characters that separate or mark them. */
  lemma {:induction false} PrintedDigits(n: nat, radix: nat, i: nat)
    requires 2 <= radix <= 16 && i < |Print(n, radix)|
    ensures !Mark(Print(n, radix)[i])
  {
    if n < radix {
      DigitRoundTrip(n, radix);
    } else {
      var q, r := Divide(n, radix);
      DigitRoundTrip(r, radix);
      assert Print(n, radix) == Print(q, radix) + [Digit(r)];
      if i < |Print(q, radix)| {
        PrintedDigits(q, radix, i);
      }
    }
  }

  lemma {:induction false} PrintedHexDigits(n: nat, width: nat, i: nat)
    requires i < width
    ensures !Mark(PrintHex(n, width)[i])
  {
    if i == width - 1 {
      DigitRoundTrip(n % 16, 16);
    } else {
      PrintedHexDigits(n / 16, width - 1, i);
    }
  }

  lemma ParseUnsignedPrint(n: nat, radix: nat, limit: nat)
    requires 2 <= radix <= 16 && n < limit
    ensures ParseUnsigned(Print(n, radix), radix, limit) == Some(n)
  {
    ParsePrint(n, radix);
    PrintedDigits(n, radix, 0);
  }

  lemma ParseSignedPrint(v: int, limit: int)
    requires limit > 0 && -limit <= v < limit
    ensures ParseSigned(PrintSigned(v), limit) == Some(v)
  {
    if v < 0 {
      ParsePrint(-v, 10);
      assert PrintSigned(v)[1..] == Print(-v, 10);
    } else {
      PrintedDigits(v, 10, 0);
      ParseUnsignedPrint(v, 10, limit);
    }
  }

  // ----- what a string of digits denotes -----

  const LOWER: string := "0123456789abcdef"

  const UPPER: string := "0123456789ABCDEF"

  /** The number whose digits are `ds`, most significant first: each counts as often as its place says. */
  ghost function Value(ds: seq<nat>, radix: nat): (n: nat) {
    if ds == [] then 0 else ds[0] * Pow(radix, |ds| - 1) + Value(ds[1..], radix)
  }

  /** The characters of `s` are the digits `ds`, in lower or upper case. */
  ghost predicate Spells(s: string, ds: seq<nat>, radix: nat) {
    && |s| == |ds|
    && forall i :: 0 <= i < |s| ==>
         ds[i] < radix && ds[i] < 16 && (s[i] == LOWER[ds[i]] || s[i] == UPPER[ds[i]])
  }

  /** The digits of `s` denote `n`. */
  ghost predicate Denotes(s: string, radix: nat, n: nat) {
    exists ds :: Spells(s, ds, radix) && Value(ds, radix) == n
  }

  ghost predicate LowerCase(s: string) {
    forall i :: 0 <= i < |s| ==> s[i] in LOWER
  }

  /** As short as can be, and in lower case. */
  ghost predicate Shortest(s: string) {
    s != [] && LowerCase(s) && (s[0] == '0' ==> |s| == 1)
  }

  lemma DigitSpelled(c: char, radix: nat, d: nat)
    requires radix <= 16
    ensures DigitValue(c, radix) == Some(d) <==> d < radix && (c == LOWER[d] || c == UPPER[d])
  {
  }

  lemma {:induction false} ValueSnoc(ds: seq<nat>, d: nat, radix: nat)
    ensures Value(ds + [d], radix) == Value(ds, radix) * radix + d
  {
    if ds == [] {
      assert ds + [d] == [d] && [d][1..] == [] && Pow(radix, 0) == 1;
    } else {
      assert (ds + [d])[1..] == ds[1..] + [d];
      ValueSnoc(ds[1..], d, radix);
      OnePlaceMore(ds[0], Pow(radix, |ds| - 1), radix, Value(ds[1..], radix), d);
    }
  }

  lemma OnePlaceMore(x: nat, p: nat, radix: nat, v: nat, d: nat)
    ensures x * (radix * p) + (v * radix + d) == (x * p + v) * radix + d
  {
  }

  /** Parsing digits succeeds exactly on the strings that denote a number, and gives that number. */
  lemma {:induction false} ParsesIffDenotes(s: string, radix: nat, n: nat)
    requires 2 <= radix <= 16
    ensures ParseDigits(s, radix) == Some(n) <==> Denotes(s, radix, n)
  {
    if ParseDigits(s, radix) == Some(n) {
      var ds := DigitsParsed(s, radix, n);
    }
    if ds :| Spells(s, ds, radix) && Value(ds, radix) == n {
      SpelledParses(s, ds, radix);
    }
  }

  lemma {:induction false} DigitsParsed(s: string, radix: nat, n: nat) returns (ds: seq<nat>)
    requires 2 <= radix <= 16 && ParseDigits(s, radix) == Some(n)
    ensures Spells(s, ds, radix) && Value(ds, radix) == n
  {
    ds := [];
    if s != [] {
      var init, c := s[..|s| - 1], s[|s| - 1];
      var high, low := ParseDigits(init, radix).value, DigitValue(c, radix).value;
      ds := DigitsParsed(init, radix, high);
      DigitSpelled(c, radix, low);
      ValueSnoc(ds, low, radix);
      ds := ds + [low];
    }
  }

  lemma {:induction false} SpelledParses(s: string, ds: seq<nat>, radix: nat)
    requires 2 <= radix <= 16 && Spells(s, ds, radix)
    ensures ParseDigits(s, radix) == Some(Value(ds, radix))
  {
    if s != [] {
      var init, c := s[..|s| - 1], s[|s| - 1];
      var ds', d := ds[..|s| - 1], ds[|s| - 1];
      assert s == init + [c] && ds == ds' + [d];
      SpelledParses(init, ds', radix);
      DigitSpelled(c, radix, d);
      ParseSnoc(init, c, radix, Value(ds', radix), d);
      ValueSnoc(ds', d, radix);
    }
  }

  lemma DigitIsLower(d: nat)
    requires d < 16
    ensures Digit(d) == LOWER[d] && Digit(d) in LOWER && (Digit(d) == '0' <==> d == 0)
  {
  }

  /** A number is printed by its shortest digits, in lower case. */
  lemma PrintIsShortest(n: nat, radix: nat)
    requires 2 <= radix <= 16
    ensures Denotes(Print(n, radix), radix, n) && Shortest(Print(n, radix))
  {
    ParsePrint(n, radix);
    ParsesIffDenotes(Print(n, radix), radix, n);
    PrintIsLower(n, radix);
  }

  lemma {:induction false} PrintIsLower(n: nat, radix: nat)
    requires 2 <= radix <= 16
    ensures Shortest(Print(n, radix)) && (n > 0 ==> Print(n, radix)[0] != '0')
    decreases n
  {
    if n < radix {
      DigitIsLower(n);
    } else {
      var q, r := Divide(n, radix);
      PrintIsLower(q, radix);
      DigitIsLower(r);
      assert Print(n, radix) == Print(q, radix) + [Digit(r)];
    }
  }

  /** All `width` digits are printed, in lower case. */
  lemma {:induction false} PrintHexIsLower(n: nat, width: nat)
    ensures LowerCase(PrintHex(n, width))
  {
    if width > 0 {
      DigitIsLower(n % 16);
      PrintHexIsLower(n / 16, width - 1);
    }
  }

  // ----- what the parsers accept -----

  /** Digits, perhaps after a plus sign, that denote `n`. */
  ghost predicate UnsignedText(s: string, radix: nat, n: nat) {
    (s != [] && s[0] != '+' && Denotes(s, radix, n)) || (|s| > 1 && s[0] == '+' && Denotes(s[1..], radix, n))
  }

  /** The same, or decimal digits after a minus sign. */
  ghost predicate SignedText(s: string, v: int) {
    if |s| > 1 && s[0] == '-' then v <= 0 && Denotes(s[1..], 10, -v) else v >= 0 && UnsignedText(s, 10, v)
  }

  lemma ParseUnsignedIff(s: string, radix: nat, limit: nat, n: nat)
    requires 2 <= radix <= 16
    ensures ParseUnsigned(s, radix, limit) == Some(n) <==> UnsignedText(s, radix, n) && n < limit
  {
    var digits := if s != [] && s[0] == '+' then s[1..] else s;
    ParsesIffDenotes(digits, radix, n);
  }

  lemma ParseSignedIff(s: string, limit: int, v: int)
    requires limit > 0
    ensures ParseSigned(s, limit) == Some(v) <==> SignedText(s, v) && -limit <= v < limit
  {
    if s != [] && s[0] == '-' {
      if v <= 0 {
        ParsesIffDenotes(s[1..], 10, -v);
      }
      if v >= 0 {
        NoDigitSign(s, v);
      }
    } else if v >= 0 {
      ParseUnsignedIff(s, 10, limit, v);
    }
  }

  lemma NoDigitSign(s: string, v: int)
    requires s != [] && s[0] == '-' && v >= 0
    ensures !UnsignedText(s, 10, v)
  {
    if ds :| Spells(s, ds, 10) && Value(ds, 10) == v {
      assert s[0] == LOWER[ds[0]] || s[0] == UPPER[ds[0]];
    }
  }
}
