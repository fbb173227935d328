/** Continuation tokens of `starknet_getEvents` (crates/katana/primitives/src/event.rs). */
module Tokens {
  import opened Wrappers
  import opened Radix

  const U64_LIMIT: nat := 0x1_0000_0000_0000_0000

  type U64 = n: nat | n < 0x1_0000_0000_0000_0000

  datatype ContinuationToken = ContinuationToken(block: U64, txn: U64, event: U64)

  datatype TokenError = InvalidToken | ParseFailed

  datatype MaybeForked = Forked(text: string) | Token(token: ContinuationToken)

  /** `split(',')`. */
  function Split(s: string): (parts: seq<string>)
    ensures parts != []
  {
    if s == [] then [[]]
    else
      var rest := Split(s[1..]);
      if s[0] == ',' then [[]] + rest else [[s[0]] + rest[0]] + rest[1..]
  }

  function Parse(s: string): (r: Outcome<ContinuationToken, TokenError>) {
    var parts := Split(s);
    if |parts| != 3 then Err(InvalidToken)
    else
      var block, txn, event := ParseUnsigned(parts[0], 16, U64_LIMIT),
                               ParseUnsigned(parts[1], 16, U64_LIMIT),
                               ParseUnsigned(parts[2], 16, U64_LIMIT);
      if block.None? || txn.None? || event.None? then Err(ParseFailed)
      else Ok(ContinuationToken(block.value, txn.value, event.value))
  }

  function Display(t: ContinuationToken): (s: string) {
    Print(t.block, 16) + "," + Print(t.txn, 16) + "," + Print(t.event, 16)
  }

  function ParseMaybeForked(s: string): (r: Outcome<MaybeForked, TokenError>) {
    if |s| >= 3 && s[..3] == "FK_" then Ok(Forked(s[3..]))
    else match Parse(s) { case Ok(t) => Ok(Token(t)) case Err(e) => Err(e) case Panic => Panic }
  }

  function DisplayMaybeForked(t: MaybeForked): (s: string) {
    match t
    case Token(token) => Display(token)
    case Forked(text) => "FK_" + text
  }

  lemma {:induction false} SplitPart(a: string, rest: string)
    requires forall i :: 0 <= i < |a| ==> a[i] != ','
    ensures Split(a + "," + rest) == [a] + Split(rest)
  {
    var s := a + "," + rest;
    if a == [] {
      assert s[1..] == rest;
    } else {
      assert s[1..] == a[1..] + "," + rest;
      SplitPart(a[1..], rest);
      assert a == [a[0]] + a[1..];
    }
  }

  lemma {:induction false} SplitLast(a: string)
    requires forall i :: 0 <= i < |a| ==> a[i] != ','
    ensures Split(a) == [a]
  {
    if a != [] {
      SplitLast(a[1..]);
      assert a == [a[0]] + a[1..];
    }
  }

  lemma PrintHasNoComma(n: nat)
    ensures forall i :: 0 <= i < |Print(n, 16)| ==> Print(n, 16)[i] != ','
  {
    forall i | 0 <= i < |Print(n, 16)| ensures Print(n, 16)[i] != ',' {
      PrintedDigits(n, 16, i);
    }
  }

  /** Every native token parses back from its display. */
  lemma TokenRoundTrip(t: ContinuationToken)
    ensures Parse(Display(t)) == Ok(t)
  {
    var a, b, c := Print(t.block, 16), Print(t.txn, 16), Print(t.event, 16);
    PrintHasNoComma(t.block);
    PrintHasNoComma(t.txn);
    PrintHasNoComma(t.event);
    assert Display(t) == a + "," + (b + "," + c);
    SplitPart(a, b + "," + c);
    SplitPart(b, c);
    SplitLast(c);
    assert Split(Display(t)) == [a, b, c];
    ParseUnsignedPrint(t.block, 16, U64_LIMIT);
    ParseUnsignedPrint(t.txn, 16, U64_LIMIT);
    ParseUnsignedPrint(t.event, 16, U64_LIMIT);
  }

  /** Native and forked tokens parse back from their display and are never taken for each other. */
  lemma MaybeForkedRoundTrip(t: MaybeForked)
    ensures ParseMaybeForked(DisplayMaybeForked(t)) == Ok(t)
  {
    var s := DisplayMaybeForked(t);
    match t
    case Token(token) =>
      TokenRoundTrip(token);
      PrintedDigits(token.block, 16, 0);
      assert s[0] == Print(token.block, 16)[0] != 'F';
    case Forked(text) =>
      assert s[..3] == "FK_" && s[3..] == text;
  }

  /** Distinct tokens have distinct displays. */
  lemma DisplayInjective(t: MaybeForked, u: MaybeForked)
    requires DisplayMaybeForked(t) == DisplayMaybeForked(u)
    ensures t == u
  {
    MaybeForkedRoundTrip(t);
    MaybeForkedRoundTrip(u);
  }

  // ----- which texts are which tokens -----

  ghost predicate NoComma(s: string) {
    forall i :: 0 <= i < |s| ==> s[i] != ','
  }

  /** The text is `a`, `b` and `c` with a comma between each two. */
  ghost predicate ThreeParts(s: string, a: string, b: string, c: string) {
    s == a + "," + b + "," + c && NoComma(a) && NoComma(b) && NoComma(c)
  }

  ghost predicate HasThreeParts(s: string) {
    exists a, b, c :: ThreeParts(s, a, b, c)
  }

  /** The parts are 64-bit numbers in hexadecimal: block, transaction, event. */
  ghost predicate TextOf(s: string, t: ContinuationToken) {
    exists a, b, c :: ThreeParts(s, a, b, c) && NumbersOf(a, b, c, t)
  }

  ghost predicate NumbersOf(a: string, b: string, c: string, t: ContinuationToken) {
    UnsignedText(a, 16, t.block) && UnsignedText(b, 16, t.txn) && UnsignedText(c, 16, t.event)
  }

  lemma ThreePartsSplit(s: string, a: string, b: string, c: string)
    requires ThreeParts(s, a, b, c)
    ensures Split(s) == [a, b, c]
  {
    assert s == a + "," + (b + "," + c);
    SplitPart(a, b + "," + c);
    SplitPart(b, c);
    SplitLast(c);
  }

  function Joined(parts: seq<string>): (s: string) {
    if parts == [] then [] else if |parts| == 1 then parts[0] else parts[0] + "," + Joined(parts[1..])
  }

  lemma {:induction false} SplitJoins(s: string)
    ensures Joined(Split(s)) == s && forall i :: 0 <= i < |Split(s)| ==> NoComma(Split(s)[i])
  {
    if s != [] {
      var rest := Split(s[1..]);
      SplitJoins(s[1..]);
      assert s == [s[0]] + s[1..];
      if s[0] == ',' {
        assert ([[]] + rest)[1..] == rest;
      } else {
        assert ([[s[0]] + rest[0]] + rest[1..])[1..] == rest[1..];
      }
    }
  }

  lemma SplitInThree(s: string)
    requires |Split(s)| == 3
    ensures ThreeParts(s, Split(s)[0], Split(s)[1], Split(s)[2])
  {
    var p := Split(s);
    SplitJoins(s);
    assert p[1..] == [p[1], p[2]] && p[1..][1..] == [p[2]];
    assert Joined([p[2]]) == p[2] && Joined([p[1], p[2]]) == p[1] + "," + p[2];
    assert p[0] + "," + (p[1] + "," + p[2]) == p[0] + "," + p[1] + "," + p[2];
  }

  /** Exactly the texts of a token parse to it; other texts fail, by their parts or by their numbers. */
  lemma ParseIff(s: string, t: ContinuationToken)
    ensures Parse(s) == Ok(t) <==> TextOf(s, t)
    ensures Parse(s) == Err(InvalidToken) <==> !HasThreeParts(s)
    ensures Parse(s) == Err(ParseFailed) <==> HasThreeParts(s) && forall u :: !TextOf(s, u)
  {
    var p := Split(s);
    if |p| == 3 {
      SplitInThree(s);
    }
    forall a, b, c | ThreeParts(s, a, b, c) ensures p == [a, b, c] {
      ThreePartsSplit(s, a, b, c);
    }
    forall u ensures Parse(s) == Ok(u) <==> TextOf(s, u) {
      if |p| == 3 {
        ParseUnsignedIff(p[0], 16, U64_LIMIT, u.block);
        ParseUnsignedIff(p[1], 16, U64_LIMIT, u.txn);
        ParseUnsignedIff(p[2], 16, U64_LIMIT, u.event);
        assert Parse(s) == Ok(u) <==> NumbersOf(p[0], p[1], p[2], u);
        assert ThreeParts(s, p[0], p[1], p[2]);
      }
    }
    assert HasThreeParts(s) <==> |p| == 3;
    if Parse(s).Ok? {
      assert TextOf(s, Parse(s).value);
    }
  }

  /** A token is displayed by its three numbers in hexadecimal, each as short as can be and in lower case. */
  lemma DisplaySpelled(t: ContinuationToken) returns (a: string, b: string, c: string)
    ensures ThreeParts(Display(t), a, b, c) && Shortest(a) && Shortest(b) && Shortest(c)
    ensures Denotes(a, 16, t.block) && Denotes(b, 16, t.txn) && Denotes(c, 16, t.event)
  {
    a, b, c := Print(t.block, 16), Print(t.txn, 16), Print(t.event, 16);
    PrintHasNoComma(t.block);
    PrintHasNoComma(t.txn);
    PrintHasNoComma(t.event);
    PrintIsShortest(t.block, 16);
    PrintIsShortest(t.txn, 16);
    PrintIsShortest(t.event, 16);
  }

  /** A text that starts with FK_ is the rest of it, forked; every other text is native or fails as a native token. */
  lemma ForkedIff(s: string)
    ensures |s| >= 3 && s[..3] == "FK_" ==> ParseMaybeForked(s) == Ok(Forked(s[3..]))
    ensures !(|s| >= 3 && s[..3] == "FK_") ==>
              && (forall t :: ParseMaybeForked(s) == Ok(Token(t)) <==> TextOf(s, t))
              && (ParseMaybeForked(s) == Err(InvalidToken) <==> !HasThreeParts(s))
              && (ParseMaybeForked(s) == Err(ParseFailed) <==> HasThreeParts(s) && forall u :: !TextOf(s, u))
  {
    forall t ensures Parse(s) == Ok(t) <==> TextOf(s, t) {
      ParseIff(s, t);
    }
    ParseIff(s, ContinuationToken(0, 0, 0));
  }
}
