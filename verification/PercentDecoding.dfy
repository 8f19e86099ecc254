/** percentDecode and iterativePercentDecode of scripts/demo_request_validator_simple.cpp,
    with the percent-encoding of section 2.1 of RFC 3986 as the partner. */
module PercentDecoding {
  import opened Options
  import opened Hex

  // A '%' followed by two hexadecimal digits.
  predicate EscapeAt(s: string, i: nat) {
    i + 2 < |s| && s[i] == '%' && HexValue(s[i + 1]).Some? && HexValue(s[i + 2]).Some?
  }

  function Octet(s: string, i: nat): int
    requires EscapeAt(s, i)
  {
    HexValue(s[i + 1]).value * 16 + HexValue(s[i + 2]).value
  }

  // Control characters become question marks.
  function Sanitized(v: int): char
    requires 0 <= v < 256
  {
    if v < 0x20 then '?' else v as char
  }

  function Decode(s: string): string {
    if s == "" then ""
    else if EscapeAt(s, 0) then OctetFits(s); [Sanitized(Octet(s, 0))] + Decode(s[3..])
    else [if s[0] == '+' then ' ' else s[0]] + Decode(s[1..])
  }

  lemma OctetFits(s: string)
    requires EscapeAt(s, 0)
    ensures 0 <= Octet(s, 0) < 256
  {
  }

  predicate IsHexDigit(c: char) {
    '0' <= c <= '9' || 'A' <= c <= 'F' || 'a' <= c <= 'f'
  }

  lemma DecodeAt(s: string, i: nat)
    requires i < |s|
    ensures EscapeAt(s, i) ==> 0 <= Octet(s, i) < 256
                               && Decode(s[i..]) == [Sanitized(Octet(s, i))] + Decode(s[i + 3..])
    ensures !EscapeAt(s, i) ==> Decode(s[i..]) == [if s[i] == '+' then ' ' else s[i]] + Decode(s[i + 1..])
  {
    assert EscapeAt(s, i) <==> EscapeAt(s[i..], 0);
    if EscapeAt(s, i) { assert s[i..][3..] == s[i + 3..]; } else { assert s[i..][1..] == s[i + 1..]; }
  }

  // The loop body: the character it appends and how far it moves on.
  method DecodeOne(input: string, i: nat) returns (next: char, used: nat)
    requires i < |input|
    ensures 0 < used <= |input| - i
    ensures Decode(input[i..]) == [next] + Decode(input[i + used..])
  {
    DecodeAt(input, i);
    used := 1;
    if input[i] == '%' && i + 2 < |input| {
      var hex1, hex2 := input[i + 1], input[i + 2];
      if IsHexDigit(hex1) && IsHexDigit(hex2) {
        var ch := HexValue(hex1).value * 16 + HexValue(hex2).value;
        next := if ch < 0x20 then '?' else ch as char;
        used := 3;
      } else {
        next := input[i];
      }
    } else if input[i] == '+' {
      next := ' ';
    } else {
      next := input[i];
    }
  }

  method PercentDecode(input: string) returns (result: string)
    ensures result == Decode(input)
  {
    result := "";
    var i := 0;
    while i < |input|
      invariant i <= |input| && result + Decode(input[i..]) == Decode(input)
    {
      var next, used := DecodeOne(input, i);
      assert result + ([next] + Decode(input[i + used..])) == result + [next] + Decode(input[i + used..]);
      result := result + [next];
      i := i + used;
    }
  }

  // ----- a pass that changes something makes the string smaller -----

  function Pluses(s: string): nat {
    if s == "" then 0 else Pluses(s[1..]) + if s[0] == '+' then 1 else 0
  }

  lemma {:induction false} DecodeShrinks(s: string)
    ensures |Decode(s)| <= |s|
    ensures |Decode(s)| == |s| ==> Pluses(Decode(s)) == 0 && (Pluses(s) == 0 ==> Decode(s) == s)
  {
    if s != "" {
      if EscapeAt(s, 0) {
        DecodeShrinks(s[3..]);
      } else {
        DecodeShrinks(s[1..]);
        assert Decode(s)[1..] == Decode(s[1..]);
      }
    }
  }

  /** Whenever a pass changes the string, (length, number of '+') drops lexicographically. */
  lemma PassesShrink(s: string)
    requires Decode(s) != s
    ensures |Decode(s)| < |s| || (|Decode(s)| == |s| && Pluses(Decode(s)) < Pluses(s))
  {
    DecodeShrinks(s);
  }

  ghost predicate NothingToDecode(s: string) {
    forall i :: 0 <= i < |s| ==> s[i] != '+' && !EscapeAt(s, i)
  }

  lemma NothingToDecodeTail(s: string, k: nat)
    requires k <= |s| && NothingToDecode(s)
    ensures NothingToDecode(s[k..])
  {
    forall i | 0 <= i < |s[k..]| ensures s[k..][i] != '+' && !EscapeAt(s[k..], i) {
      assert !EscapeAt(s, k + i) && s[k + i] != '+';
    }
  }

  /** A pass changes nothing exactly when there is no '+' and no escape left. */
  lemma {:induction false} FixpointsAreDecoded(s: string)
    ensures Decode(s) == s <==> NothingToDecode(s)
  {
    if s != "" {
      DecodeShrinks(s);
      if EscapeAt(s, 0) {
        DecodeShrinks(s[3..]);
      } else {
        FixpointsAreDecoded(s[1..]);
        if NothingToDecode(s) { NothingToDecodeTail(s, 1); }
        if Decode(s) == s {
          assert Decode(s[1..]) == s[1..];
          forall i | 0 <= i < |s| ensures s[i] != '+' && !EscapeAt(s, i) {
            if i > 0 { assert !EscapeAt(s[1..], i - 1) && s[1..][i - 1] == s[i]; }
          }
        }
      }
    }
  }

  // ----- repeated decoding -----

  function Passes(s: string, n: nat): string {
    if n == 0 then s else Decode(Passes(s, n - 1))
  }

  // Decoding until nothing changes, without a limit.
  function DecodeFully(s: string): string
    decreases |s|, Pluses(s)
  {
    if Decode(s) == s then s else PassesShrink(s); DecodeFully(Decode(s))
  }

  const MAX_ITERATIONS: nat := 5

  lemma {:induction false} FixpointStays(s: string, m: nat, n: nat)
    requires m <= n && Decode(Passes(s, m)) == Passes(s, m)
    ensures Passes(s, n) == Passes(s, m)
    decreases n
  {
    if m < n { FixpointStays(s, m, n - 1); }
  }

  /** The loop with its early exit is exactly five passes. */
  method IterativePercentDecode(input: string) returns (current: string)
    ensures current == Passes(input, MAX_ITERATIONS)
  {
    current := input;
    var previous := "";
    var iterations := 0;
    var again := true;
    while again
      invariant iterations <= MAX_ITERATIONS && current == Passes(input, iterations)
      invariant again ==> iterations < MAX_ITERATIONS
      invariant !again ==> Decode(current) == current || iterations == MAX_ITERATIONS
      decreases MAX_ITERATIONS - iterations, again
    {
      previous := current;
      current := PercentDecode(current);
      iterations := iterations + 1;
      again := current != previous && iterations < MAX_ITERATIONS;
    }
    if iterations < MAX_ITERATIONS { FixpointStays(input, iterations, MAX_ITERATIONS); }
  }

  lemma {:induction false} PassesOfDecode(s: string, n: nat)
    ensures Passes(Decode(s), n) == Passes(s, n + 1)
  {
    if n > 0 { PassesOfDecode(s, n - 1); }
  }

  /** Without the limit the loop would end as well, with a string that has nothing left to decode. */
  lemma {:induction false} FullDecodingIsReached(s: string) returns (n: nat)
    ensures DecodeFully(s) == Passes(s, n) && NothingToDecode(DecodeFully(s))
    decreases |s|, Pluses(s)
  {
    FixpointsAreDecoded(s);
    if Decode(s) == s {
      n := 0;
    } else {
      PassesShrink(s);
      n := FullDecodingIsReached(Decode(s));
      PassesOfDecode(s, n);
      n := n + 1;
    }
  }

  // ----- how many passes a string needs, read off it once -----

  // A character of the result, and the number of passes after which it stands there.
  datatype Token = Token(c: char, depth: nat)

  function Max(a: nat, b: nat): nat {
    if a < b then b else a
  }

  predicate IsEscape(a: Token, b: Token, t: Token) {
    a.c == '%' && HexValue(b.c).Some? && HexValue(t.c).Some?
  }

  // An escape is decoded one pass after the last of its characters is there.
  function Merge(a: Token, b: Token, t: Token): Token
    requires IsEscape(a, b, t)
  {
    var s := [a.c, b.c, t.c];
    OctetFits(s);
    Token(Sanitized(Octet(s, 0)), 1 + Max(a.depth, Max(b.depth, t.depth)))
  }

  function Push(stack: seq<Token>, t: Token): seq<Token>
    decreases |stack|
  {
    var n := |stack|;
    if n >= 2 && IsEscape(stack[n - 2], stack[n - 1], t) then
      Push(stack[..n - 2], Merge(stack[n - 2], stack[n - 1], t))
    else stack + [t]
  }

  function PushAll(stack: seq<Token>, s: string): seq<Token>
    decreases |s|
  {
    if s == "" then stack else PushAll(Push(stack, Token(s[0], 0)), s[1..])
  }

  // A plus sign takes one more pass to become a space.
  function Delay(t: Token): nat {
    t.depth + if t.c == '+' then 1 else 0
  }

  function MaxDelay(stack: seq<Token>): nat {
    if stack == [] then 0 else Max(MaxDelay(stack[..|stack| - 1]), Delay(stack[|stack| - 1]))
  }

  function EncodingDepth(s: string): nat {
    MaxDelay(PushAll([], s))
  }

  // What one pass does to a token.
  function Tick(t: Token): Token {
    if t.depth > 0 then Token(t.c, t.depth - 1) else if t.c == '+' then Token(' ', 0) else t
  }

  function TickAll(stack: seq<Token>): seq<Token> {
    seq(|stack|, i requires 0 <= i < |stack| => Tick(stack[i]))
  }

  // t completes an escape all of which is in the text now.
  predicate CompletesNow(stack: seq<Token>, t: Token) {
    var n := |stack|;
    && n >= 2 && IsEscape(stack[n - 2], stack[n - 1], t)
    && stack[n - 2].depth == 0 && stack[n - 1].depth == 0 && t.depth == 0
  }

  lemma {:induction false} PushTicks(stack: seq<Token>, t: Token)
    requires !CompletesNow(stack, t)
    ensures TickAll(Push(stack, t)) == Push(TickAll(stack), Tick(t))
    decreases |stack|
  {
    var n := |stack|;
    if n >= 2 && IsEscape(stack[n - 2], stack[n - 1], t) {
      var m := Merge(stack[n - 2], stack[n - 1], t);
      assert IsEscape(Tick(stack[n - 2]), Tick(stack[n - 1]), Tick(t));
      assert Tick(m) == Merge(Tick(stack[n - 2]), Tick(stack[n - 1]), Tick(t));
      PushTicks(stack[..n - 2], m);
      assert TickAll(stack)[..n - 2] == TickAll(stack[..n - 2]);
    } else {
      assert TickAll(stack + [t]) == TickAll(stack) + [Tick(t)];
    }
  }

  lemma {:induction false} PushTop(stack: seq<Token>, t: Token)
    ensures var r := Push(stack, t);
            && r != []
            && (r == stack + [t] || r[|r| - 1].depth > 0)
            && (t.depth > 0 ==> r[|r| - 1].depth > 0)
    decreases |stack|
  {
    var n := |stack|;
    if n >= 2 && IsEscape(stack[n - 2], stack[n - 1], t) {
      PushTop(stack[..n - 2], Merge(stack[n - 2], stack[n - 1], t));
    }
  }

  // No escape of the text begins on the stack and ends in s.
  ghost predicate Apart(stack: seq<Token>, s: string) {
    var n := |stack|;
    && (n >= 1 && stack[n - 1] == Token('%', 0) ==>
          !(|s| >= 2 && HexValue(s[0]).Some? && HexValue(s[1]).Some?))
    && (n >= 2 && stack[n - 2] == Token('%', 0) && stack[n - 1].depth == 0 && HexValue(stack[n - 1].c).Some? ==>
          !(|s| >= 1 && HexValue(s[0]).Some?))
  }

  lemma LiteralKeepsApart(stack: seq<Token>, s: string)
    requires Apart(stack, s) && s != "" && !EscapeAt(s, 0)
    ensures !CompletesNow(stack, Token(s[0], 0)) && Apart(Push(stack, Token(s[0], 0)), s[1..])
  {
    PushTop(stack, Token(s[0], 0));
  }

  lemma PushEscape(stack: seq<Token>, s: string)
    requires EscapeAt(s, 0)
    ensures 0 <= Octet(s, 0) < 256
    ensures PushAll(stack, s) == PushAll(Push(stack, Token(Sanitized(Octet(s, 0)), 1)), s[3..])
  {
    OctetFits(s);
    var one, two := stack + [Token('%', 0)], stack + [Token('%', 0), Token(s[1], 0)];
    assert Push(stack, Token(s[0], 0)) == one;
    assert one + [Token(s[1], 0)] == two;
    assert Push(one, Token(s[1], 0)) == two;
    assert two[..|stack|] == stack;
    assert Push(two, Token(s[2], 0)) == Push(stack, Token(Sanitized(Octet(s, 0)), 1));
    assert s[1..][1..] == s[2..] && s[2..][1..] == s[3..];
    assert PushAll(stack, s) == PushAll(one, s[1..]) == PushAll(two, s[2..]);
  }

  /** One pass of decoding takes one off every token: reading the decoded string gives the tokens
      of the string itself, each one pass older. */
  lemma {:induction false} DecodeTicks(stack: seq<Token>, s: string)
    requires Apart(stack, s)
    ensures TickAll(PushAll(stack, s)) == PushAll(TickAll(stack), Decode(s))
    decreases |s|
  {
    if s != "" {
      if EscapeAt(s, 0) {
        PushEscape(stack, s);
        var t := Token(Sanitized(Octet(s, 0)), 1);
        PushTicks(stack, t);
        PushTop(stack, t);
        DecodeTicks(Push(stack, t), s[3..]);
        assert Decode(s)[0] == t.c && Decode(s)[1..] == Decode(s[3..]);
      } else {
        var t := Token(s[0], 0);
        LiteralKeepsApart(stack, s);
        PushTicks(stack, t);
        DecodeTicks(Push(stack, t), s[1..]);
        assert Decode(s)[0] == Tick(t).c && Decode(s)[1..] == Decode(s[1..]);
      }
    }
  }

  lemma {:induction false} TickTakesOne(stack: seq<Token>)
    ensures MaxDelay(TickAll(stack)) == if MaxDelay(stack) > 0 then MaxDelay(stack) - 1 else 0
    ensures MaxDelay(stack) == 0 <==> TickAll(stack) == stack
  {
    if stack != [] {
      var n := |stack| - 1;
      TickTakesOne(stack[..n]);
      assert TickAll(stack)[..n] == TickAll(stack[..n]);
      assert TickAll(stack) == stack <==> TickAll(stack[..n]) == stack[..n] && Tick(stack[n]) == stack[n] by {
        assert stack == stack[..n] + [stack[n]];
        assert TickAll(stack) == TickAll(stack[..n]) + [Tick(stack[n])];
      }
    }
  }

  ghost predicate SomePending(stack: seq<Token>) {
    exists i :: 0 <= i < |stack| && stack[i].depth > 0
  }

  lemma {:induction false} PushKeepsPending(stack: seq<Token>, t: Token)
    requires SomePending(stack) || t.depth > 0
    ensures SomePending(Push(stack, t))
    decreases |stack|
  {
    PushTop(stack, t);
    if Push(stack, t) == stack + [t] && SomePending(stack) {
      var i :| 0 <= i < |stack| && stack[i].depth > 0;
      assert (stack + [t])[i].depth > 0;
    }
  }

  function Plain(s: string): seq<Token> {
    seq(|s|, i requires 0 <= i < |s| => Token(s[i], 0))
  }

  // Without an escape, the tokens are the characters.
  lemma {:induction false} NothingPendingIsPlain(stack: seq<Token>, s: string)
    ensures SomePending(PushAll(stack, s)) || PushAll(stack, s) == stack + Plain(s)
    ensures SomePending(stack) ==> SomePending(PushAll(stack, s))
    decreases |s|
  {
    if s != "" {
      var t := Token(s[0], 0);
      NothingPendingIsPlain(Push(stack, t), s[1..]);
      if SomePending(stack) { PushKeepsPending(stack, t); }
      PushTop(stack, t);
      if Push(stack, t) == stack + [t] {
        assert stack + [t] + Plain(s[1..]) == stack + Plain(s);
      } else {
        assert SomePending(Push(stack, t));
      }
    }
  }

  lemma {:induction false} ZeroDelay(stack: seq<Token>)
    ensures MaxDelay(stack) == 0 <==> forall i :: 0 <= i < |stack| ==> Delay(stack[i]) == 0
  {
    if stack != [] {
      var n := |stack| - 1;
      ZeroDelay(stack[..n]);
      if MaxDelay(stack) == 0 {
        forall i | 0 <= i < |stack| ensures Delay(stack[i]) == 0 {
          if i < n { assert stack[..n][i] == stack[i]; }
        }
      }
    }
  }

  lemma DepthZeroIsPlain(s: string)
    requires EncodingDepth(s) == 0
    ensures PushAll([], s) == Plain(s)
  {
    ZeroDelay(PushAll([], s));
    NothingPendingIsPlain([], s);
    assert [] + Plain(s) == Plain(s);
  }

  lemma PlainIsInjective(s: string, t: string)
    requires Plain(s) == Plain(t)
    ensures s == t
  {
    assert |s| == |Plain(s)| == |t|;
    forall i | 0 <= i < |s| ensures s[i] == t[i] { assert Plain(s)[i] == Plain(t)[i]; }
  }

  lemma DepthZeroExactly(s: string)
    ensures EncodingDepth(s) == 0 <==> NothingToDecode(s)
  {
    FixpointsAreDecoded(s);
    DecodeTicks([], s);
    assert TickAll([]) == [];
    TickTakesOne(PushAll([], s));
    if EncodingDepth(s) == 0 {
      DepthZeroIsPlain(s);
      DepthZeroIsPlain(Decode(s));
      PlainIsInjective(s, Decode(s));
    }
  }

  lemma {:induction false} PassesTakeOneEach(s: string, n: nat)
    ensures EncodingDepth(Passes(s, n)) == if EncodingDepth(s) > n then EncodingDepth(s) - n else 0
  {
    if n > 0 {
      PassesTakeOneEach(s, n - 1);
      DecodeTicks([], Passes(s, n - 1));
      assert TickAll([]) == [];
      TickTakesOne(PushAll([], Passes(s, n - 1)));
    }
  }

  /** The encoding depth is the exact number of passes: n of them leave nothing to decode if and
      only if the depth is at most n. */
  lemma PassesSufficeExactly(s: string, n: nat)
    ensures NothingToDecode(Passes(s, n)) <==> EncodingDepth(s) <= n
  {
    PassesTakeOneEach(s, n);
    DepthZeroExactly(Passes(s, n));
  }

  /** The limit of five is harmless if and only if the encoding depth of the input is at most five;
      beyond it, the result has something left to decode. */
  lemma LimitIsHarmlessExactly(s: string)
    ensures Passes(s, MAX_ITERATIONS) == DecodeFully(s) <==> EncodingDepth(s) <= 5
    ensures NothingToDecode(Passes(s, MAX_ITERATIONS)) <==> EncodingDepth(s) <= 5
  {
    var n := FullDecodingIsReached(s);
    PassesSufficeExactly(s, MAX_ITERATIONS);
    FixpointsAreDecoded(Passes(s, MAX_ITERATIONS));
    FixpointsAreDecoded(Passes(s, n));
    if NothingToDecode(Passes(s, MAX_ITERATIONS)) {
      if n <= MAX_ITERATIONS { FixpointStays(s, n, MAX_ITERATIONS); } else { FixpointStays(s, MAX_ITERATIONS, n); }
    }
  }

  // ----- decoding inverts encoding -----

  predicate IsBytes(s: string) {
    forall i :: 0 <= i < |s| ==> s[i] as int < 256
  }

  function EncodeAll(s: string, digits: string): string
    requires IsBytes(s) && |digits| == 16
  {
    if s == "" then "" else "%" + Hex2(s[0] as int, digits) + EncodeAll(s[1..], digits)
  }

  function SanitizeAll(s: string): string
    requires IsBytes(s)
  {
    seq(|s|, i requires 0 <= i < |s| => Sanitized(s[i] as int))
  }

  lemma {:induction false} DecodeSanitizes(s: string, digits: string)
    requires IsBytes(s) && (digits == UPPER || digits == LOWER)
    ensures Decode(EncodeAll(s, digits)) == SanitizeAll(s)
  {
    if s != "" {
      var rest, e := EncodeAll(s[1..], digits), EncodeAll(s, digits);
      DecodeSanitizes(s[1..], digits);
      ReadHex2(s[0] as int, digits, rest);
      assert e == "%" + Hex2(s[0] as int, digits) + rest;
      assert SanitizeAll(s) == [Sanitized(s[0] as int)] + SanitizeAll(s[1..]);
    }
  }

  lemma ReadHex2(v: nat, digits: string, rest: string)
    requires v < 256 && (digits == UPPER || digits == LOWER)
    ensures Decode("%" + Hex2(v, digits) + rest) == [Sanitized(v)] + Decode(rest)
  {
    var e := "%" + Hex2(v, digits) + rest;
    HexDigitsDecode(v / 16);
    HexDigitsDecode(v % 16);
    assert EscapeAt(e, 0) && Octet(e, 0) == v;
    assert e[3..] == rest;
  }

  /** Decoding a fully percent-encoded byte string, in either case, gives it back with its control
      characters replaced: the very same string exactly when it has none. */
  lemma DecodeInvertsEncode(s: string, digits: string)
    requires IsBytes(s) && (digits == UPPER || digits == LOWER)
    ensures Decode(EncodeAll(s, digits)) == SanitizeAll(s) && |SanitizeAll(s)| == |s|
    ensures forall i :: 0 <= i < |s| ==> SanitizeAll(s)[i] == if s[i] as int < 0x20 then '?' else s[i]
    ensures Decode(EncodeAll(s, digits)) == s <==> forall i :: 0 <= i < |s| ==> s[i] as int >= 0x20
  {
    DecodeSanitizes(s, digits);
    assert forall i :: 0 <= i < |s| ==> (SanitizeAll(s)[i] == s[i] <==> s[i] as int >= 0x20);
  }

  // ----- form encoding -----

  function SpacesToPluses(s: string): string {
    seq(|s|, i requires 0 <= i < |s| => if s[i] == ' ' then '+' else s[i])
  }

  /** Spaces written as plus signs come back, in any text without plus and percent signs. */
  lemma {:induction false} PlusesAreSpaces(s: string)
    requires '+' !in s && '%' !in s
    ensures Decode(SpacesToPluses(s)) == s
  {
    if s != "" {
      var e := SpacesToPluses(s);
      assert e[1..] == SpacesToPluses(s[1..]) && e[0] != '%';
      PlusesAreSpaces(s[1..]);
    }
  }

  // ----- encoding several times over -----

  lemma Hex2IsPlainText(v: nat, digits: string)
    requires v < 256 && (digits == UPPER || digits == LOWER)
    ensures forall i :: 0 <= i < 2 ==> 0x20 <= Hex2(v, digits)[i] as int < 256
  {
    HexDigitsDecode(v / 16);
    HexDigitsDecode(v % 16);
  }

  lemma {:induction false} EncodedIsPlainText(s: string, digits: string)
    requires IsBytes(s) && (digits == UPPER || digits == LOWER)
    ensures var e := EncodeAll(s, digits);
            |e| == 3 * |s| && forall i :: 0 <= i < |e| ==> 0x20 <= e[i] as int < 256
  {
    if s != "" {
      var h, rest := Hex2(s[0] as int, digits), EncodeAll(s[1..], digits);
      EncodedIsPlainText(s[1..], digits);
      Hex2IsPlainText(s[0] as int, digits);
      assert EncodeAll(s, digits) == ['%', h[0], h[1]] + rest;
    }
  }

  // Bytes without control characters.
  predicate IsPlainText(s: string) {
    forall i :: 0 <= i < |s| ==> 0x20 <= s[i] as int < 256
  }

  function DigitsOf(upper: bool): string {
    if upper then UPPER else LOWER
  }

  function EncodeTimes(s: string, k: nat, upper: bool): (e: string)
    requires IsPlainText(s)
    ensures IsPlainText(e)
  {
    if k == 0 then s else
      var e := EncodeTimes(s, k - 1, upper);
      EncodedIsPlainText(e, DigitsOf(upper));
      EncodeAll(e, DigitsOf(upper))
  }

  lemma OnePassUnwraps(s: string, k: nat, upper: bool)
    requires IsPlainText(s)
    ensures Decode(EncodeTimes(s, k + 1, upper)) == EncodeTimes(s, k, upper)
  {
    DecodeInvertsEncode(EncodeTimes(s, k, upper), DigitsOf(upper));
  }

  lemma {:induction false} PassesUnwrap(s: string, k: nat, upper: bool, n: nat)
    requires IsPlainText(s)
    ensures Passes(EncodeTimes(s, k + n, upper), n) == EncodeTimes(s, k, upper)
    decreases n
  {
    if n > 0 {
      var e := EncodeTimes(s, k + n, upper);
      PassesUnwrap(s, k + 1, upper, n - 1);
      assert Passes(e, n - 1) == EncodeTimes(s, k + 1, upper);
      OnePassUnwraps(s, k, upper);
    }
  }

  lemma {:induction false} EncodeTimesGrows(s: string, k: nat, upper: bool)
    requires IsPlainText(s) && s != ""
    ensures |EncodeTimes(s, k, upper)| >= |s| + k
  {
    if k > 0 {
      EncodeTimesGrows(s, k - 1, upper);
      EncodedIsPlainText(EncodeTimes(s, k - 1, upper), DigitsOf(upper));
    }
  }

  lemma {:induction false} PassesStay(s: string, n: nat)
    requires NothingToDecode(s)
    ensures Passes(s, n) == s
  {
    FixpointsAreDecoded(s);
    if n > 0 { PassesStay(s, n - 1); }
  }

  lemma {:induction false} PassesAdd(s: string, m: nat, n: nat)
    ensures Passes(s, m + n) == Passes(Passes(s, m), n)
  {
    if n > 0 { PassesAdd(s, m, n - 1); }
  }

  lemma EnoughPassesUndo(s: string, k: nat, upper: bool, n: nat)
    requires IsPlainText(s) && NothingToDecode(s) && k <= n
    ensures Passes(EncodeTimes(s, k, upper), n) == s
  {
    var e := EncodeTimes(s, k, upper);
    PassesUnwrap(s, 0, upper, k);
    assert Passes(e, k) == s;
    PassesAdd(e, k, n - k);
    PassesStay(s, n - k);
  }

  lemma TooFewPassesDoNot(s: string, m: nat, upper: bool, n: nat)
    requires IsPlainText(s) && s != "" && m > 0
    ensures |Passes(EncodeTimes(s, m + n, upper), n)| > |s|
  {
    PassesUnwrap(s, m, upper, n);
    EncodeTimesGrows(s, m, upper);
  }

  lemma PassesUndoExactly(s: string, k: nat, upper: bool, n: nat)
    requires IsPlainText(s) && s != "" && NothingToDecode(s)
    ensures Passes(EncodeTimes(s, k, upper), n) == s <==> k <= n
  {
    if k <= n {
      EnoughPassesUndo(s, k, upper, n);
    } else {
      TooFewPassesDoNot(s, k - n, upper, n);
    }
  }

  /** Encoded up to five times over, a text comes back; encoded six times or more, it does not. */
  lemma DeepEncodingSurvives(s: string, k: nat, upper: bool)
    requires IsPlainText(s) && s != "" && NothingToDecode(s)
    ensures Passes(EncodeTimes(s, k, upper), MAX_ITERATIONS) == s <==> k <= 5
  {
    var n: nat := MAX_ITERATIONS;
    PassesUndoExactly(s, k, upper, n);
  }
}
