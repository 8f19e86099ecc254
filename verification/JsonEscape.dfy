/** The three JSON string escapers: include/job_monitoring_models.hpp,
    include/hana_exception_handling.hpp and scripts/demo_response_builder_simple.cpp.

    A byte is a character below 256; nothing here needs that bound. Their common meaning is a
    scanner for string tokens after section 7 of RFC 8259. */
module JsonEscape {

  import opened Options
  import opened Hex

  // ----- the escapers, character by character -----

  function JobEscapeChar(c: char): string {
    if c == '\"' then "\\\""
    else if c == '\\' then "\\\\"
    else if c as int == 8 then "\\b"
    else if c as int == 12 then "\\f"
    else if c == '\n' then "\\n"
    else if c == '\r' then "\\r"
    else if c == '\t' then "\\t"
    else if c as int < 0x20 then "\\u00" + Hex2(c as int, LOWER)
    else [c]
  }

  // The same, but bytes from 128 on are copied before anything else is looked at.
  function HanaEscapeChar(c: char): string {
    if c as int >= 128 then [c]
    else if c == '\"' then "\\\""
    else if c == '\\' then "\\\\"
    else if c as int == 8 then "\\b"
    else if c as int == 12 then "\\f"
    else if c == '\n' then "\\n"
    else if c == '\r' then "\\r"
    else if c == '\t' then "\\t"
    else if c as int < 32 then "\\u00" + Hex2(c as int, LOWER)
    else [c]
  }

  // No short form for backspace and form feed, and upper-case digits.
  function DemoEscapeChar(c: char): string {
    if c == '\"' then "\\\""
    else if c == '\\' then "\\\\"
    else if c == '\n' then "\\n"
    else if c == '\r' then "\\r"
    else if c == '\t' then "\\t"
    else if c as int < 0x20 then "\\u00" + Hex2(c as int, UPPER)
    else [c]
  }

  function Escape(f: char -> string, s: string): string {
    if s == "" then "" else
      var n := |s| - 1;
      Escape(f, s[..n]) + f(s[n])
  }

  method JobEscapeJsonString(str: string) returns (result: string)
    ensures result == Escape(JobEscapeChar, str)
  {
    result := "";
    for i := 0 to |str|
      invariant result == Escape(JobEscapeChar, str[..i])
    {
      var c := str[i];
      assert str[..i + 1][..i] == str[..i];
      if c == '\"' { result := result + "\\\""; }
      else if c == '\\' { result := result + "\\\\"; }
      else if c as int == 8 { result := result + "\\b"; }
      else if c as int == 12 { result := result + "\\f"; }
      else if c == '\n' { result := result + "\\n"; }
      else if c == '\r' { result := result + "\\r"; }
      else if c == '\t' { result := result + "\\t"; }
      else if c as int < 0x20 { result := result + ("\\u00" + Hex2(c as int, LOWER)); }
      else { result := result + [c]; }
    }
    assert str[..|str|] == str;
  }

  method HanaEscapeJsonString(input: string) returns (escaped: string)
    ensures escaped == Escape(HanaEscapeChar, input)
  {
    escaped := "";
    for i := 0 to |input|
      invariant escaped == Escape(HanaEscapeChar, input[..i])
    {
      var c := input[i];
      assert input[..i + 1][..i] == input[..i];
      if c as int >= 128 {
        escaped := escaped + [c];
        continue;
      }
      if c == '\"' { escaped := escaped + "\\\""; }
      else if c == '\\' { escaped := escaped + "\\\\"; }
      else if c as int == 8 { escaped := escaped + "\\b"; }
      else if c as int == 12 { escaped := escaped + "\\f"; }
      else if c == '\n' { escaped := escaped + "\\n"; }
      else if c == '\r' { escaped := escaped + "\\r"; }
      else if c == '\t' { escaped := escaped + "\\t"; }
      else if c as int < 32 { escaped := escaped + ("\\u00" + Hex2(c as int, LOWER)); }
      else { escaped := escaped + [c]; }
    }
    assert input[..|input|] == input;
  }

  method DemoEscapeJson(input: string) returns (escaped: string)
    ensures escaped == Escape(DemoEscapeChar, input)
  {
    escaped := "";
    for i := 0 to |input|
      invariant escaped == Escape(DemoEscapeChar, input[..i])
    {
      var c := input[i];
      assert input[..i + 1][..i] == input[..i];
      if c == '\"' { escaped := escaped + "\\\""; }
      else if c == '\\' { escaped := escaped + "\\\\"; }
      else if c == '\n' { escaped := escaped + "\\n"; }
      else if c == '\r' { escaped := escaped + "\\r"; }
      else if c == '\t' { escaped := escaped + "\\t"; }
      else if c as int < 0x20 { escaped := escaped + ("\\u00" + Hex2(c as int, UPPER)); }
      else { escaped := escaped + [c]; }
    }
    assert input[..|input|] == input;
  }

  // ----- a string scanner after section 7 of RFC 8259 -----

  function Hex4(t: string): Option<nat> {
    if |t| < 4 then None else
      match (HexValue(t[0]), HexValue(t[1]), HexValue(t[2]), HexValue(t[3]))
      case (Some(a), Some(b), Some(c), Some(d)) => Some(((a * 16 + b) * 16 + c) * 16 + d)
      case _ => None
  }

  // The UTF-8 bytes of a code point that is not a surrogate.
  function Utf8(p: nat): string
    requires p < 0x110000
  {
    if p < 0x80 then [p as char]
    else if p < 0x800 then [(0xC0 + p / 0x40) as char, (0x80 + p % 0x40) as char]
    else if p < 0x10000 then
      [(0xE0 + p / 0x1000) as char, (0x80 + p / 0x40 % 0x40) as char, (0x80 + p % 0x40) as char]
    else
      [(0xF0 + p / 0x40000) as char, (0x80 + p / 0x1000 % 0x40) as char,
       (0x80 + p / 0x40 % 0x40) as char, (0x80 + p % 0x40) as char]
  }

  // One character or escape at the start of t: what it denotes and how long it is.
  datatype Item = Item(text: string, length: nat)

  function ScanUnicode(t: string): (r: Option<Item>)
    ensures r.Some? ==> 0 < r.value.length <= |t|
  {
    match Hex4(t[if |t| < 2 then |t| else 2..])
    case None => None
    case Some(u) =>
      if u < 0xD800 || 0xE000 <= u < 0x110000 then Some(Item(Utf8(u), 6))
      else if u < 0xDC00 && |t| >= 12 && t[6] == '\\' && t[7] == 'u' then
        match Hex4(t[8..])
        case Some(v) =>
          if 0xDC00 <= v < 0xE000 then Some(Item(Utf8(0x10000 + (u - 0xD800) * 0x400 + (v - 0xDC00)), 12))
          else None
        case None => None
      else None
  }

  function ScanEscape(t: string): (r: Option<Item>)
    requires t != ""
    ensures r.Some? ==> 0 < r.value.length <= |t|
  {
    if |t| < 2 then None
    else if t[1] == '\"' || t[1] == '\\' || t[1] == '/' then Some(Item([t[1]], 2))
    else if t[1] == 'b' then Some(Item([8 as char], 2))
    else if t[1] == 'f' then Some(Item([12 as char], 2))
    else if t[1] == 'n' then Some(Item("\n", 2))
    else if t[1] == 'r' then Some(Item("\r", 2))
    else if t[1] == 't' then Some(Item("\t", 2))
    else if t[1] == 'u' then ScanUnicode(t)
    else None
  }

  // Reads up to the closing quotation mark: the denoted text and what follows it. Control
  // characters, unknown escapes, lone surrogates and a missing quotation mark are errors.
  function Scan(t: string): Option<(string, string)>
    decreases |t|
  {
    if t == "" then None
    else if t[0] == '\"' then Some(("", t[1..]))
    else if t[0] as int < 0x20 then None
    else if t[0] != '\\' then Prepend([t[0]], Scan(t[1..]))
    else
      match ScanEscape(t)
      case None => None
      case Some(item) => Prepend(item.text, Scan(t[item.length..]))
  }

  function Prepend(text: string, r: Option<(string, string)>): Option<(string, string)> {
    match r
    case None => None
    case Some((body, rest)) => Some((text + body, rest))
  }

  // ----- round trips -----

  // Scanning what f writes for c yields c and goes on behind it.
  ghost predicate Faithful(f: char -> string, c: char) {
    forall t :: Scan(f(c) + t) == Prepend([c], Scan(t))
  }

  lemma ScanShort(c: char, e: char, t: string)
    requires ScanEscape(['\\', e] + t) == Some(Item([c], 2))
    ensures Scan(['\\', e] + t) == Prepend([c], Scan(t))
  {
    assert (['\\', e] + t)[2..] == t;
  }

  lemma ScanControl(c: char, digits: string, t: string)
    requires c as int < 0x20 && (digits == LOWER || digits == UPPER)
    ensures Scan("\\u00" + Hex2(c as int, digits) + t) == Prepend([c], Scan(t))
  {
    var k := c as int;
    HexDigitsDecode(k / 16);
    HexDigitsDecode(k % 16);
    var text := "\\u00" + Hex2(k, digits) + t;
    assert text[2..] == "00" + Hex2(k, digits) + t;
    assert text[6..] == t;
    assert Hex4(text[2..]) == Some(k);
    assert ScanEscape(text) == Some(Item([c], 6));
  }

  lemma ScanPlain(c: char, t: string)
    requires c as int >= 0x20 && c != '\"' && c != '\\'
    ensures Scan([c] + t) == Prepend([c], Scan(t))
  {
    assert ([c] + t)[1..] == t;
  }

  lemma JobIsFaithful(c: char)
    ensures Faithful(JobEscapeChar, c)
  {
    forall t ensures Scan(JobEscapeChar(c) + t) == Prepend([c], Scan(t)) {
      if JobEscapeChar(c) == [c] { ScanPlain(c, t); }
      else if |JobEscapeChar(c)| == 2 { ScanShort(c, JobEscapeChar(c)[1], t); }
      else { ScanControl(c, LOWER, t); }
    }
  }

  lemma DemoIsFaithful(c: char)
    ensures Faithful(DemoEscapeChar, c)
  {
    forall t ensures Scan(DemoEscapeChar(c) + t) == Prepend([c], Scan(t)) {
      if DemoEscapeChar(c) == [c] { ScanPlain(c, t); }
      else if |DemoEscapeChar(c)| == 2 { ScanShort(c, DemoEscapeChar(c)[1], t); }
      else { ScanControl(c, UPPER, t); }
    }
  }

  lemma PrependConcat(a: string, b: string, r: Option<(string, string)>)
    ensures Prepend(a, Prepend(b, r)) == Prepend(a + b, r)
    ensures Prepend("", r) == r
  {
    if r.Some? { assert a + (b + r.value.0) == a + b + r.value.0 && "" + r.value.0 == r.value.0; }
  }

  lemma {:induction false} ScanInvertsEscape(f: char -> string, s: string, t: string)
    requires forall c :: Faithful(f, c)
    ensures Scan(Escape(f, s) + t) == Prepend(s, Scan(t))
  {
    if s == "" {
      assert Escape(f, s) + t == t;
      PrependConcat("", "", Scan(t));
    } else {
      var n := |s| - 1;
      var before, c, rest := s[..n], s[n], f(s[n]) + t;
      assert Escape(f, s) + t == Escape(f, before) + rest;
      ScanInvertsEscape(f, before, rest);
      assert Faithful(f, c);
      PrependConcat(before, [c], Scan(t));
      assert s == before + [c];
    }
  }

  lemma ScanToken(f: char -> string, s: string, tail: string)
    requires forall c :: Faithful(f, c)
    ensures Scan(Escape(f, s) + "\"" + tail) == Some((s, tail))
  {
    var t := "\"" + tail;
    ScanInvertsEscape(f, s, t);
    assert Escape(f, s) + "\"" + tail == Escape(f, s) + t;
    assert t[1..] == tail && s + "" == s;
  }

  /** A JSON reader recovers exactly the escaped string, and goes on exactly behind it. */
  lemma JobEscapeRoundTrip(s: string, tail: string)
    ensures Scan(Escape(JobEscapeChar, s) + "\"" + tail) == Some((s, tail))
  {
    forall c ensures Faithful(JobEscapeChar, c) { JobIsFaithful(c); }
    ScanToken(JobEscapeChar, s, tail);
  }

  lemma DemoEscapeRoundTrip(s: string, tail: string)
    ensures Scan(Escape(DemoEscapeChar, s) + "\"" + tail) == Some((s, tail))
  {
    forall c ensures Faithful(DemoEscapeChar, c) { DemoIsFaithful(c); }
    ScanToken(DemoEscapeChar, s, tail);
  }

  /** The two headers write the same text. */
  lemma {:induction false} HeadersAgree(s: string)
    ensures Escape(HanaEscapeChar, s) == Escape(JobEscapeChar, s)
  {
    if s != "" { HeadersAgree(s[..|s| - 1]); }
  }

  lemma HanaEscapeRoundTrip(s: string, tail: string)
    ensures Scan(Escape(HanaEscapeChar, s) + "\"" + tail) == Some((s, tail))
  {
    HeadersAgree(s);
    JobEscapeRoundTrip(s, tail);
  }

  /** Different strings are never escaped to the same text. */
  lemma EscapeIsInjective(s: string, t: string)
    requires Escape(JobEscapeChar, s) == Escape(JobEscapeChar, t)
          || Escape(DemoEscapeChar, s) == Escape(DemoEscapeChar, t)
    ensures s == t
  {
    JobEscapeRoundTrip(s, "");
    JobEscapeRoundTrip(t, "");
    DemoEscapeRoundTrip(s, "");
    DemoEscapeRoundTrip(t, "");
  }

  // ----- the response builder's documentation -----

  // "Other characters are left unchanged."
  function DocumentedEscapeChar(c: char): string {
    if c == '\"' then "\\\""
    else if c == '\\' then "\\\\"
    else if c == '\n' then "\\n"
    else if c == '\r' then "\\r"
    else if c == '\t' then "\\t"
    else [c]
  }

  predicate IsOtherControl(c: char) {
    c as int < 0x20 && c != '\n' && c != '\r' && c != '\t'
  }

  lemma {:induction false} ControlsMakeItLonger(s: string)
    ensures var written, documented := Escape(DemoEscapeChar, s), Escape(DocumentedEscapeChar, s);
            && |written| >= |documented|
            && (if exists i :: 0 <= i < |s| && IsOtherControl(s[i]) then |written| > |documented|
                else written == documented)
  {
    if s != "" {
      var n := |s| - 1;
      ControlsMakeItLonger(s[..n]);
      if i :| 0 <= i < n && IsOtherControl(s[i]) { assert IsOtherControl(s[..n][i]); }
    }
  }

  /** The escaper does what its comment says if and only if the string has no control character but
      newline, carriage return and tab. */
  lemma CommentHoldsExactly(s: string)
    ensures Escape(DemoEscapeChar, s) == Escape(DocumentedEscapeChar, s) <==>
            forall i :: 0 <= i < |s| ==> !IsOtherControl(s[i])
  {
    ControlsMakeItLonger(s);
  }

  // ----- no more escapes than needed, and which ones -----

  predicate NeedsEscape(c: char) {
    c == '\"' || c == '\\' || c as int < 0x20
  }

  ghost predicate EscapesOne(f: char -> string, c: char) {
    if NeedsEscape(c) then |f(c)| > 1 else f(c) == [c]
  }

  lemma {:induction false} EscapesMakeItLonger(f: char -> string, s: string)
    requires forall c :: EscapesOne(f, c)
    ensures |Escape(f, s)| >= |s|
    ensures if exists i :: 0 <= i < |s| && NeedsEscape(s[i]) then |Escape(f, s)| > |s| else Escape(f, s) == s
  {
    if s != "" {
      var n := |s| - 1;
      EscapesMakeItLonger(f, s[..n]);
      assert EscapesOne(f, s[n]) && s == s[..n] + [s[n]];
      if i :| 0 <= i < n && NeedsEscape(s[i]) { assert NeedsEscape(s[..n][i]); }
    }
  }

  lemma JobEscapesOne(c: char)
    ensures if NeedsEscape(c) then |JobEscapeChar(c)| > 1 else JobEscapeChar(c) == [c]
  {
  }

  lemma HanaEscapesOne(c: char)
    ensures if NeedsEscape(c) then |HanaEscapeChar(c)| > 1 else HanaEscapeChar(c) == [c]
  {
  }

  lemma DemoEscapesOne(c: char)
    ensures if NeedsEscape(c) then |DemoEscapeChar(c)| > 1 else DemoEscapeChar(c) == [c]
  {
  }

  /** Each escaper leaves a string unchanged exactly if it has no quotation mark, no backslash and no
      control character. */
  lemma UnchangedExactly(s: string)
    ensures var plain := forall i :: 0 <= i < |s| ==> !NeedsEscape(s[i]);
            && (Escape(JobEscapeChar, s) == s <==> plain)
            && (Escape(HanaEscapeChar, s) == s <==> plain)
            && (Escape(DemoEscapeChar, s) == s <==> plain)
  {
    forall c ensures EscapesOne(JobEscapeChar, c) { JobEscapesOne(c); }
    forall c ensures EscapesOne(HanaEscapeChar, c) { HanaEscapesOne(c); }
    forall c ensures EscapesOne(DemoEscapeChar, c) { DemoEscapesOne(c); }
    EscapesMakeItLonger(JobEscapeChar, s);
    EscapesMakeItLonger(HanaEscapeChar, s);
    EscapesMakeItLonger(DemoEscapeChar, s);
  }

  // Backspace and form feed, which have a short form in the headers only, and the control characters
  // whose second digit is a letter.
  predicate WrittenDifferently(c: char) {
    c as int == 8 || c as int == 12 || (c as int < 0x20 && c as int % 16 >= 10 && c != '\n' && c != '\r')
  }

  lemma WrittenAlike(c: char)
    ensures |DemoEscapeChar(c)| >= |JobEscapeChar(c)|
    ensures DemoEscapeChar(c) == JobEscapeChar(c) <==> !WrittenDifferently(c)
  {
    var k := c as int;
    if k < 0x20 {
      HexCase(k);
      SameEnd("\\u00", Hex2(k, UPPER), Hex2(k, LOWER));
    }
  }

  lemma SameEnd(start: string, a: string, b: string)
    ensures start + a == start + b <==> a == b
  {
    assert (start + a)[|start|..] == a && (start + b)[|start|..] == b;
  }

  lemma HexCase(k: nat)
    requires k < 0x20
    ensures Hex2(k, UPPER) == Hex2(k, LOWER) <==> k % 16 < 10
  {
    assert Hex2(k, UPPER)[0] == Hex2(k, LOWER)[0];
    assert Hex2(k, UPPER)[1] == Hex2(k, LOWER)[1] <==> k % 16 < 10;
  }

  lemma {:induction false} SameTextSameCharacters(s: string)
    ensures |Escape(DemoEscapeChar, s)| >= |Escape(JobEscapeChar, s)|
    ensures Escape(DemoEscapeChar, s) == Escape(JobEscapeChar, s) <==>
            forall i :: 0 <= i < |s| ==> !WrittenDifferently(s[i])
  {
    if s != "" {
      var n := |s| - 1;
      var demo, job := Escape(DemoEscapeChar, s[..n]), Escape(JobEscapeChar, s[..n]);
      SameTextSameCharacters(s[..n]);
      WrittenAlike(s[n]);
      if demo + DemoEscapeChar(s[n]) == job + JobEscapeChar(s[n]) {
        assert |demo| == |job|;
        assert demo == (demo + DemoEscapeChar(s[n]))[..|demo|];
        assert job == (job + JobEscapeChar(s[n]))[..|job|];
        assert DemoEscapeChar(s[n]) == (demo + DemoEscapeChar(s[n]))[|demo|..];
        assert JobEscapeChar(s[n]) == (job + JobEscapeChar(s[n]))[|job|..];
      }
    }
  }

  /** The response builder writes what the headers write exactly for strings without backspace, form
      feed and the control characters whose code ends in a letter. */
  lemma DemoAgreesExactly(s: string)
    ensures Escape(DemoEscapeChar, s) == Escape(JobEscapeChar, s) <==>
            forall i :: 0 <= i < |s| ==> !WrittenDifferently(s[i])
  {
    SameTextSameCharacters(s);
  }
}
