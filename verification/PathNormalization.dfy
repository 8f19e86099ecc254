/** normalizePath of scripts/demo_request_validator_simple.cpp.

    The reference reads a path character by character with a stack of finished segments and the
    segment being read; the method follows the source's three loops. */
module PathNormalization {

  function Slashed(p: string): string {
    seq(|p|, i requires 0 <= i < |p| => if p[i] == '\\' then '/' else p[i])
  }

  // What the loop body does with one segment.
  function Push(stack: seq<string>, segment: string): seq<string> {
    if segment == "." || segment == "" then stack
    else if segment == ".." then if stack != [] then stack[..|stack| - 1] else stack
    else stack + [segment]
  }

  datatype Reader = Reader(stack: seq<string>, segment: string)

  function Feed(r: Reader, c: char): Reader {
    if c == '/' then Reader(Push(r.stack, r.segment), "") else r.(segment := r.segment + [c])
  }

  function FeedAll(r: Reader, s: string): Reader {
    if s == "" then r else
      var n := |s| - 1;
      Feed(FeedAll(r, s[..n]), s[n])
  }

  function Finish(r: Reader): seq<string> {
    Push(r.stack, r.segment)
  }

  function Resolve(p: string): seq<string> {
    Finish(FeedAll(Reader([], ""), Slashed(p)))
  }

  function Body(stack: seq<string>): string {
    if stack == [] then "" else
      var n := |stack| - 1;
      Body(stack[..n]) + "/" + stack[n]
  }

  function Render(stack: seq<string>): string {
    if Body(stack) == "" then "/" else Body(stack)
  }

  function Normalize(p: string): string {
    Render(Resolve(p))
  }

  // ----- the reader -----

  lemma {:induction false} FeedAllConcat(r: Reader, s: string, t: string)
    ensures FeedAll(r, s + t) == FeedAll(FeedAll(r, s), t)
  {
    if t == "" {
      assert s + t == s;
    } else {
      var n := |t| - 1;
      FeedAllConcat(r, s, t[..n]);
      assert (s + t)[..|s| + n] == s + t[..n];
    }
  }

  lemma FeedSlash(r: Reader)
    ensures FeedAll(r, "/") == Reader(Finish(r), "")
  {
    assert FeedAll(r, "/"[..0]) == r;
  }

  lemma {:induction false} FeedSegment(r: Reader, segment: string)
    requires '/' !in segment
    ensures FeedAll(r, segment) == r.(segment := r.segment + segment)
  {
    if segment != "" {
      var n := |segment| - 1;
      FeedSegment(r, segment[..n]);
      assert r.segment + segment == r.segment + segment[..n] + [segment[n]];
    } else {
      assert r.segment + segment == r.segment;
    }
  }

  lemma SlashedConcat(p: string, q: string)
    ensures Slashed(p + q) == Slashed(p) + Slashed(q)
  {
  }

  // ----- the method -----

  method ConvertBackslashes(path: string) returns (input: string)
    ensures input == Slashed(path)
  {
    input := path;
    for i := 0 to |path|
      invariant |input| == |path|
      invariant forall j :: 0 <= j < |path| ==> input[j] == if j < i then Slashed(path)[j] else path[j]
    {
      if input[i] == '\\' { input := input[i := '/']; }
    }
  }

  // getline: up to the next slash, which is consumed, or to the end.
  method GetLine(input: string, start: nat) returns (segment: string, pos: nat)
    requires start < |input|
    ensures start < pos <= |input| && '/' !in segment
    ensures if pos - start == |segment| then input[start..] == segment else input[start..pos] == segment + "/"
  {
    segment, pos := "", start;
    while pos < |input| && input[pos] != '/'
      invariant start <= pos <= |input| && segment == input[start..pos] && '/' !in segment
    {
      assert input[start..pos + 1] == input[start..pos] + [input[pos]];
      segment := segment + [input[pos]];
      pos := pos + 1;
    }
    if pos < |input| {
      assert input[start..pos + 1] == input[start..pos] + "/";
      pos := pos + 1;
    } else {
      assert input[start..pos] == input[start..];
    }
  }

  method NormalizePath(path: string) returns (normalized: string)
    ensures normalized == Normalize(path)
  {
    var input := ConvertBackslashes(path);
    var segments: seq<string> := [];
    var pos := 0;
    while pos < |input|
      invariant pos <= |input|
      invariant Finish(FeedAll(Reader(segments, ""), input[pos..])) == Resolve(path)
      decreases |input| - pos
    {
      ghost var start := pos;
      var segment;
      segment, pos := GetLine(input, pos);
      assert input[start..][..pos - start] == input[start..pos] && input[start..][pos - start..] == input[pos..];
      ReadSegment(segments, segment, input[start..], pos - start);
      if segment == "." || segment == "" {
        continue;
      } else if segment == ".." {
        if segments != [] { segments := segments[..|segments| - 1]; }
      } else {
        segments := segments + [segment];
      }
    }
    normalized := JoinSegments(segments);
    if normalized == "" { normalized := "/"; }
  }

  method JoinSegments(segments: seq<string>) returns (normalized: string)
    ensures normalized == Body(segments)
  {
    normalized := "";
    for i := 0 to |segments|
      invariant normalized == Body(segments[..i])
    {
      assert segments[..i + 1][..i] == segments[..i];
      normalized := normalized + ("/" + segments[i]);
    }
    assert segments[..|segments|] == segments;
  }

  // Reading one more segment off the input leaves the same result to compute.
  lemma ReadSegment(stack: seq<string>, segment: string, input: string, used: nat)
    requires used <= |input| && '/' !in segment
    requires if used == |segment| then input == segment else input[..used] == segment + "/"
    ensures Finish(FeedAll(Reader(stack, ""), input))
         == Finish(FeedAll(Reader(Push(stack, segment), ""), input[used..]))
  {
    FeedSegment(Reader(stack, ""), segment);
    assert "" + segment == segment;
    if used == |segment| {
      assert input[used..] == "";
    } else {
      assert input == segment + "/" + input[used..];
      FeedAllConcat(Reader(stack, ""), segment + "/", input[used..]);
      FeedAllConcat(Reader(stack, ""), segment, "/");
      FeedSlash(Reader(stack, segment));
    }
  }

  // ----- normal forms -----

  ghost predicate CleanSegment(s: string) {
    s != "" && s != "." && s != ".." && '/' !in s && '\\' !in s
  }

  ghost predicate Clean(stack: seq<string>) {
    forall i :: 0 <= i < |stack| ==> CleanSegment(stack[i])
  }

  lemma {:induction false} FeedAllIsClean(r: Reader, s: string)
    requires Clean(r.stack) && '/' !in r.segment && '\\' !in r.segment && '\\' !in s
    ensures var r' := FeedAll(r, s);
            Clean(r'.stack) && Clean(Finish(r')) && '/' !in r'.segment && '\\' !in r'.segment
  {
    if s != "" { FeedAllIsClean(r, s[..|s| - 1]); }
  }

  lemma ResolveIsClean(p: string)
    ensures Clean(Resolve(p))
  {
    assert '\\' !in Slashed(p);
    FeedAllIsClean(Reader([], ""), Slashed(p));
  }

  // s[i..j] is cut out by the slash before it and the slash or the end after it.
  ghost predicate IsCut(s: string, i: nat, j: nat) {
    0 < i <= j <= |s| && s[i - 1] == '/' && (j == |s| || s[j] == '/') && forall k :: i <= k < j ==> s[k] != '/'
  }

  lemma {:induction false} BodyCuts(stack: seq<string>, i: nat, j: nat)
    requires Clean(stack) && IsCut(Body(stack), i, j)
    ensures CleanSegment(Body(stack)[i..j])
  {
    var n := |stack| - 1;
    var before, last := Body(stack[..n]), stack[n];
    var s := Body(stack);
    assert CleanSegment(last) && s == before + "/" + last && s[|before|] == '/';
    assert forall k :: |before| < k < |s| ==> s[k] == last[k - |before| - 1];
    assert forall k :: 0 <= k < |before| ==> s[k] == before[k];
    if i <= |before| {
      assert j <= |before| && before[i..j] == s[i..j];
      BodyCuts(stack[..n], i, j);
    } else {
      assert i == |before| + 1 && j == |s| && s[i..j] == last;
    }
  }

  /** Every result starts with a slash and has no backslash; cut at its slashes, no segment is empty,
      "." or "..", except for the bare root. So it has no double and no trailing slash. */
  lemma NormalFormIsClean(p: string)
    ensures var r := Normalize(p);
            && r != "" && r[0] == '/' && '\\' !in r
            && (r == "/" || forall i: nat, j: nat :: IsCut(r, i, j) ==> CleanSegment(r[i..j]))
            && (r == "/" || (r[|r| - 1] != '/' && forall i :: 0 <= i < |r| - 1 ==> !(r[i] == r[i + 1] == '/')))
  {
    var r, stack := Normalize(p), Resolve(p);
    ResolveIsClean(p);
    BodyStartsWithSlash(stack);
    BodyHasNoBackslash(stack);
    if r != "/" {
      forall i: nat, j: nat | IsCut(r, i, j) ensures CleanSegment(r[i..j]) { BodyCuts(stack, i, j); }
      CleanCuts(r);
    }
  }

  lemma CleanCuts(r: string)
    requires r != "" && forall i: nat, j: nat :: IsCut(r, i, j) ==> CleanSegment(r[i..j])
    ensures r[|r| - 1] != '/' && forall i :: 0 <= i < |r| - 1 ==> !(r[i] == r[i + 1] == '/')
  {
    assert r[|r|..|r|] == "" && (IsCut(r, |r|, |r|) <==> r[|r| - 1] == '/');
    forall i | 0 <= i < |r| - 1 ensures !(r[i] == r[i + 1] == '/') {
      assert r[i + 1..i + 1] == "" && (IsCut(r, i + 1, i + 1) <==> r[i] == r[i + 1] == '/');
    }
  }

  lemma {:induction false} BodyStartsWithSlash(stack: seq<string>)
    ensures stack != [] ==> Body(stack) != "" && Body(stack)[0] == '/'
  {
    if stack != [] { BodyStartsWithSlash(stack[..|stack| - 1]); }
  }

  lemma {:induction false} BodyHasNoBackslash(stack: seq<string>)
    requires Clean(stack)
    ensures Slashed(Body(stack)) == Body(stack)
  {
    if stack != [] {
      var n := |stack| - 1;
      BodyHasNoBackslash(stack[..n]);
      SlashedConcat(Body(stack[..n]) + "/", stack[n]);
      SlashedConcat(Body(stack[..n]), "/");
    }
  }

  lemma ReadOneMore(before: string, stack: seq<string>, segment: string)
    requires CleanSegment(segment) && FeedAll(Reader([], ""), before + "/") == Reader(stack, "")
    ensures FeedAll(Reader([], ""), before + "/" + segment) == Reader(stack, segment)
  {
    FeedAllConcat(Reader([], ""), before + "/", segment);
    FeedSegment(Reader(stack, ""), segment);
    assert "" + segment == segment;
  }

  lemma ReadSlash(text: string, stack: seq<string>)
    requires Finish(FeedAll(Reader([], ""), text)) == stack
    ensures FeedAll(Reader([], ""), text + "/") == Reader(stack, "")
  {
    FeedAllConcat(Reader([], ""), text, "/");
    FeedSlash(FeedAll(Reader([], ""), text));
  }

  lemma BodyOfMore(front: seq<string>, last: string)
    ensures Body(front + [last]) == Body(front) + "/" + last
  {
    assert (front + [last])[..|front|] == front;
  }

  lemma ReadLast(front: seq<string>, last: string)
    requires CleanSegment(last) && FeedAll(Reader([], ""), Body(front) + "/") == Reader(front, "")
    ensures Finish(FeedAll(Reader([], ""), Body(front + [last]))) == front + [last]
  {
    BodyOfMore(front, last);
    ReadOneMore(Body(front), front, last);
  }

  // Reading a rendered stack back, up to the slash after it, rebuilds the stack.
  lemma {:induction false} ReadBody(stack: seq<string>)
    requires Clean(stack)
    ensures Finish(FeedAll(Reader([], ""), Body(stack))) == stack
    ensures FeedAll(Reader([], ""), Body(stack) + "/") == Reader(stack, "")
  {
    if stack != [] {
      var front, last := stack[..|stack| - 1], stack[|stack| - 1];
      assert CleanSegment(last);
      ReadBody(front);
      ReadLast(front, last);
      assert front + [last] == stack;
    }
    ReadSlash(Body(stack), stack);
  }

  lemma ReadRendered(stack: seq<string>)
    requires Clean(stack)
    ensures Slashed(Render(stack)) == Render(stack)
    ensures Finish(FeedAll(Reader([], ""), Render(stack))) == stack
    ensures FeedAll(Reader([], ""), Render(stack) + "/") == Reader(stack, "")
  {
    BodyStartsWithSlash(stack);
    BodyHasNoBackslash(stack);
    ReadBody(stack);
    if stack == [] {
      FeedSlash(Reader([], ""));
      FeedAllConcat(Reader([], ""), "/", "/");
    }
  }

  /** Rendering loses nothing: different normal forms are different strings. */
  lemma RenderIsInjective(a: seq<string>, b: seq<string>)
    requires Clean(a) && Clean(b) && Render(a) == Render(b)
    ensures a == b
  {
    ReadRendered(a);
    ReadRendered(b);
  }

  /** Normalising is idempotent. */
  lemma NormalizeIsIdempotent(p: string)
    ensures Normalize(Normalize(p)) == Normalize(p)
  {
    ResolveIsClean(p);
    ReadRendered(Resolve(p));
  }

  // What a further path does to a path read so far.
  lemma ResolveAppend(p: string, q: string)
    ensures Resolve(p + "/" + q) == Finish(FeedAll(Reader(Resolve(p), ""), Slashed(q)))
  {
    SlashedConcat(p + "/", q);
    SlashedConcat(p, "/");
    assert Slashed("/") == "/";
    FeedAllConcat(Reader([], ""), Slashed(p) + "/", Slashed(q));
    FeedAllConcat(Reader([], ""), Slashed(p), "/");
    FeedSlash(FeedAll(Reader([], ""), Slashed(p)));
  }

  /** Normalising a prefix first changes nothing. */
  lemma NormalizeComposes(p: string, q: string)
    ensures Normalize(p + "/" + q) == Normalize(Normalize(p) + "/" + q)
  {
    ResolveIsClean(p);
    ReadRendered(Resolve(p));
    ResolveAppend(p, q);
    ResolveAppend(Normalize(p), q);
  }

  // ----- what each segment does -----

  lemma SeparatorsAreEqual(p: string, separator: char, q: string)
    requires separator == '/' || separator == '\\'
    ensures Resolve(p + [separator] + q) == Resolve(p + "/" + q)
  {
    SlashedConcat(p + [separator], q);
    SlashedConcat(p, [separator]);
    SlashedConcat(p + "/", q);
    SlashedConcat(p, "/");
    assert Slashed([separator]) == Slashed("/");
  }

  lemma ResolveSegment(p: string, separator: char, x: string)
    requires separator == '/' || separator == '\\'
    requires '/' !in x && '\\' !in x
    ensures Resolve(p + [separator] + x) == Push(Resolve(p), x)
  {
    SeparatorsAreEqual(p, separator, x);
    ResolveAppend(p, x);
    assert Slashed(x) == x;
    FeedSegment(Reader(Resolve(p), ""), x);
    assert "" + x == x;
  }

  /** What one more segment does to a path, whichever way its slash leans: nothing if it is "." or
      empty, it goes up one if it is "..", and down into any other. With the empty path this fixes the
      result for every path. */
  lemma ResolveExactly(p: string, separator: char, x: string)
    requires separator == '/' || separator == '\\'
    requires CleanSegment(x)
    ensures Resolve("") == []
    ensures Resolve(p + [separator]) == Resolve(p)
    ensures Resolve(p + [separator] + ".") == Resolve(p)
    ensures Resolve(p + [separator] + "..") == if Resolve(p) == [] then [] else Resolve(p)[..|Resolve(p)| - 1]
    ensures Resolve(p + [separator] + x) == Resolve(p) + [x]
  {
    ResolveSegment(p, separator, "");
    assert p + [separator] + "" == p + [separator];
    ResolveSegment(p, separator, ".");
    ResolveSegment(p, separator, "..");
    ResolveSegment(p, separator, x);
  }

  lemma RootIsEmpty(stack: seq<string>)
    requires Clean(stack)
    ensures Render(stack) == "/" <==> stack == []
    ensures stack != [] ==> Render(stack) == Body(stack)
  {
    if stack != [] {
      var front, last := stack[..|stack| - 1], stack[|stack| - 1];
      assert CleanSegment(last) && stack == front + [last];
      BodyOfMore(front, last);
    }
  }

  /** On the result itself: a further segment is appended after a slash. */
  lemma NormalizeAppends(p: string, separator: char, x: string)
    requires separator == '/' || separator == '\\'
    requires CleanSegment(x)
    ensures Normalize("") == "/"
    ensures Normalize(p + [separator] + x) == (if Normalize(p) == "/" then "" else Normalize(p)) + "/" + x
  {
    ResolveExactly(p, separator, x);
    ResolveIsClean(p);
    ResolveIsClean(p + [separator] + x);
    RootIsEmpty(Resolve(p));
    RootIsEmpty(Resolve(p) + [x]);
    BodyOfMore(Resolve(p), x);
  }

  /** A leading slash makes no difference. */
  lemma LeadingSlash(p: string)
    ensures Normalize("/" + p) == Normalize(p)
  {
    ResolveAppend("", p);
    assert "" + "/" + p == "/" + p;
  }

  function Climb(n: nat): string {
    if n == 0 then "" else Climb(n - 1) + "/.."
  }

  lemma ResolveUp(p: string)
    ensures var st := Resolve(p); Resolve(p + "/..") == if st == [] then [] else st[..|st| - 1]
  {
    ResolveSegment(p, '/', "..");
    assert p + "/" + ".." == p + "/..";
  }

  /** Each ".." removes one segment until none is left: no number of them climbs above the root. */
  lemma {:induction false} ClimbingStopsAtRoot(p: string, n: nat)
    ensures Resolve(p + Climb(n)) == Resolve(p)[..if n <= |Resolve(p)| then |Resolve(p)| - n else 0]
  {
    if n == 0 {
      assert p + Climb(0) == p;
    } else {
      ClimbingStopsAtRoot(p, n - 1);
      ResolveUp(p + Climb(n - 1));
      var before, st := Resolve(p + Climb(n - 1)), Resolve(p);
      assert before != [] ==> before[..|before| - 1] == st[..|before| - 1];
      assert p + Climb(n) == p + Climb(n - 1) + "/..";
    }
  }
}
