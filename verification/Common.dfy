module Options {
  datatype Option<+T> = None | Some(value: T)
}

/** What a state becomes under a sequence of inputs, taken one after the other. */
module Runs {
  function Fold<S, T>(next: (S, T) -> S, s: S, inputs: seq<T>): S {
    if inputs == [] then s else
      var n := |inputs| - 1;
      next(Fold(next, s, inputs[..n]), inputs[n])
  }

  lemma {:induction false} FoldConcat<S, T>(next: (S, T) -> S, s: S, a: seq<T>, b: seq<T>)
    ensures Fold(next, s, a + b) == Fold(next, Fold(next, s, a), b)
  {
    if b == [] {
      assert a + b == a;
    } else {
      var n := |b| - 1;
      FoldConcat(next, s, a, b[..n]);
      assert (a + b)[..|a| + n] == a + b[..n];
    }
  }

  lemma FoldOne<S, T>(next: (S, T) -> S, s: S, a: seq<T>, x: T)
    ensures Fold(next, s, a + [x]) == next(Fold(next, s, a), x)
  {
    assert (a + [x])[..|a|] == a;
  }
}

/** Two-digit hexadecimal, written by `setw(2) << setfill('0') << hex` and read back. */
module Hex {
  import opened Options

  const LOWER := "0123456789abcdef"
  const UPPER := "0123456789ABCDEF"

  function HexValue(c: char): Option<nat> {
    if '0' <= c <= '9' then Some(c as int - '0' as int)
    else if 'a' <= c <= 'f' then Some(c as int - 'a' as int + 10)
    else if 'A' <= c <= 'F' then Some(c as int - 'A' as int + 10)
    else None
  }

  function Hex2(n: nat, digits: string): string
    requires n < 256 && |digits| == 16
  {
    [digits[n / 16], digits[n % 16]]
  }

  lemma HexDigitsDecode(k: nat)
    requires k < 16
    ensures HexValue(LOWER[k]) == Some(k) && HexValue(UPPER[k]) == Some(k)
  {
  }
}
