/** Positional numerals: what a list of 32-bit words, a list of nine-digit groups and a decimal
    string denote. Nothing here mentions how the Dubbo bridge converts one into another. */
module Numerals {
  const WORD_BASE := 0x1_0000_0000
  const GROUP_BASE := 1_000_000_000

  function Pow(b: nat, e: nat): nat {
    if e == 0 then 1 else b * Pow(b, e - 1)
  }

  /** Big-endian base-2^32 value. */
  function WordsValue(words: seq<int>): int {
    if words == [] then 0
    else WordsValue(words[..|words| - 1]) * WORD_BASE + words[|words| - 1]
  }

  /** Little-endian base-10^9 value. */
  function GroupsValue(groups: seq<int>): int {
    if groups == [] then 0 else groups[0] + GROUP_BASE * GroupsValue(groups[1..])
  }

  predicate IsDigit(c: char) { '0' <= c <= '9' }

  predicate AllDigits(s: string) { forall i :: 0 <= i < |s| ==> IsDigit(s[i]) }

  function Digit(d: nat): (c: char)
    requires d < 10
    ensures IsDigit(c)
  {
    '0' + d as char
  }

  /** The canonical decimal numeral of `n`, as `std::to_string` prints it. */
  function Decimal(n: nat): (s: string)
    ensures s != "" && AllDigits(s)
    ensures n > 0 ==> s[0] != '0'
  {
    if n < 10 then [Digit(n)] else Decimal(n / 10) + [Digit(n % 10)]
  }

  /** The number a digit string denotes. */
  function NumeralValue(s: string): nat
    requires AllDigits(s)
  {
    if s == "" then 0
    else 10 * NumeralValue(s[..|s| - 1]) + (s[|s| - 1] - '0') as nat
  }

  /** The lowest `k` decimal digits of `n`. */
  function LowDigits(n: nat, k: nat): (s: string)
    ensures |s| == k && AllDigits(s)
    decreases k
  {
    if k == 0 then "" else LowDigits(n / 10, k - 1) + [Digit(n % 10)]
  }

  /** Left fill with '0' up to width `w`, as `fmt` does for "{:0>w}". */
  function FillZero(s: string, w: nat): string
    decreases w - |s|
  {
    if |s| >= w then s else FillZero("0" + s, w)
  }

  lemma {:induction false} DecimalRoundTrip(n: nat)
    ensures NumeralValue(Decimal(n)) == n
  {
    if n < 10 {
      assert Decimal(n)[..0] == "";
    } else {
      DecimalRoundTrip(n / 10);
      assert Decimal(n)[..|Decimal(n)| - 1] == Decimal(n / 10);
    }
  }

  /** Splitting a number at 10^k splits its numeral. */
  lemma DecimalSplit(a: nat, b: nat, k: nat)
    requires a > 0 && b < Pow(10, k)
    ensures Decimal(a * Pow(10, k) + b) == Decimal(a) + LowDigits(b, k)
  {
    ShiftIsProduct(a, k);
    ShiftedSplit(a, b, k);
  }

  /** `a` followed by `k` zeros. */
  function Shifted(a: nat, k: nat): (n: nat)
    ensures a > 0 ==> n > 0
  {
    if k == 0 then a else 10 * Shifted(a, k - 1)
  }

  lemma {:induction false} ShiftIsProduct(a: nat, k: nat)
    ensures Shifted(a, k) == a * Pow(10, k)
  {
    if k > 0 {
      ShiftIsProduct(a, k - 1);
      Exchange(a, Pow(10, k - 1));
    }
  }

  lemma Exchange(a: int, p: int)
    ensures a * (10 * p) == 10 * (a * p)
  {
  }

  lemma {:induction false} ShiftedSplit(a: nat, b: nat, k: nat)
    requires a > 0 && b < Pow(10, k)
    ensures Decimal(Shifted(a, k) + b) == Decimal(a) + LowDigits(b, k)
    decreases k
  {
    if k > 0 {
      ShiftedSplit(a, b / 10, k - 1);
      DecimalStep(Shifted(a, k - 1), b);
    }
  }

  /** One more digit at the end. */
  lemma DecimalStep(m: nat, b: nat)
    requires m >= 1
    ensures Decimal(10 * m + b) == Decimal(m + b / 10) + [Digit(b % 10)]
  {
    assert (10 * m + b) / 10 == m + b / 10 && (10 * m + b) % 10 == b % 10;
  }

  lemma {:induction false} FillZeroPrepend(s: string, t: string, w: nat)
    requires |s| <= w
    ensures FillZero(s, w) + t == FillZero(s + t, w + |t|)
    decreases w - |s|
  {
    if |s| < w {
      FillZeroPrepend("0" + s, t, w);
      assert "0" + s + t == "0" + (s + t);
    }
  }

  /** A number below 10^k, printed and zero-filled to width k, is exactly its k low digits. */
  lemma {:induction false} FillZeroIsLowDigits(n: nat, k: nat)
    requires k > 0 && n < Pow(10, k)
    ensures |Decimal(n)| <= k
    ensures FillZero(Decimal(n), k) == LowDigits(n, k)
    decreases k
  {
    if n < 10 {
      ZeroFillDigit(n, k);
    } else {
      FillZeroIsLowDigits(n / 10, k - 1);
      FillZeroPrepend(Decimal(n / 10), [Digit(n % 10)], k - 1);
    }
  }

  lemma {:induction false} ZeroFillDigit(n: nat, k: nat)
    requires k > 0 && n < 10
    ensures FillZero(Decimal(n), k) == LowDigits(n, k)
  {
    if k == 1 {
      assert LowDigits(n / 10, 0) == "";
    } else {
      ZeroFillDigit(0, k - 1);
      FillZeroPrepend("0", [Digit(n)], k - 1);
      assert FillZero(Decimal(n), k) == FillZero("0" + Decimal(n), k);
      assert n / 10 == 0;
    }
  }

  lemma {:induction false} GroupsAppend(g: seq<int>, x: int)
    ensures GroupsValue(g + [x]) == GroupsValue(g) + Pow(GROUP_BASE, |g|) * x
  {
    if g != [] {
      GroupsAppend(g[1..], x);
      assert (g + [x])[1..] == g[1..] + [x];
      var p := Pow(GROUP_BASE, |g| - 1);
      assert GROUP_BASE * (p * x) == (GROUP_BASE * p) * x;
    }
  }

  lemma WordsStep(words: seq<int>, i: nat)
    requires i < |words|
    ensures WordsValue(words[..i + 1]) == WordsValue(words[..i]) * WORD_BASE + words[i]
  {
    assert words[..i + 1][..i] == words[..i];
  }

  lemma {:induction false} WordsNonNegative(words: seq<int>)
    requires forall i :: 0 <= i < |words| ==> words[i] >= 0
    ensures WordsValue(words) >= 0
    ensures (exists i :: 0 <= i < |words| && words[i] > 0) ==> WordsValue(words) > 0
    ensures (forall i :: 0 <= i < |words| ==> words[i] == 0) ==> WordsValue(words) == 0
  {
    if words != [] {
      var front := words[..|words| - 1];
      assert forall i :: 0 <= i < |front| ==> front[i] == words[i];
      WordsNonNegative(front);
      if i :| 0 <= i < |words| && words[i] > 0 {
        assert i == |words| - 1 || front[i] > 0;
      }
    }
  }
}
