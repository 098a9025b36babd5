/** Positional numerals: what libc's three number printers are supposed to write. */
module Numerals {
  import opened Machine

  const UPPER: string := "0123456789ABCDEF"
  const LOWER: string := "0123456789abcdef"

  /** Digits of `n`, most significant first. */
  function Digits(n: nat, base: nat): (ds: seq<nat>)
    requires base >= 2
    ensures |ds| >= 1 && forall i | 0 <= i < |ds| :: ds[i] < base
    decreases n
  {
    if n < base then [n] else DivSmaller(n, base); Digits(n / base, base) + [n % base]
  }

  lemma DivSmaller(n: nat, base: nat)
    requires base >= 2 && n >= 1
    ensures 0 <= n / base < n && 0 <= n % base < base && n == n / base * base + n % base
  {
    var q := n / base;
    assert n == q * base + n % base;
    assert q >= 0;
    TwiceAtMost(q, base);
  }

  lemma TwiceAtMost(q: nat, base: nat)
    requires base >= 2
    ensures 2 * q <= q * base
  {
    assert q * base == q * 2 + q * (base - 2);
  }

  function Eval(ds: seq<nat>, base: nat): nat {
    if ds == [] then 0 else Eval(ds[..|ds| - 1], base) * base + ds[|ds| - 1]
  }

  /** No leading zeros, digits in range. */
  ghost predicate Canonical(ds: seq<nat>, base: nat) {
    && |ds| >= 1
    && (forall i | 0 <= i < |ds| :: ds[i] < base)
    && (|ds| > 1 ==> ds[0] != 0)
  }

  lemma {:induction false} DigitsAreCanonical(n: nat, base: nat)
    requires base >= 2
    ensures Canonical(Digits(n, base), base) && Eval(Digits(n, base), base) == n
    ensures n > 0 ==> Digits(n, base)[0] != 0
    decreases n
  {
    if n >= base {
      DivSmaller(n, base);
      DigitsAreCanonical(n / base, base);
      var ds := Digits(n, base);
      assert ds[..|ds| - 1] == Digits(n / base, base);
      QuotientPositive(n, base);
    } else {
      assert [n][..0] == [];
    }
  }

  lemma QuotientPositive(n: nat, base: nat)
    requires 2 <= base <= n
    ensures n / base > 0
  {
    DivSmaller(n, base);
    var q, r := n / base, n % base;
    assert n == q * base + r;
  }

  /** The canonical numeral of a number is unique. */
  lemma {:induction false} CanonicalIsUnique(a: seq<nat>, base: nat)
    requires base >= 2 && Canonical(a, base)
    ensures a == Digits(Eval(a, base), base)
    decreases |a|
  {
    var n := Eval(a, base);
    var last := |a| - 1;
    if last == 0 {
      assert Eval(a[..0], base) == 0;
    } else {
      var front := a[..last];
      assert Canonical(front, base);
      CanonicalIsUnique(front, base);
      var q := Eval(front, base);
      FrontPositive(front, base);
      assert q * base >= base by { MulAtLeast(q, base); }
      QuotientRemainder(n, q, a[last], base);
      assert a == front + [a[last]];
    }
  }

  lemma {:induction false} FrontPositive(a: seq<nat>, base: nat)
    requires base >= 2 && |a| >= 1 && a[0] != 0
    ensures Eval(a, base) > 0
    decreases |a|
  {
    var front := a[..|a| - 1];
    if |a| > 1 {
      FrontPositive(front, base);
      MulAtLeast(Eval(front, base), base);
    } else {
      assert Eval(front, base) == 0;
    }
  }

  lemma MulAtLeast(q: nat, base: nat)
    requires q >= 1
    ensures q * base >= base
  {
  }

  lemma QuotientRemainder(n: nat, q: nat, r: nat, base: nat)
    requires base >= 2 && r < base && n == q * base + r
    ensures n / base == q && n % base == r
  {
    var x := n / base;
    assert n == x * base + n % base;
    if x > q {
      assert x * base == q * base + (x - q) * base;
      MulAtLeast(x - q, base);
    } else if x < q {
      assert q * base == x * base + (q - x) * base;
      MulAtLeast(q - x, base);
    }
  }

  function Pow2(k: nat): nat {
    if k == 0 then 1 else 2 * Pow2(k - 1)
  }

  /** A number below 2^k has at most k digits in any base. */
  lemma {:induction false} DigitsFit(n: nat, base: nat, k: nat)
    requires base >= 2 && k >= 1 && n < Pow2(k)
    ensures |Digits(n, base)| <= k
    decreases k
  {
    if n >= base {
      DivSmaller(n, base);
      QuotientHalves(n, base);
      assert k > 1 by { assert Pow2(0) == 1; }
      DigitsFit(n / base, base, k - 1);
    }
  }

  lemma QuotientHalves(n: nat, base: nat)
    requires base >= 2 && n >= 1
    ensures 2 * (n / base) <= n
  {
    DivSmaller(n, base);
    TwiceAtMost(n / base, base);
  }

  lemma WordDigits(n: u32, base: nat)
    requires base >= 2
    ensures |Digits(n, base)| <= 32
  {
    assert Pow2(8) == 0x100;
    assert Pow2(16) == 0x1_0000;
    assert Pow2(24) == 0x100_0000;
    assert Pow2(32) == WORD;
    DigitsFit(n, base, 32);
  }

  // ----- digits as characters -----

  function Text(ds: seq<nat>, alphabet: string): string
    requires forall i | 0 <= i < |ds| :: ds[i] < |alphabet|
  {
    seq(|ds|, i requires 0 <= i < |ds| => alphabet[ds[i]])
  }

  function Numeral(n: nat, base: nat, alphabet: string): string
    requires 2 <= base <= |alphabet|
  {
    Text(Digits(n, base), alphabet)
  }

  lemma NumeralStep(n: nat, base: nat, alphabet: string)
    requires 2 <= base <= |alphabet|
    ensures 0 <= n % base < base
    ensures Numeral(n, base, alphabet)
            == (if n / base == 0 then "" else Numeral(n / base, base, alphabet)) + [alphabet[n % base]]
  {
    if n >= base {
      QuotientPositive(n, base);
    } else {
      QuotientRemainder(n, 0, n, base);
    }
  }

  /** The digit that a character stands for, in either case. */
  function DigitOf(c: char): nat {
    if '0' <= c <= '9' then c as int - '0' as int
    else if 'A' <= c <= 'F' then c as int - 'A' as int + 10
    else if 'a' <= c <= 'f' then c as int - 'a' as int + 10
    else 16
  }

  function Read(s: string): seq<nat> {
    seq(|s|, i requires 0 <= i < |s| => DigitOf(s[i]))
  }

  lemma AlphabetsRead(d: nat)
    requires d < 16
    ensures DigitOf(UPPER[d]) == d == DigitOf(LOWER[d])
    ensures UPPER[d] == (if d < 10 then '0' as int + d else 'A' as int - 10 + d) as char
    ensures LOWER[d] == (if d < 10 then '0' as int + d else 'a' as int - 10 + d) as char
  {
  }

  /** What is written reads back as the number. */
  lemma NumeralReadsBack(n: nat, base: nat, alphabet: string)
    requires 2 <= base <= 16 && (alphabet == UPPER || alphabet == LOWER)
    ensures Read(Numeral(n, base, alphabet)) == Digits(n, base)
    ensures Eval(Read(Numeral(n, base, alphabet)), base) == n
    ensures Canonical(Read(Numeral(n, base, alphabet)), base)
  {
    DigitsAreCanonical(n, base);
    var ds := Digits(n, base);
    forall i | 0 <= i < |ds| ensures DigitOf(alphabet[ds[i]]) == ds[i] { AlphabetsRead(ds[i]); }
    assert Read(Numeral(n, base, alphabet)) == ds;
  }

  /** In base ten the two alphabets write the same text. */
  lemma DecimalsAgree(n: nat)
    ensures Numeral(n, 10, UPPER) == Numeral(n, 10, LOWER)
  {
    var ds := Digits(n, 10);
    forall i | 0 <= i < |ds| ensures UPPER[ds[i]] == LOWER[ds[i]] { AlphabetsRead(ds[i]); }
  }
}
