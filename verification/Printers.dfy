/** The three number printers of libraries/libc/src: convert, ultoa and itoa. */
module Printers {
  import opened Machine
  import opened Numerals

  const BUFFER := 50

  /** `convert` fills its 50-byte buffer from the end; the text starts at the position returned. */
  method Convert(num: u32, base: int, buff: array<char>) returns (ptr: nat)
    requires buff.Length == BUFFER && 2 <= base <= 16
    modifies buff
    ensures BUFFER - 1 - 32 <= ptr < BUFFER - 1
    ensures buff[ptr..BUFFER - 1] == Numeral(num, base, UPPER) && buff[BUFFER - 1] == '\0'
    ensures buff[..ptr] == old(buff[..ptr])
  {
    WordDigits(num, base);
    ptr := BUFFER - 1;
    buff[ptr] := '\0';
    var n: nat := num;
    ghost var text := Numeral(num, base, UPPER);
    while true
      invariant 0 <= ptr <= BUFFER - 1 && buff[BUFFER - 1] == '\0'
      invariant text == Numeral(n, base, UPPER) + buff[ptr..BUFFER - 1]
      invariant buff[..ptr] == old(buff[..ptr])
      decreases n, ptr
    {
      NumeralStep(n, base, UPPER);
      ghost var rest := buff[ptr..BUFFER - 1];
      assert |text| == |Numeral(n, base, UPPER)| + BUFFER - 1 - ptr;
      ptr := ptr - 1;
      buff[ptr] := UPPER[n % base];
      assert buff[ptr..BUFFER - 1] == [UPPER[n % base]] + rest;
      if n >= 1 { DivSmaller(n, base); }
      n := n / base;
      if n == 0 { break; }
    }
  }

  // ----- ultoa -----

  /** The character `ultoa` writes for a digit: none for a digit that its two ranges do not cover. */
  function UpperDigit(d: nat): string {
    if d < 16 then [UPPER[d]] else ""
  }

  function Shown(ds: seq<nat>): string {
    if ds == [] then "" else Shown(ds[..|ds| - 1]) + UpperDigit(ds[|ds| - 1])
  }

  lemma {:induction false} ShownSize(ds: seq<nat>)
    ensures |Shown(ds)| <= |ds|
    ensures |Shown(ds)| == |ds| <==> forall i | 0 <= i < |ds| :: ds[i] < 16
  {
    if ds != [] {
      var front := ds[..|ds| - 1];
      ShownSize(front);
      assert (forall i | 0 <= i < |ds| :: ds[i] < 16)
             <==> ds[|ds| - 1] < 16 && forall i | 0 <= i < |front| :: front[i] < 16;
    }
  }

  lemma {:induction false} ShownText(ds: seq<nat>)
    requires forall i | 0 <= i < |ds| :: ds[i] < 16
    ensures Shown(ds) == Text(ds, UPPER)
  {
    if ds != [] {
      var front, last := ds[..|ds| - 1], ds[|ds| - 1];
      ShownText(front);
      assert Text(ds, UPPER) == Text(front, UPPER) + [UPPER[last]];
    }
  }

  /** It drops none exactly when all digits are below 16, and then it writes the numeral. */
  lemma ShownIsTextIff(ds: seq<nat>)
    ensures |Shown(ds)| <= |ds|
    ensures |Shown(ds)| == |ds| <==> forall i | 0 <= i < |ds| :: ds[i] < 16
    ensures (forall i | 0 <= i < |ds| :: ds[i] < 16) ==> Shown(ds) == Text(ds, UPPER)
  {
    ShownSize(ds);
    if forall i | 0 <= i < |ds| :: ds[i] < 16 { ShownText(ds); }
  }

  /** The digits below 16, in order. */
  function Kept(ds: seq<nat>): seq<nat> {
    if ds == [] then [] else KeptDigit(ds[0]) + Kept(ds[1..])
  }

  function KeptDigit(d: nat): seq<nat> {
    if d < 16 then [d] else []
  }

  lemma {:induction false} KeptAppend(ds: seq<nat>, d: nat)
    ensures Kept(ds + [d]) == Kept(ds) + KeptDigit(d)
  {
    if ds == [] {
      assert ds + [d] == [d] && [d][1..] == [];
      assert Kept([d]) == KeptDigit(d) + [];
    } else {
      assert (ds + [d])[1..] == ds[1..] + [d];
      KeptAppend(ds[1..], d);
      assert KeptDigit(ds[0]) + (Kept(ds[1..]) + KeptDigit(d)) == KeptDigit(ds[0]) + Kept(ds[1..]) + KeptDigit(d);
    }
  }

  /** What `ultoa` writes reads as the digits that it keeps. */
  lemma {:induction false} ShownReads(ds: seq<nat>)
    ensures Read(Shown(ds)) == Kept(ds)
  {
    if ds != [] {
      var front, last := ds[..|ds| - 1], ds[|ds| - 1];
      ShownReads(front);
      KeptAppend(front, last);
      assert ds == front + [last];
      ReadAppend(Shown(front), UpperDigit(last));
      UpperDigitReads(last);
    }
  }

  lemma ReadAppend(a: string, b: string)
    ensures Read(a + b) == Read(a) + Read(b)
  {
  }

  lemma UpperDigitReads(d: nat)
    ensures Read(UpperDigit(d)) == KeptDigit(d)
  {
    if d < 16 { AlphabetsRead(d); }
  }

  /** In base 17 the number 16 is one digit, and `ultoa` writes nothing. */
  lemma SixteenVanishes()
    ensures Digits(16, 17) == [16] && Shown(Digits(16, 17)) == ""
  {
    assert [16][..0] == [];
  }

  /** The digits of `text` still to write are those of `n`; the others stand in `done`. */
  ghost predicate ToWrite(text: string, n: nat, base: nat, done: string) {
    base >= 2 && text == Shown(Digits(n, base)) + done
  }

  lemma QuotientAndRest(n: nat, base: nat) returns (t: nat, res: nat)
    requires base >= 2
    ensures t == n / base && res == n % base == n - base * t
    ensures (t == 0 <==> n < base) && (t < n || n == 0)
  {
    if n >= base {
      DivSmaller(n, base);
      QuotientPositive(n, base);
    } else {
      QuotientRemainder(n, 0, n, base);
    }
    t, res := n / base, n % base;
  }

  lemma ShownStep(n: nat, base: nat, t: nat, res: nat)
    requires base >= 2 && t == n / base && res == n % base && (t == 0 <==> n < base)
    ensures Shown(Digits(n, base)) == (if t == 0 then "" else Shown(Digits(t, base))) + UpperDigit(res)
  {
    if n >= base {
      assert Digits(n, base)[..|Digits(n, base)| - 1] == Digits(t, base);
    } else {
      QuotientRemainder(n, 0, n, base);
      assert [n][..0] == [];
    }
  }

  lemma Regroup(text: string, front: string, digit: string, done: string)
    requires text == front + digit + done
    ensures text == front + (digit + done) && |digit| + |done| <= |text|
    ensures front == "" ==> text == digit + done
  {
  }

  /** res = value - base * (t = value / base): the next digit to the left. */
  method NextDigit(n: nat, base: nat, ghost text: string, ghost done: string) returns (t: nat, res: nat)
    requires ToWrite(text, n, base, done)
    ensures |UpperDigit(res)| + |done| <= |text|
    ensures if t == 0 then text == UpperDigit(res) + done
            else t < n && ToWrite(text, t, base, UpperDigit(res) + done)
  {
    ghost var q, r := QuotientAndRest(n, base);
    t := n / base;
    res := n - base * t;
    ShownStep(n, base, q, r);
    Regroup(text, if q == 0 then "" else Shown(Digits(q, base)), UpperDigit(r), done);
  }

  /** The digit of `ultoa`, written just before `p`. */
  method PutUpper(buf: array<char>, p: nat, res: nat, ghost end: nat) returns (q: nat)
    requires |UpperDigit(res)| <= p <= end <= buf.Length
    modifies buf
    ensures q == p - |UpperDigit(res)| && buf[q..end] == UpperDigit(res) + old(buf[p..end])
    ensures forall k | 0 <= k < q || p <= k < buf.Length :: buf[k] == old(buf[k])
  {
    q := p;
    if res < 16 { AlphabetsRead(res); }
    if res < 10 {
      q := q - 1;
      buf[q] := ('0' as int + res) as char;
    } else if 10 <= res < 16 {
      q := q - 1;
      buf[q] := ('A' as int - 10 + res) as char;
    }
  }

  /** The backward pass of `ultoa`, from `end` down. */
  method WriteUpper(buf: array<char>, value: u32, base: nat, end: nat) returns (p: nat)
    requires base >= 2 && |Shown(Digits(value, base))| <= end <= buf.Length
    modifies buf
    ensures p == end - |Shown(Digits(value, base))| && buf[p..end] == Shown(Digits(value, base))
    ensures forall k | 0 <= k < p || end <= k < buf.Length :: buf[k] == old(buf[k])
  {
    p := end;
    var n: nat := value;
    ghost var text, done := Shown(Digits(value, base)), "";
    while true
      invariant p == end - |done| && done == buf[p..end] && ToWrite(text, n, base, done)
      invariant forall k | 0 <= k < p || end <= k < buf.Length :: buf[k] == old(buf[k])
      decreases n
    {
      var t, res := NextDigit(n, base, text, done);
      p := PutUpper(buf, p, res, end);
      done := UpperDigit(res) + done;
      n := t;
      if n == 0 { break; }
    }
  }

  /**
   `ultoa`; NULL stays NULL, otherwise the terminator stands as many places after `at` as
   there are digits, and the text ends before it; with no digit dropped it starts at `at`.
   */
  method Ultoa(value: u32, buf: array?<char>, at: nat, base: int) returns (ptr: Option<int>)
    requires base >= 2
    requires buf != null ==> at + |Digits(value, base)| < buf.Length
    modifies if buf == null then {} else {buf}
    ensures buf == null <==> ptr == None
    ensures buf != null ==>
              var end := at + |Digits(value, base)|;
              var start := end - |Shown(Digits(value, base))|;
              && at <= start && ptr == Some(start)
              && buf[start..end] == Shown(Digits(value, base)) && buf[end] == '\0'
              && forall k | 0 <= k < start || end < k < buf.Length :: buf[k] == old(buf[k])
    ensures buf != null && base <= 16 ==>
              ptr == Some(at) && buf[at..at + |Digits(value, base)|] == Numeral(value, base, UPPER)
  {
    if buf == null { return None; }
    var count := CountDigits(value, base);
    var end := at + count;
    buf[end] := '\0';
    ShownIsTextIff(Digits(value, base));
    var p := WriteUpper(buf, value, base, end);
    return Some(p);
  }

  /** The counting pass of `ultoa`. */
  method CountDigits(value: u32, base: int) returns (count: nat)
    requires base >= 2
    ensures count == |Digits(value, base)|
  {
    var tmp: nat := value;
    count := 0;
    if tmp == 0 { count := count + 1; }
    while tmp > 0
      invariant tmp > 0 ==> |Digits(value, base)| == count + |Digits(tmp, base)|
      invariant tmp == 0 ==> |Digits(value, base)| == count
      decreases tmp
    {
      DivSmaller(tmp, base);
      if tmp >= base {
        QuotientPositive(tmp, base);
      } else {
        QuotientRemainder(tmp, 0, tmp, base);
      }
      tmp := tmp / base;
      count := count + 1;
    }
  }

  // ----- itoa -----

  function Divisor(base: char): nat {
    if base == 'x' then 16 else 10
  }

  /** What `itoa` writes: a sign only for 'd', two's complement for every other negative number. */
  function ItoaText(base: char, d: i32): string {
    if base == 'd' && d < 0 then "-" + Numeral(0 - d, 10, LOWER)
    else Numeral(Wrap(d), Divisor(base), LOWER)
  }

  function Reversed(s: string): string {
    if s == "" then "" else Reversed(s[1..]) + [s[0]]
  }

  lemma {:induction false} ReversedAt(s: string, k: nat)
    requires k < |s|
    ensures |Reversed(s)| == |s| && Reversed(s)[k] == s[|s| - 1 - k]
  {
    if |s| > 1 { ReversedAt(s[1..], if k < |s| - 1 then k else 0); }
  }

  lemma {:induction false} ReversedAppend(s: string, c: char)
    ensures Reversed(s + [c]) == [c] + Reversed(s)
  {
    if s == "" {
      assert "" + [c] == [c] && [c][1..] == "";
    } else {
      ReversedAppend(s[1..], c);
      assert (s + [c])[1..] == s[1..] + [c];
    }
  }

  /** The digits of `text` still to write are those of `n`; those written stand in reverse in `done`. */
  ghost predicate Remaining(text: string, n: nat, divisor: nat, done: string)
    requires divisor == 10 || divisor == 16
  {
    |Reversed(done)| == |done| && text == Numeral(n, divisor, LOWER) + Reversed(done)
  }

  /** One more digit to the right of those written so far. */
  lemma DigitStep(text: string, n: nat, divisor: nat, done: string)
    requires divisor == 10 || divisor == 16
    requires Remaining(text, n, divisor, done)
    ensures 0 <= n % divisor < divisor && n / divisor >= 0 && (n / divisor < n || n == 0)
    ensures |done| < |text|
    ensures var more := done + [LOWER[n % divisor]];
            if n / divisor == 0 then text == Reversed(more) && |text| == |more|
            else Remaining(text, n / divisor, divisor, more)
  {
    NumeralStep(n, divisor, LOWER);
    ReversedAppend(done, LOWER[n % divisor]);
    if n >= 1 { DivSmaller(n, divisor); }
  }

  method PutDigit(buf: array<char>, p: nat, remainder: nat, ghost start: nat)
    requires start <= p < buf.Length && remainder < 16
    modifies buf
    ensures buf[start..p + 1] == old(buf[start..p]) + [LOWER[remainder]]
    ensures forall k | 0 <= k < buf.Length && k != p :: buf[k] == old(buf[k])
  {
    AlphabetsRead(remainder);
    buf[p] := if remainder < 10 then (remainder + '0' as int) as char else (remainder + 'a' as int - 10) as char;
  }

  /** remainder = ud % divisor, and what is left of ud. */
  method TakeDigit(n: nat, divisor: nat, ghost text: string, ghost done: string)
    returns (quotient: nat, remainder: nat)
    requires (divisor == 10 || divisor == 16) && Remaining(text, n, divisor, done)
    ensures remainder < 16 && |done| < |text|
    ensures var more := done + [LOWER[remainder]];
            if quotient == 0 then text == Reversed(more) && |text| == |more|
            else quotient < n && Remaining(text, quotient, divisor, more)
  {
    DigitStep(text, n, divisor, done);
    remainder := n % divisor;
    quotient := n / divisor;
  }

  lemma NothingDone(ud: u32, divisor: nat)
    requires divisor == 10 || divisor == 16
    ensures Remaining(Numeral(ud, divisor, LOWER), ud, divisor, "")
    ensures |Numeral(ud, divisor, LOWER)| == |Digits(ud, divisor)|
  {
  }

  /** The digits, least significant first, from position `start` on. */
  method WriteDigits(buf: array<char>, start: nat, ud: u32, divisor: int) returns (p: nat)
    requires divisor == 10 || divisor == 16
    requires start + |Digits(ud, divisor)| < buf.Length
    modifies buf
    ensures p == start + |Digits(ud, divisor)|
    ensures Reversed(buf[start..p]) == Numeral(ud, divisor, LOWER)
    ensures forall k | 0 <= k < start || p <= k < buf.Length :: buf[k] == old(buf[k])
  {
    p := start;
    var n: nat := ud;
    ghost var text, done := Numeral(ud, divisor, LOWER), "";
    NothingDone(ud, divisor);
    while true
      invariant p == start + |done| && p <= start + |text| && done == buf[start..p]
      invariant Remaining(text, n, divisor, done)
      invariant forall k | 0 <= k < start || p <= k < buf.Length :: buf[k] == old(buf[k])
      decreases n
    {
      var quotient, remainder := TakeDigit(n, divisor, text, done);
      PutDigit(buf, p, remainder, start);
      done := done + [LOWER[remainder]];
      p := p + 1;
      n := quotient;
      if n == 0 { break; }
    }
  }

  /** The in-place reversal, which counts its swaps. */
  method ReverseInPlace(buf: array<char>, start: nat, end: nat) returns (swaps: nat)
    requires start < end <= buf.Length
    modifies buf
    ensures buf[start..end] == Reversed(old(buf[start..end]))
    ensures forall k | 0 <= k < start || end <= k < buf.Length :: buf[k] == old(buf[k])
    ensures swaps == (end - start) / 2
  {
    swaps := SwapEnds(buf, start, end);
    ghost var was, now := old(buf[start..end]), buf[start..end];
    forall k | 0 <= k < |was| ensures now[k] == was[|was| - 1 - k] {
      assert buf[start + k] == old(buf[end - 1 - k]);
    }
    Mirrored(was, now);
  }

  method SwapEnds(buf: array<char>, start: nat, end: nat) returns (swaps: nat)
    requires start < end <= buf.Length
    modifies buf
    ensures forall k | start <= k < end :: buf[k] == old(buf[start + end - 1 - k])
    ensures forall k | 0 <= k < start || end <= k < buf.Length :: buf[k] == old(buf[k])
    ensures swaps == (end - start) / 2
  {
    swaps := 0;
    var p1, p2 := start, end - 1;
    while p1 < p2
      invariant start <= p1 <= p2 + 1 && p1 + p2 == start + end - 1 && swaps == p1 - start
      invariant forall k | start <= k < p1 :: buf[k] == old(buf[start + end - 1 - k])
      invariant forall k | p2 < k < end :: buf[k] == old(buf[start + end - 1 - k])
      invariant forall k | p1 <= k <= p2 :: buf[k] == old(buf[k])
      invariant forall k | 0 <= k < start || end <= k < buf.Length :: buf[k] == old(buf[k])
    {
      buf[p1], buf[p2] := buf[p2], buf[p1];
      p1, p2, swaps := p1 + 1, p2 - 1, swaps + 1;
    }
  }

  /** A text with its characters in mirrored places is the reversed text. */
  lemma Mirrored(was: string, now: string)
    requires |now| == |was| > 0 && forall k | 0 <= k < |was| :: now[k] == was[|was| - 1 - k]
    ensures now == Reversed(was)
  {
    ReversedAt(was, 0);
    forall k | 0 <= k < |was| ensures now[k] == Reversed(was)[k] {
      ReversedAt(was, k);
    }
  }

  /** `itoa` returns the sign and the number of swaps, not the length of the text. */
  method Itoa(buf: array<char>, base: char, d: i32) returns (wrote: nat)
    requires |ItoaText(base, d)| < buf.Length
    modifies buf
    ensures var end := |ItoaText(base, d)|;
            && buf[..end] == ItoaText(base, d) && buf[end] == '\0'
            && (forall k | end < k < buf.Length :: buf[k] == old(buf[k]))
            && wrote == (if base == 'd' && d < 0 then 1 + (end - 1) / 2 else end / 2)
  {
    var start: nat, ud: u32, divisor := 0, Wrap(d), 10;
    wrote := 0;
    if base == 'd' && d < 0 {
      buf[0] := '-';
      start, ud, wrote := 1, 0 - d, 1;
    } else if base == 'x' {
      divisor := 16;
    }
    ItoaTextIs(base, d);
    assert start + |Numeral(ud, divisor, LOWER)| == |ItoaText(base, d)|;
    var p, swaps := WriteNumber(buf, start, ud, divisor);
    assert buf[..p] == buf[..start] + buf[start..p];
    wrote := wrote + swaps;
  }

  /** The text is its sign, if it has one, and the digits of the number that `itoa` divides. */
  lemma ItoaTextIs(base: char, d: i32)
    ensures base == 'd' && d < 0 ==> ItoaText(base, d) == "-" + Numeral(0 - d, 10, LOWER)
    ensures !(base == 'd' && d < 0) ==> ItoaText(base, d) == Numeral(Wrap(d), if base == 'x' then 16 else 10, LOWER)
  {
  }

  /** The digits in reverse, the terminator, and the reversal. */
  method WriteNumber(buf: array<char>, start: nat, ud: u32, divisor: int) returns (p: nat, swaps: nat)
    requires divisor == 10 || divisor == 16
    requires start + |Numeral(ud, divisor, LOWER)| < buf.Length
    modifies buf
    ensures p == start + |Numeral(ud, divisor, LOWER)| && buf[start..p] == Numeral(ud, divisor, LOWER)
    ensures buf[p] == '\0' && swaps == (p - start) / 2
    ensures forall k | 0 <= k < start || p < k < buf.Length :: buf[k] == old(buf[k])
  {
    NothingDone(ud, divisor);
    p := WriteDigits(buf, start, ud, divisor);
    buf[p] := '\0';
    swaps := ReverseInPlace(buf, start, p);
  }

  // ----- one meaning -----

  /** The signed number that a decimal text stands for. */
  function ReadSigned(s: string): int
    requires s != ""
  {
    if s[0] == '-' then 0 - Eval(Read(s[1..]), 10) else Eval(Read(s), 10)
  }

  /** `itoa` with 'd' writes every int so that it reads back; for INT_MIN that rests on a negation that wraps. */
  lemma ItoaRoundTrip(d: i32)
    ensures ReadSigned(ItoaText('d', d)) == d
  {
    if d < 0 {
      NumeralReadsBack(0 - d, 10, LOWER);
      assert ItoaText('d', d)[1..] == Numeral(0 - d, 10, LOWER);
    } else {
      assert Wrap(d) == d;
      NumeralReadsBack(d, 10, LOWER);
      FirstIsDigit(d);
    }
  }

  /** With any other base letter the text has no sign and is the two's complement, in hexadecimal only for 'x'. */
  lemma ItoaUnsigned(base: char, d: i32)
    requires base != 'd'
    ensures Eval(Read(ItoaText(base, d)), if base == 'x' then 16 else 10) == if d < 0 then d + WORD else d
    ensures Canonical(Read(ItoaText(base, d)), if base == 'x' then 16 else 10)
  {
    var n: u32, divisor := Wrap(d), Divisor(base);
    assert ItoaText(base, d) == Numeral(n, divisor, LOWER);
    NumeralReadsBack(n, divisor, LOWER);
    TwosComplement(d);
  }

  lemma TwosComplement(d: i32)
    ensures Wrap(d) == if d < 0 then d + WORD else d
  {
  }

  lemma FirstIsDigit(n: nat)
    ensures Numeral(n, 10, LOWER)[0] != '-'
  {
  }

  /** The texts of the three printers agree on every number that all can print. */
  lemma PrintersAgree(n: i32)
    ensures n >= 0 ==> Numeral(n, 10, UPPER) == ItoaText('d', n)
    ensures Read(Numeral(Wrap(n), 16, UPPER)) == Read(ItoaText('x', n))
  {
    if n >= 0 {
      assert Wrap(n) == n;
      DecimalsAgree(n);
    }
    NumeralReadsBack(Wrap(n), 16, UPPER);
    NumeralReadsBack(Wrap(n), 16, LOWER);
  }
}
