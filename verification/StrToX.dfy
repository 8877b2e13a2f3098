/** strtox.c: reading an unsigned number from a C string, with its overflow test. */
module StrToX {
  import opened Bytes

  const OVERFLOW: nat := 0x8000_0000

  /** A C string without its terminating zero. */
  type CString = seq<Byte>

  const ZERO: Byte := 48
  const PLUS: Byte := 43
  const NEWLINE: Byte := 10
  const LOWER_X: Byte := 120

  /** The character at an index; the terminating zero is there to be read. */
  function At(s: CString, i: nat): Byte {
    if i < |s| then s[i] else 0
  }

  /** c | 0x20 */
  function Lower(c: Byte): nat {
    if c / 32 % 2 == 0 then c as int + 32 else c
  }

  /** The value of a digit, decimal or hexadecimal of either case; 16 for any other character. */
  function DigitValue(c: Byte): (v: nat)
    ensures v <= 16
  {
    if 48 <= c <= 57 then c as int - 48
    else if 97 <= c <= 102 then c as int - 87
    else if 65 <= c <= 70 then c as int - 55
    else 16
  }

  predicate IsDigit(c: Byte, base: nat) {
    DigitValue(c) < 16 && DigitValue(c) < base
  }

  /** The length of the longest prefix of digits. */
  function DigitRun(s: CString, base: nat): (n: nat)
    ensures n <= |s| && (forall i | 0 <= i < n :: IsDigit(s[i], base))
    ensures n == |s| || !IsDigit(s[n], base)
  {
    if s == [] || !IsDigit(s[0], base) then 0 else 1 + DigitRun(s[1..], base)
  }

  function Raise(base: nat, e: nat): nat {
    if e == 0 then 1 else base * Raise(base, e - 1)
  }

  /** What a digit string stands for: each digit times the base to the power of its place. */
  function Positional(ds: CString, base: nat): nat {
    if ds == [] then 0 else DigitValue(ds[0]) * Raise(base, |ds| - 1) + Positional(ds[1..], base)
  }

  lemma {:induction false} PositionalAppend(ds: CString, d: Byte, base: nat)
    ensures Positional(ds + [d], base) == Positional(ds, base) * base + DigitValue(d)
  {
    if ds == [] {
      assert ds + [d] == [d] && [d][1..] == [];
      assert Raise(base, 0) == 1;
    } else {
      assert (ds + [d])[1..] == ds[1..] + [d];
      PositionalAppend(ds[1..], d, base);
      Distribute(DigitValue(ds[0]), Raise(base, |ds| - 1), Positional(ds[1..], base), base);
    }
  }

  lemma Distribute(d: nat, p: nat, q: nat, base: nat)
    ensures (d * p + q) * base == d * (base * p) + q * base
  {
    assert (d * p) * base == d * (base * p);
  }

  /** The division test of _parse_integer. */
  lemma DivisionTest(res: nat, base: nat, val: nat)
    requires 1 <= base && val <= 15
    ensures res > (0xFFFF_FFFF_FFFF_FFFF - val) / base <==> res * base + val >= 0x1_0000_0000_0000_0000
  {
    var m := 0xFFFF_FFFF_FFFF_FFFF - val;
    var q := m / base;
    assert m == base * q + m % base;
    if res > q {
      assert res * base >= (q + 1) * base;
    } else {
      assert res * base <= q * base;
    }
  }

  /** Below 2^60 one more digit of a base up to 16 cannot reach 2^64. */
  lemma NoTestNeeded(res: nat, base: nat, val: nat)
    requires res < 0x1000_0000_0000_0000 && base <= 16 && val <= 15
    ensures res * base + val < 0x1_0000_0000_0000_0000
  {
    assert res * base <= res * 16;
  }

  lemma MulMod(v: nat, base: nat, val: nat)
    ensures (v % 0x1_0000_0000_0000_0000 * base + val) % 0x1_0000_0000_0000_0000
         == (v * base + val) % 0x1_0000_0000_0000_0000
  {
    var q := v / 0x1_0000_0000_0000_0000;
    assert v * base == v % 0x1_0000_0000_0000_0000 * base + 0x1_0000_0000_0000_0000 * (q * base);
  }

  /** The value of a digit as _parse_integer finds it, by way of c | 0x20. */
  lemma LowerDigit(c: Byte)
    ensures 48 <= c <= 57 ==> DigitValue(c) == c as int - 48
    ensures !(48 <= c <= 57) && 97 <= Lower(c) <= 102 ==> DigitValue(c) == Lower(c) - 87
    ensures !(48 <= c <= 57) && !(97 <= Lower(c) <= 102) ==> DigitValue(c) == 16
  {
  }

  lemma {:induction false} RunFrom(s: CString, base: nat, i: nat)
    requires i <= |s| && forall j | 0 <= j < i :: IsDigit(s[j], base)
    ensures DigitRun(s, base) >= i
    ensures i == |s| || !IsDigit(s[i], base) ==> DigitRun(s, base) == i
  {
    if i > 0 {
      RunFrom(s[1..], base, i - 1);
    }
  }

  /** The digit at j sets the overflow flag: the test itself, on the 64-bit result so far. */
  predicate Tripped(s: CString, base: nat, j: nat)
    requires j < |s| && IsDigit(s[j], base)
  {
    var res := Positional(s[..j], base) % 0x1_0000_0000_0000_0000;
    res >= 0x1000_0000_0000_0000 && res > (0xFFFF_FFFF_FFFF_FFFF - DigitValue(s[j])) / base
  }

  predicate Digits(s: CString, base: nat, n: nat) {
    n <= |s| && forall j | 0 <= j < n :: IsDigit(s[j], base)
  }

  predicate Flagged(s: CString, base: nat, n: nat)
    requires Digits(s, base, n)
  {
    n > 0 && (Flagged(s, base, n - 1) || Tripped(s, base, n - 1))
  }

  /** The 32-bit word that counts n digits and holds the overflow flag in its top bit. */
  function Word(s: CString, base: nat, n: nat): (w: nat)
    requires Digits(s, base, n)
    ensures w < 0x1_0000_0000
  {
    if n == 0 then 0 else
      var w := Word(s, base, n - 1);
      ((if w < OVERFLOW && Tripped(s, base, n - 1) then w + OVERFLOW else w) + 1) % 0x1_0000_0000
  }

  /** Below 2^31 digits the word is the count, with the flag on top if some digit tripped the test. */
  lemma {:induction false} WordBelow(s: CString, base: nat, n: nat)
    requires Digits(s, base, n) && n < OVERFLOW
    ensures Word(s, base, n) == n + (if Flagged(s, base, n) then OVERFLOW else 0)
  {
    if n > 0 {
      WordBelow(s, base, n - 1);
    }
  }

  /** At 2^31 digits none of which tripped the test, the count alone looks like the flag. */
  lemma WordAtLimit(s: CString, base: nat, n: nat)
    requires Digits(s, base, n) && n == OVERFLOW && !Flagged(s, base, n)
    ensures Word(s, base, n) == OVERFLOW
  {
    WordBelow(s, base, n - 1);
  }

  /** _parse_integer, in any base and on any string: the value modulo 2^64, and the word of count and flag. */
  method ParseInteger(s: CString, base: nat) returns (rv: nat, p: nat)
    requires base < 0x1_0000_0000
    ensures
      var n := DigitRun(s, base);
      && p == Positional(s[..n], base) % 0x1_0000_0000_0000_0000
      && rv == Word(s, base, n)
      && (n < OVERFLOW ==> rv == n + (if Flagged(s, base, n) then OVERFLOW else 0))
  {
    var res, at := 0, 0;
    rv := 0;
    while true
      invariant at <= DigitRun(s, base)
      invariant res == Positional(s[..at], base) % 0x1_0000_0000_0000_0000
      invariant rv == Word(s, base, at)
      decreases |s| - at
    {
      var c := At(s, at);
      var lc := Lower(c);
      var val;
      LowerDigit(c);
      if 48 <= c <= 57 {
        val := c as int - 48;
      } else if 97 <= lc <= 102 {
        val := lc - 97 + 10;
      } else {
        break;
      }
      if val >= base {
        break;
      }
      rv := Check(s, base, at, res, val, rv);
      res := Shifted(s, base, at, res, val);
      at := at + 1;
    }
    p := res;
    if at < OVERFLOW {
      WordBelow(s, base, at);
    }
  }

  /** The overflow test, made only when one of the top four bits is set; then rv counts the digit. */
  method Check(s: CString, base: nat, at: nat, res: nat, val: nat, rv: nat) returns (r: nat)
    requires Digits(s, base, at + 1) && val == DigitValue(s[at])
    requires res == Positional(s[..at], base) % 0x1_0000_0000_0000_0000
    requires rv == Word(s, base, at)
    ensures r == Word(s, base, at + 1)
  {
    r := rv;
    if res >= 0x1000_0000_0000_0000 {
      if res > (0xFFFF_FFFF_FFFF_FFFF - val) / base {
        r := if rv < OVERFLOW then rv + OVERFLOW else rv;
      }
    }
    r := (r + 1) % 0x1_0000_0000;
  }

  /** res = res * base + val, in 64 bits. */
  method Shifted(s: CString, base: nat, at: nat, res: nat, val: nat) returns (r: nat)
    requires at < |s| && IsDigit(s[at], base) && val == DigitValue(s[at])
    requires res == Positional(s[..at], base) % 0x1_0000_0000_0000_0000
    ensures r == Positional(s[..at + 1], base) % 0x1_0000_0000_0000_0000
  {
    OneMore(s, base, at);
    MulMod(Positional(s[..at], base), base, val);
    r := (res * base + val) % 0x1_0000_0000_0000_0000;
  }

  lemma OneMore(s: CString, base: nat, at: nat)
    requires at < |s| && IsDigit(s[at], base)
    ensures Positional(s[..at + 1], base) == Positional(s[..at], base) * base + DigitValue(s[at])
  {
    assert s[..at + 1] == s[..at] + [s[at]];
    PositionalAppend(s[..at], s[at], base);
  }

  /** The guarded division test finds the step past 2^64, if one more digit below 2^60 never makes it. */
  lemma TestIsExact(res: nat, base: nat, val: nat)
    requires res < 0x1_0000_0000_0000_0000 && 1 <= base && val <= 15
    requires res < 0x1000_0000_0000_0000 ==> res * base + 15 < 0x1_0000_0000_0000_0000
    ensures res * base + val >= 0x1_0000_0000_0000_0000 <==>
      res >= 0x1000_0000_0000_0000 && res > (0xFFFF_FFFF_FFFF_FFFF - val) / base
  {
    DivisionTest(res, base, val);
  }

  lemma Grows(v: nat, base: nat)
    requires base >= 1
    ensures v * base >= v
  {
    assert v * base == v + v * (base - 1);
  }

  // ---- bases above 16 ------------------------------------------------------------------

  /** The largest number up to m whose digits in the base are all hexadecimal digits. */
  function Largest(base: nat, m: nat): (v: nat)
    ensures v <= m
  {
    if base <= 16 || m <= 15 then m
    else
      Divided(m, base);
      var q := Largest(base, m / base);
      LeavesRoom(m, base, q);
      q * base + LastDigit(base, m, q)
  }

  /** Its last digit: f, if that does not go beyond m. */
  function LastDigit(base: nat, m: nat, q: nat): (d: nat)
    requires base > 16
    ensures d <= 15
  {
    if q == m / base && m % base < 15 then m % base else 15
  }

  lemma Monotone(a: nat, b: nat, c: nat)
    requires a <= b
    ensures a * c <= b * c
  {
  }

  lemma OneMoreTime(a: nat, c: nat)
    ensures (a + 1) * c == a * c + c
  {
  }

  lemma Divided(m: nat, base: nat)
    requires base > 16
    ensures m == m / base * base + m % base && m % base < base
    ensures m > 15 ==> m / base < m
  {
    var t, r := m / base, m % base;
    assert m == base * t + r;
    Smaller(t, base);
  }

  lemma Smaller(t: nat, base: nat)
    requires base > 16
    ensures t * base >= 17 * t
  {
    Monotone(17, base, t);
  }

  lemma LeavesRoom(m: nat, base: nat, q: nat)
    requires base > 16 && q <= m / base
    ensures m > 15 ==> m / base < m
    ensures q * base + LastDigit(base, m, q) <= m
  {
    Divided(m, base);
    if q < m / base {
      Monotone(q + 1, m / base, base);
      OneMoreTime(q, base);
    }
  }

  lemma BestLast(m: nat, base: nat, q: nat, v: nat, d: nat)
    requires base > 16 && v <= q <= m / base && d <= 15 && v * base + d <= m
    ensures v * base + d <= q * base + LastDigit(base, m, q)
  {
    Divided(m, base);
    if v < q {
      Monotone(v + 1, q, base);
      OneMoreTime(v, base);
    }
  }

  /** A base is blind if one more digit takes the largest number below 2^60, where nothing is tested, past 2^64. */
  predicate Blind(base: nat) { BlindUpTo(base, 0xFFF_FFFF_FFFF_FFFF) }

  predicate BlindUpTo(base: nat, m: nat) { Largest(base, m) * base + 15 >= 0x1_0000_0000_0000_0000 }

  predicate BlindSpot(ds: CString, base: nat) {
    && Digits(ds, base, |ds|)
    && Positional(ds, base) < 0x1000_0000_0000_0000
    && Positional(ds, base) * base + 15 >= 0x1_0000_0000_0000_0000
  }

  /** No digit string up to m stands for more than the largest number. */
  lemma {:induction false} LargestBounds(ds: CString, base: nat, m: nat)
    requires Digits(ds, base, |ds|) && Positional(ds, base) <= m
    ensures Positional(ds, base) <= Largest(base, m)
    decreases |ds|
  {
    if base > 16 && m > 15 && ds != [] {
      var at := |ds| - 1;
      OneMore(ds, base, at);
      assert ds[..at + 1] == ds;
      var v, d := Positional(ds[..at], base), DigitValue(ds[at]);
      FloorOf(v, d, base, m);
      LargestBounds(ds[..at], base, m / base);
      BestLast(m, base, Largest(base, m / base), v, d);
    }
  }

  lemma FloorOf(v: nat, d: nat, base: nat, m: nat)
    requires base > 16 && v * base + d <= m
    ensures v <= m / base
  {
    Divided(m, base);
    OneMoreTime(m / base, base);
    if v > m / base {
      Monotone(m / base + 1, v, base);
    }
  }

  /** It can be written. */
  lemma {:induction false} LargestWritten(base: nat, m: nat) returns (ds: CString)
    requires base > 16
    ensures Digits(ds, base, |ds|) && Positional(ds, base) == Largest(base, m)
    decreases m
  {
    var q, d := 0, m;
    if m <= 15 {
      ds := [];
    } else {
      Divided(m, base);
      q := Largest(base, m / base);
      d := LastDigit(base, m, q);
      ds := LargestWritten(base, m / base);
    }
    var c: Byte := if d < 10 then 48 + d else 87 + d;
    PositionalAppend(ds, c, base);
    ds := ds + [c];
  }

  /** A base is blind exactly when some digit string below 2^60 takes one more digit past 2^64. */
  lemma BlindIsSpot(base: nat)
    ensures Blind(base) <==> exists ds: CString :: BlindSpot(ds, base)
  {
    SpotUpTo(base, 0xFFF_FFFF_FFFF_FFFF);
  }

  lemma SpotUpTo(base: nat, m: nat)
    requires m == 0xFFF_FFFF_FFFF_FFFF
    ensures BlindUpTo(base, m) <==> exists ds: CString :: BlindSpot(ds, base)
  {
    if BlindUpTo(base, m) {
      NotSmall(base, m);
      var ds := LargestWritten(base, m);
      assert BlindSpot(ds, base);
    }
    forall ds: CString | BlindSpot(ds, base) ensures BlindUpTo(base, m) {
      LargestBounds(ds, base, m);
      Monotone(Positional(ds, base), Largest(base, m), base);
    }
  }

  lemma NotSmall(base: nat, m: nat)
    requires m < 0x1000_0000_0000_0000
    ensures base <= 16 ==> !BlindUpTo(base, m)
  {
    if base <= 16 {
      NoTestNeeded(Largest(base, m), base, 15);
    }
  }

  lemma DigitIsExact(s: CString, base: nat, at: nat)
    requires Digits(s, base, at + 1) && !Blind(base)
    ensures Positional(s[..at], base) >= 0x1_0000_0000_0000_0000 ==>
      Positional(s[..at + 1], base) >= 0x1_0000_0000_0000_0000
    ensures Positional(s[..at], base) < 0x1_0000_0000_0000_0000 ==>
      (Positional(s[..at + 1], base) >= 0x1_0000_0000_0000_0000 <==> Tripped(s, base, at))
  {
    OneMore(s, base, at);
    var v, val := Positional(s[..at], base), DigitValue(s[at]);
    Grows(v, base);
    if v < 0x1_0000_0000_0000_0000 {
      BlindIsSpot(base);
      assert !BlindSpot(s[..at], base);
      TestIsExact(v, base, val);
    }
  }

  lemma {:induction false} FlagFollows(s: CString, base: nat, n: nat)
    requires Digits(s, base, n) && !Blind(base)
    ensures Flagged(s, base, n) <==> Positional(s[..n], base) >= 0x1_0000_0000_0000_0000
  {
    if n > 0 {
      FlagFollows(s, base, n - 1);
      DigitIsExact(s, base, n - 1);
    }
  }

  /** The flag is exact for every digit string of a base if and only if the base is not blind. */
  lemma ExactUnlessBlind(base: nat)
    ensures !Blind(base) <==>
      forall s: CString, n: nat | Digits(s, base, n) ::
        Flagged(s, base, n) <==> Positional(s[..n], base) >= 0x1_0000_0000_0000_0000
  {
    if Blind(base) {
      BlindIsSpot(base);
      var ds: CString :| BlindSpot(ds, base);
      var s, n := Overflowing(ds, base);
    } else {
      forall s: CString, n: nat | Digits(s, base, n)
        ensures Flagged(s, base, n) <==> Positional(s[..n], base) >= 0x1_0000_0000_0000_0000
      {
        FlagFollows(s, base, n);
      }
    }
  }

  /** A blind spot and the digit f behind it. */
  lemma Overflowing(ds: CString, base: nat) returns (s: CString, n: nat)
    requires BlindSpot(ds, base)
    ensures Digits(s, base, n) && !Flagged(s, base, n)
    ensures Positional(s[..n], base) >= 0x1_0000_0000_0000_0000
  {
    if base <= 16 {
      NoTestNeeded(Positional(ds, base), base, 15);
    }
    s, n := ds + [102], |ds| + 1;
    assert s[..|ds|] == ds;
    assert Digits(s, base, n);
    OneMore(s, base, |ds|);
    NotFlagged(s, base, n);
  }

  /** No base up to 16 is blind: below 2^60 there is always room for one more digit. */
  lemma SmallBasesSee(base: nat)
    requires base <= 16
    ensures !Blind(base)
  {
    NotSmall(base, 0xFFF_FFFF_FFFF_FFFF);
  }

  /** So in bases up to 16, the largest documented, the flag is set exactly when the value needs more than 64 bits. */
  lemma FlagIsExact(s: CString, base: nat, n: nat)
    requires Digits(s, base, n) && base <= 16
    ensures Flagged(s, base, n) <==> Positional(s[..n], base) >= 0x1_0000_0000_0000_0000
  {
    SmallBasesSee(base);
    FlagFollows(s, base, n);
  }

  /** In any base, nothing is flagged while the value before the last digit is below 2^60. */
  lemma {:induction false} NotFlagged(s: CString, base: nat, n: nat)
    requires Digits(s, base, n) && n > 0 && Positional(s[..n - 1], base) < 0x1000_0000_0000_0000
    ensures !Flagged(s, base, n)
  {
    if n > 1 {
      OneMore(s, base, n - 2);
      Grows(Positional(s[..n - 2], base), base);
      NotFlagged(s, base, n - 1);
    }
  }

  /** Past base 16 the shortcut is wrong: 6, 8 and fourteen zeros in base 17 are more than 2^64. */
  lemma UnflaggedOverflow(s: CString)
    requires |s| == 16 && s[0] == 54 && s[1] == 56 && forall j | 2 <= j < 16 :: s[j] == ZERO
    ensures DigitRun(s, 17) == |s| && !Flagged(s, 17, |s|)
    ensures Positional(s, 17) > 0x1_0000_0000_0000_0000
  {
    RunFrom(s, 17, |s|);
    SixtyEight(s);
    FourZeros(s, 2);
    assert Positional(s[..6], 17) == 9187310;
    FourZeros(s, 6);
    assert Positional(s[..10], 17) == 767333318510;
    FourZeros(s, 10);
    assert Positional(s[..14], 17) == 64088446095273710;
    OneMore(s, 17, 14);
    assert Positional(s[..15], 17) == 1089503583619653070;
    OneMore(s, 17, 15);
    assert s[..16] == s;
    NotFlagged(s, 17, 16);
  }

  /** Not every larger base is blind: in base 2^30 whatever is below 2^60 has two digits, and they leave room. */
  lemma Base30Sees(base: nat)
    requires base == 0x4000_0000
    ensures !Blind(base)
  {
    var m := 0xFFF_FFFF_FFFF_FFFF;
    assert m / base == 0x3FFF_FFFF && m / base / base == 0;
    assert Largest(base, m / base) == 15;
    assert Largest(base, m) == 15 * base + 15;
  }

  lemma SixtyEight(s: CString)
    requires |s| > 2 && s[0] == 54 && s[1] == 56
    ensures Positional(s[..2], 17) == 110
  {
    assert s[..0] == [];
    OneMore(s, 17, 0);
    OneMore(s, 17, 1);
  }

  lemma FourZeros(s: CString, at: nat)
    requires at + 4 <= |s| && forall j | at <= j < at + 4 :: s[j] == ZERO
    ensures Positional(s[..at + 4], 17) == 83521 * Positional(s[..at], 17)
  {
    OneMore(s, 17, at);
    OneMore(s, 17, at + 1);
    OneMore(s, 17, at + 2);
    OneMore(s, 17, at + 3);
  }

  // ---- kstrtoull and kstrtouint --------------------------------------------------------

  datatype Result = Ok(value: nat) | Range | Invalid

  /** 0x or 0X, wherever it leads. */
  predicate StartsHex(s: CString) { At(s, 0) == ZERO && Lower(At(s, 1)) == LOWER_X as int }

  /** The base meant by 0, and how much of the string goes with saying so. */
  function Radix(s: CString, base: nat): (nat, nat) {
    var b :=
      if base != 0 then base
      else if StartsHex(s) && IsDigit(At(s, 2), 16) then 16
      else if At(s, 0) == ZERO then 8 else 10;
    (b, if b == 16 && StartsHex(s) then 2 else 0)
  }

  /** Digits, at least one, then at most one newline; too large a number counts before what follows it. */
  function Number(s: CString, base: nat): Result {
    var n := DigitRun(s, base);
    var v := Positional(s[..n], base);
    if v >= 0x1_0000_0000_0000_0000 then Range
    else if n > 0 && (s[n..] == [] || s[n..] == [NEWLINE]) then Ok(v)
    else Invalid
  }

  /** The digits and what follows them, and their base: without the sign and the prefix. */
  function Stripped(s: CString, base: nat): (CString, nat) {
    var t := if At(s, 0) == PLUS then s[1..] else s;
    var (b, skip) := Radix(t, base);
    (if skip > |t| then [] else t[skip..], b)
  }

  /** What a string is as an unsigned 64-bit number in a base up to 16, 0 standing for "as written". */
  function Meaning(s: CString, base: nat): Result {
    var (t, b) := Stripped(s, base);
    Number(t, b)
  }

  /** Fewer than 2^31 digits, so that the count and the flag do not meet. */
  predicate Countable(s: CString, base: nat) {
    var (t, b) := Stripped(s, base);
    DigitRun(t, b) < OVERFLOW
  }

  /** _parse_integer_fixup_radix */
  method FixupRadix(s: CString, base: nat) returns (b: nat, skip: nat)
    ensures (b, skip) == Radix(s, base) && skip <= |s|
  {
    b := base;
    if base == 0 {
      if At(s, 0) == ZERO {
        if Lower(At(s, 1)) == LOWER_X as int && IsDigit(At(s, 2), 16) {
          b := 16;
        } else {
          b := 8;
        }
      } else {
        b := 10;
      }
    }
    skip := 0;
    if b == 16 && At(s, 0) == ZERO && Lower(At(s, 1)) == LOWER_X as int {
      skip := 2;
    }
  }

  /** The part of _kstrtoull after the radix is known. */
  method ReadNumber(t: CString, b: nat) returns (r: Result)
    requires b <= 16 && forall i | 0 <= i < |t| :: t[i] != 0
    ensures DigitRun(t, b) < OVERFLOW ==> r == Number(t, b)
    ensures DigitRun(t, b) >= OVERFLOW ==> !r.Ok?
  {
    var rv, res := ParseInteger(t, b);
    ghost var n := DigitRun(t, b);
    FlagIsExact(t, b, n);
    if rv >= OVERFLOW {
      return Range;
    }
    if rv == 0 {
      return Invalid;
    }
    var at := rv;
    if At(t, at) == NEWLINE {
      at := at + 1;
    }
    assert t[n..] == [] <==> n == |t|;
    assert t[n..] == [NEWLINE] <==> n + 1 == |t| && t[n] == NEWLINE;
    if At(t, at) != 0 {
      return Invalid;
    }
    return Ok(res);
  }

  /** kstrtoull, with the _kstrtoull it calls. */
  method Kstrtoull(s: CString, base: nat) returns (r: Result)
    requires base <= 16 && forall i | 0 <= i < |s| :: s[i] != 0
    ensures if Countable(s, base) then r == Meaning(s, base) else !r.Ok?
  {
    var t := s;
    if At(t, 0) == PLUS {
      t := t[1..];
    }
    var b, skip := FixupRadix(t, base);
    r := ReadNumber(t[skip..], b);
  }

  method Kstrtouint(s: CString, base: nat) returns (r: Result)
    requires base <= 16 && forall i | 0 <= i < |s| :: s[i] != 0
    ensures
      var m := Meaning(s, base);
      if !Countable(s, base) then !r.Ok?
      else r == if m.Ok? && m.value >= 0x1_0000_0000 then Range else m
  {
    var m := Kstrtoull(s, base);
    if !m.Ok? {
      return m;
    }
    if m.value != m.value % 0x1_0000_0000 {
      return Range;
    }
    return Ok(m.value % 0x1_0000_0000);
  }

  // ---- writing a number and reading it back --------------------------------------------

  function DigitChar(d: nat): (c: Byte)
    requires d < 16
    ensures DigitValue(c) == d && c != 0
  {
    if d < 10 then 48 + d else 87 + d
  }

  function Render(v: nat, base: nat): (r: CString)
    requires 2 <= base <= 16
    ensures r != []
    decreases v
  {
    if v < base then [DigitChar(v)] else Render(v / base, base) + [DigitChar(v % base)]
  }

  lemma DivMod(v: nat, base: nat)
    requires 2 <= base <= v
    ensures v == v / base * base + v % base && 0 < v / base < v
  {
  }

  lemma {:induction false} RenderReads(v: nat, base: nat)
    requires 2 <= base <= 16
    ensures Digits(Render(v, base), base, |Render(v, base)|)
    ensures Positional(Render(v, base), base) == v
    ensures Render(v, base)[0] == ZERO <==> v == 0
    decreases v
  {
    if v < base {
      assert [DigitChar(v)][1..] == [];
      assert Raise(base, 0) == 1;
    } else {
      DivMod(v, base);
      RenderReads(v / base, base);
      PositionalAppend(Render(v / base, base), DigitChar(v % base), base);
    }
  }

  lemma NumberReads(v: nat, base: nat, newline: bool)
    requires 2 <= base <= 16
    ensures Number(Render(v, base) + (if newline then [NEWLINE] else []), base)
         == if v < 0x1_0000_0000_0000_0000 then Ok(v) else Range
  {
    var r := Render(v, base);
    var s := r + (if newline then [NEWLINE] else []);
    RenderReads(v, base);
    RunFrom(s, base, |r|);
    assert s[..|r|] == r;
  }

  /** Written digits do not look like a 0x prefix, nor like a sign. */
  lemma PlainDigits(v: nat, base: nat, tail: CString)
    requires 2 <= base <= 16 && (tail == [] || tail == [NEWLINE])
    ensures !StartsHex(Render(v, base) + tail) && At(Render(v, base) + tail, 0) != PLUS
  {
    RenderReads(v, base);
    var t := Render(v, base) + tail;
    assert IsDigit(t[0], base);
    if |Render(v, base)| > 1 {
      assert IsDigit(t[1], base);
    }
  }

  /** A number written in any base, with or without sign and newline, reads back as itself, or as too large. */
  lemma RoundTrip(v: nat, base: nat, plus: bool, newline: bool)
    requires 2 <= base <= 16
    ensures Meaning((if plus then [PLUS] else []) + (Render(v, base) + (if newline then [NEWLINE] else [])), base)
         == if v < 0x1_0000_0000_0000_0000 then Ok(v) else Range
  {
    var t := Render(v, base) + (if newline then [NEWLINE] else []);
    PlainDigits(v, base, if newline then [NEWLINE] else []);
    NumberReads(v, base, newline);
    assert ([PLUS] + t)[1..] == t && [] + t == t;
    assert t[0..] == t;
  }

  /** With base 0: decimal as it stands, hexadecimal after 0x, octal after 0. */
  lemma DetectedRoundTrip(v: nat)
    ensures
      var r := if v < 0x1_0000_0000_0000_0000 then Ok(v) else Range;
      && Meaning(Render(v, 10), 0) == r
      && Meaning([ZERO, LOWER_X] + Render(v, 16), 0) == r
      && Meaning([ZERO] + Render(v, 8), 0) == r
  {
    DetectDecimal(v);
    DetectHex(v);
    DetectOctal(v);
  }

  lemma DetectDecimal(v: nat)
    ensures Meaning(Render(v, 10), 0) == if v < 0x1_0000_0000_0000_0000 then Ok(v) else Range
  {
    var t := Render(v, 10);
    RenderReads(v, 10);
    NumberReads(v, 10, false);
    assert t + [] == t && t[0..] == t;
    assert IsDigit(t[0], 10);
    if v == 0 {
      NumberReads(0, 8, false);
      assert Render(0, 8) == t;
    }
  }

  lemma DetectHex(v: nat)
    ensures Meaning([ZERO, LOWER_X] + Render(v, 16), 0) == if v < 0x1_0000_0000_0000_0000 then Ok(v) else Range
  {
    var t := [ZERO, LOWER_X] + Render(v, 16);
    RenderReads(v, 16);
    NumberReads(v, 16, false);
    assert Render(v, 16) + [] == Render(v, 16) && t[2..] == Render(v, 16);
    assert t[2] == Render(v, 16)[0] && IsDigit(t[2], 16);
    assert Lower(LOWER_X) == 120;
  }

  lemma DetectOctal(v: nat)
    ensures Meaning([ZERO] + Render(v, 8), 0) == if v < 0x1_0000_0000_0000_0000 then Ok(v) else Range
  {
    var t := [ZERO] + Render(v, 8);
    RenderReads(v, 8);
    assert t[1] == Render(v, 8)[0] && IsDigit(t[1], 8);
    RunFrom(t, 8, |t|);
    LeadingZero(Render(v, 8), 8);
    assert t[..|t|] == t && t[0..] == t && t[|t|..] == [];
    assert Number(t, 8) == if v < 0x1_0000_0000_0000_0000 then Ok(v) else Range;
  }

  lemma LeadingZero(ds: CString, base: nat)
    ensures Positional([ZERO] + ds, base) == Positional(ds, base)
  {
    assert ([ZERO] + ds)[1..] == ds;
  }

  // ---- what any string means ------------------------------------------------------------

  /**
   * Digits and whatever follows them: out of range if they stand for 2^64 or more, whatever it is;
   * otherwise their value if there is at least one and nothing or one newline follows; otherwise no number.
   */
  lemma NumberOutcome(ds: CString, rest: CString, base: nat)
    requires Digits(ds, base, |ds|) && (rest != [] ==> !IsDigit(rest[0], base))
    ensures
      var v := Positional(ds, base);
      Number(ds + rest, base) ==
        if v >= 0x1_0000_0000_0000_0000 then Range
        else if ds != [] && (rest == [] || rest == [NEWLINE]) then Ok(v)
        else Invalid
  {
    var s := ds + rest;
    RunFrom(s, base, |ds|);
    assert s[..|ds|] == ds && s[|ds|..] == rest;
  }

  lemma NumberAccepted(u: CString, b: nat) returns (ds: CString, end: CString)
    requires Number(u, b).Ok?
    ensures u == ds + end && (end == [] || end == [NEWLINE]) && ds != [] && Digits(ds, b, |ds|)
    ensures Positional(ds, b) < 0x1_0000_0000_0000_0000 && Number(u, b) == Ok(Positional(ds, b))
  {
    var n := DigitRun(u, b);
    ds, end := u[..n], u[n..];
  }

  lemma PrefixOf(t: CString, base: nat) returns (prefix: CString, u: CString, b: nat)
    ensures t == prefix + u && (b, |prefix|) == Radix(t, base) && u == t[|prefix|..]
    ensures prefix == [] || (b == 16 && |prefix| == 2 && prefix[0] == ZERO && Lower(prefix[1]) == LOWER_X as int)
    ensures (base != 0 ==> b == base) && (base == 0 ==> b == 8 || b == 10 || b == 16)
  {
    var (c, skip) := Radix(t, base);
    b := c;
    assert skip <= |t|;
    prefix, u := t[..skip], t[skip..];
  }

  /** Which strings are accepted: a sign or none, the prefix of base 16 or none, digits, and a newline or none. */
  lemma Accepted(s: CString, base: nat) returns (sign: CString, prefix: CString, ds: CString, end: CString, b: nat)
    requires Meaning(s, base).Ok?
    ensures s == sign + (prefix + (ds + end))
    ensures (sign == [] || sign == [PLUS]) && (end == [] || end == [NEWLINE])
    ensures prefix == [] || (b == 16 && |prefix| == 2 && prefix[0] == ZERO && Lower(prefix[1]) == LOWER_X as int)
    ensures (base != 0 ==> b == base) && (base == 0 ==> b == 8 || b == 10 || b == 16)
    ensures ds != [] && Digits(ds, b, |ds|)
    ensures Positional(ds, b) < 0x1_0000_0000_0000_0000 && Meaning(s, base) == Ok(Positional(ds, b))
  {
    var t := if At(s, 0) == PLUS then s[1..] else s;
    sign := if At(s, 0) == PLUS then [PLUS] else [];
    assert s == sign + t;
    var u;
    prefix, u, b := PrefixOf(t, base);
    ds, end := NumberAccepted(u, b);
  }

  /** What decides the base and the prefix, x standing for x or X. */
  lemma RadixForms(x: Byte, u: CString, base: nat)
    requires x == 120 || x == 88
    ensures Radix([ZERO, x] + u, 16) == (16, 2)
    ensures Radix([ZERO, x] + u, 0) == if u != [] && IsDigit(u[0], 16) then (16, 2) else (8, 0)
    ensures (u != [] ==> Lower(u[0]) != LOWER_X as int) ==> Radix([ZERO] + u, 0) == (8, 0)
    ensures (u != [] ==> u[0] != ZERO) ==> Radix(u, 0) == (10, 0)
    ensures base != 0 && base != 16 ==> Radix(u, base) == (base, 0)
  {
    var t := [ZERO, x] + u;
    assert At(t, 0) == ZERO && At(t, 1) == x && At(t, 2) == if u == [] then 0 else u[0];
  }
}
