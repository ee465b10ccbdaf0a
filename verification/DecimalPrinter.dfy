/** Printing 128-bit integers in decimal with 64-bit arithmetic (gtest-printers.cc). */
module DecimalPrinter {
  const TWO_64: int := 0x1_0000_0000_0000_0000
  const TWO_127: int := 0x8000_0000_0000_0000_0000_0000_0000_0000
  const TWO_128: int := 0x1_0000_0000_0000_0000_0000_0000_0000_0000

  /** Every operation on these is proved not to leave 64 bits. */
  newtype uint64 = x: int | 0 <= x < 0x1_0000_0000_0000_0000

  const BUFFER_SIZE: nat := 40

  // ----- numerals

  function Digit(d: nat): char
    requires d < 10
  {
    '0' + d as char
  }

  ghost predicate IsDigit(c: char) { '0' <= c <= '9' }

  ghost function DigitValue(c: char): nat
    requires IsDigit(c)
  {
    c as int - '0' as int
  }

  /** Reading a numeral. */
  ghost function Value(s: string): nat
    requires forall k :: 0 <= k < |s| ==> IsDigit(s[k])
  {
    if s == [] then 0 else 10 * Value(s[..|s| - 1]) + DigitValue(s[|s| - 1])
  }

  /** Digits without a leading zero, except for zero itself. */
  ghost predicate IsNumeral(s: string) {
    s != [] && (forall k :: 0 <= k < |s| ==> IsDigit(s[k])) && (s[0] == '0' ==> |s| == 1)
  }

  ghost function Pow10(n: nat): nat {
    if n == 0 then 1 else 10 * Pow10(n - 1)
  }

  lemma {:induction false} ValuePrepends(c: char, s: string)
    requires forall k :: 0 <= k < |s| ==> IsDigit(s[k])
    requires IsDigit(c)
    ensures Value([c] + s) == DigitValue(c) * Pow10(|s|) + Value(s)
  {
    if s == [] {
      assert ([c] + s)[..0] == [];
    } else {
      ValuePrepends(c, s[..|s| - 1]);
      assert ([c] + s)[..|s|] == [c] + s[..|s| - 1];
      assert DigitValue(c) * (10 * Pow10(|s| - 1)) == 10 * (DigitValue(c) * Pow10(|s| - 1));
    }
  }

  lemma {:induction false} PositiveNumeral(s: string)
    requires IsNumeral(s) && s[0] != '0'
    ensures Value(s) > 0
  {
    if |s| > 1 {
      PositiveNumeral(s[..|s| - 1]);
    }
  }

  lemma SplitNumeral(s: string) returns (init: string, last: char)
    requires IsNumeral(s)
    ensures s == init + [last] && |init| < |s| && IsDigit(last) && (forall k :: 0 <= k < |init| ==> IsDigit(init[k]))
    ensures Value(s) == 10 * Value(init) + DigitValue(last)
    ensures init != [] ==> IsNumeral(init) && init[0] != '0'
  {
    init, last := s[..|s| - 1], s[|s| - 1];
  }

  lemma SameDivision(a: nat, c: nat, b: nat, d: nat)
    requires c < 10 && d < 10 && 10 * a + c == 10 * b + d
    ensures a == b && c == d
  {
  }

  /** A number has only one numeral, so reading back loses nothing. */
  lemma {:induction false} NumeralsAreUnique(s: string, t: string)
    requires IsNumeral(s) && IsNumeral(t) && Value(s) == Value(t)
    ensures s == t
  {
    var a, c := SplitNumeral(s);
    var b, d := SplitNumeral(t);
    hide IsNumeral, Value;
    SameDivision(Value(a), DigitValue(c), Value(b), DigitValue(d));
    if a != [] && b != [] {
      NumeralsAreUnique(a, b);
    } else if a != [] {
      PositiveNumeral(a);
    } else if b != [] {
      PositiveNumeral(b);
    }
  }

  /** The value split over two words. */
  ghost function Joined(high: uint64, low: uint64): nat {
    high as nat * TWO_64 + low as nat
  }

  /** 128 bits never need more than 39 digits. */
  lemma FitsThirtyNine()
    ensures TWO_128 <= Pow10(39)
  {
    assert Pow10(13) == 10000000000000;
    PowersMultiply(13, 13);
    PowersMultiply(26, 13);
  }

  lemma {:induction false} PowersMultiply(m: nat, n: nat)
    ensures Pow10(m + n) == Pow10(m) * Pow10(n)
  {
    if n > 0 {
      PowersMultiply(m, n - 1);
      assert Pow10(m + n) == 10 * Pow10(m + (n - 1));
      assert 10 * (Pow10(m) * Pow10(n - 1)) == Pow10(m) * (10 * Pow10(n - 1));
    }
  }

  // ----- the printer

  /** One step of the long division: the two words are divided by ten exactly, and no
      sum on the way wraps. The bound is tight: the new low word can be 2^64 - 1. */
  method DivideByTen(high: uint64, low: uint64) returns (newHigh: uint64, newLow: uint64, digit: uint64)
    ensures Joined(newHigh, newLow) == Joined(high, low) / 10
    ensures digit as nat == Joined(high, low) % 10
    ensures high % 10 == 9 && low == 0xFFFF_FFFF_FFFF_FFFF ==> newLow == 0xFFFF_FFFF_FFFF_FFFF
  {
    var highMod := high % 10;
    newHigh := high / 10;
    var carry := 6 * highMod + low % 10;
    newLow := low / 10 + highMod * 1844674407370955161 + carry / 10;
    digit := carry % 10;
    assert Joined(high, low) == 10 * Joined(newHigh, newLow) + digit as nat;
  }

  /** PrintTo for unsigned values: the numeral of v, in at most 39 digits. */
  method PrintUnsigned(v: nat) returns (os: string)
    requires v < TWO_128
    ensures IsNumeral(os) && Value(os) == v && |os| <= 39
  {
    if v == 0 {
      return "0";
    }
    var buf := new char[BUFFER_SIZE];
    var p := buf.Length;
    var high, low := (v / TWO_64) as uint64, (v % TWO_64) as uint64;
    p := p - 1;
    buf[p] := '\0';
    FitsThirtyNine();
    assert Joined(high, low) == v && Pow10(0) == 1;
    hide Joined, Pow10, Value;
    while high != 0 || low != 0
      invariant 0 <= p <= 39
      invariant Partly(v, Joined(high, low), p, buf[p..39])
      decreases Joined(high, low)
    {
      ghost var rest, digits := Joined(high, low), buf[p..39];
      JoinedIsZero(high, low);
      PartlyLeavesRoom(v, rest, p, digits);
      var digit;
      high, low, digit := DivideByTen(high, low);
      p := p - 1;
      buf[p] := Digit(digit as nat);
      assert buf[p..39] == [Digit(digit as nat)] + digits;
      PartlyStep(v, rest, p + 1, digits);
    }
    JoinedIsZero(high, low);
    os := buf[p..39];
    PartlyDone(v, p, os);
  }

  lemma JoinedIsZero(high: uint64, low: uint64)
    ensures Joined(high, low) == 0 <==> high == 0 && low == 0
  {
  }

  /** Printing from the right: rest is not printed yet, digits are, and there is room
      for p more. */
  ghost predicate Partly(v: nat, rest: nat, p: nat, digits: string) {
    && |digits| + p == 39
    && rest < Pow10(p)
    && (forall k :: 0 <= k < |digits| ==> IsDigit(digits[k]))
    && rest * Pow10(|digits|) + Value(digits) == v
    && (rest == 0 ==> digits != [] && digits[0] != '0')
  }

  lemma PartlyLeavesRoom(v: nat, rest: nat, p: nat, digits: string)
    requires Partly(v, rest, p, digits) && rest > 0
    ensures p > 0
  {
  }

  lemma PartlyStep(v: nat, rest: nat, p: nat, digits: string)
    requires Partly(v, rest, p, digits) && rest > 0
    ensures p > 0 && Partly(v, rest / 10, p - 1, [Digit(rest % 10)] + digits)
  {
    var c, m := Digit(rest % 10), Pow10(|digits|);
    ValuePrepends(c, digits);
    ShiftedDigit(rest, m);
    assert Pow10(p) == 10 * Pow10(p - 1) && Pow10(|digits| + 1) == 10 * m;
    assert DigitValue(c) == rest % 10;
  }

  lemma PartlyDone(v: nat, p: nat, digits: string)
    requires Partly(v, 0, p, digits)
    ensures IsNumeral(digits) && Value(digits) == v && |digits| <= 39
  {
  }

  lemma ShiftedDigit(n: nat, m: nat)
    ensures (n / 10) * (10 * m) + (n % 10) * m == n * m
  {
    var q, r := n / 10, n % 10;
    assert n == 10 * q + r;
    assert (10 * q + r) * m == 10 * q * m + r * m;
    assert q * (10 * m) == 10 * q * m;
  }

  /** Some numerals, read. */
  lemma NumeralsRead()
    ensures IsNumeral("0") && Value("0") == 0 && IsNumeral("1907") && Value("1907") == 1907 && !IsNumeral("07")
    ensures Denotes("-20", -20) && Denotes("35", 35) && !Denotes("+35", 35)
  {
    assert "1907"[..3] == "190" && "190"[..2] == "19" && "19"[..1] == "1" && "1"[..0] == "" && "0"[..0] == "";
    assert "-20"[1..] == "20" && "20"[..1] == "2" && "2"[..0] == "" && "35"[..1] == "3" && "3"[..0] == "";
    assert Value("19") == 19 && Value("190") == 190;
    assert "07"[0] == '0' && "+35"[0] == '+';
  }

  /** What a printed signed value stands for. */
  ghost predicate Denotes(s: string, v: int) {
    if v < 0 then s != [] && s[0] == '-' && IsNumeral(s[1..]) && Value(s[1..]) == -v
    else IsNumeral(s) && Value(s) == v
  }

  /** PrintTo for signed values, which goes through the two's complement; the smallest
      value, whose negation is not a signed value, included. */
  method PrintSigned(v: int) returns (os: string)
    requires -TWO_127 <= v < TWO_127
    ensures Denotes(os, v) && |os| <= 40
  {
    var uv := v % TWO_128;
    os := "";
    if v < 0 {
      os := "-";
      assert uv == v + TWO_128;
      uv := -uv % TWO_128;
      assert uv == -v;
    }
    hide IsNumeral, Value;
    var digits := PrintUnsigned(uv);
    assert v >= 0 ==> uv == v && os + digits == digits;
    os := os + digits;
    assert v < 0 ==> os[1..] == digits;
  }

  /** Printing is faithful: two texts are the same exactly if their values are. */
  lemma DenotesFaithfully(s: string, v: int, t: string, w: int)
    requires Denotes(s, v) && Denotes(t, w)
    ensures s == t <==> v == w
  {
    if v == w < 0 {
      NumeralsAreUnique(s[1..], t[1..]);
      assert s == [s[0]] + s[1..] && t == [t[0]] + t[1..];
    } else if v == w {
      NumeralsAreUnique(s, t);
    }
  }
}
