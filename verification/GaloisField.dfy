/**
 The field GF(2^8) in which ISA-L computes: bytes, addition as bitwise exclusive or, and
 multiplication modulo x^8 + x^4 + x^3 + x^2 + 1 (0x11d).

 ISA-L itself is a foreign library; this module writes out the arithmetic the repository relies on
 and proves that it is a field.
 */
module GaloisField {

  type byte = bv8

  /** Addition (and subtraction) in the field. */
  function Add(a: byte, b: byte): byte {
    a ^ b
  }

  /** The part of 0x11d that reduces a product when bit 7 is shifted out. */
  function Carry(a: byte): byte {
    if a & 0x80 == 0 then 0 else 0x1d
  }

  /** Multiplication by x. */
  function Xtime(a: byte): byte {
    Add(a << 1, Carry(a))
  }

  /** The summand that bit 0 of b selects. */
  function Pick(b: byte, a: byte): byte {
    if b & 1 == 0 then 0 else a
  }

  function Half(b: byte): (r: byte)
    ensures b != 0 ==> r < b
  {
    b >> 1
  }

  /** Shift-and-add multiplication (gf_mul). */
  function Mul(a: byte, b: byte): byte
    decreases b
  {
    if b == 0 then 0 else Add(Pick(b, a), Mul(Xtime(a), Half(b)))
  }

  /** The byte whose binary digits are those of i. */
  function ToByte(i: nat): byte {
    if i == 0 then 0 else (ToByte(i / 2) << 1) ^ (if i % 2 == 0 then 0 else 1)
  }

  // ---------- addition ----------

  lemma AddComm(a: byte, b: byte)
    ensures Add(a, b) == Add(b, a)
  {
  }

  lemma AddAssoc(a: byte, b: byte, c: byte)
    ensures Add(Add(a, b), c) == Add(a, Add(b, c))
  {
  }

  lemma AddZero(a: byte)
    ensures Add(a, 0) == a && Add(0, a) == a && Add(a, a) == 0
  {
  }

  /** (a + b) + (c + d) == (a + c) + (b + d). */
  lemma AddSwap(a: byte, b: byte, c: byte, d: byte)
    ensures Add(Add(a, b), Add(c, d)) == Add(Add(a, c), Add(b, d))
  {
    hide Add;
    AddAssoc(a, b, Add(c, d));
    AddAssoc(b, c, d);
    AddComm(b, c);
    AddAssoc(c, b, d);
    AddAssoc(a, c, Add(b, d));
  }

  /** x + y == (x + z) + (y + z). */
  lemma AddThrough(x: byte, y: byte, z: byte)
    ensures Add(x, y) == Add(Add(x, z), Add(y, z))
  {
    hide Add;
    AddSwap(x, z, y, z);
    AddZero(z);
    AddZero(Add(x, y));
  }

  lemma BitOfSum(a: byte, b: byte, m: byte)
    requires m == 1 || m == 0x80
    ensures a & m == 0 || a & m == m
    ensures (a ^ b) & m == (a & m) ^ (b & m)
  {
  }

  lemma ShiftOfSum(a: byte, b: byte)
    ensures (a ^ b) << 1 == (a << 1) ^ (b << 1)
    ensures (a ^ b) >> 1 == (a >> 1) ^ (b >> 1)
  {
  }

  lemma HalfSum(a: byte, b: byte)
    ensures Half(Add(a, b)) == Add(Half(a), Half(b))
  {
    ShiftOfSum(a, b);
  }

  lemma PickSum(b: byte, c: byte, a: byte, a': byte)
    ensures Pick(b, Add(a, a')) == Add(Pick(b, a), Pick(b, a'))
    ensures Pick(Add(b, c), a) == Add(Pick(b, a), Pick(c, a))
  {
    BitOfSum(b, c, 1);
    BitOfSum(c, b, 1);
  }

  lemma CarrySum(a: byte, b: byte)
    ensures Carry(Add(a, b)) == Add(Carry(a), Carry(b))
  {
    BitOfSum(a, b, 0x80);
    BitOfSum(b, a, 0x80);
  }

  lemma XtimeSum(a: byte, b: byte)
    ensures Xtime(Add(a, b)) == Add(Xtime(a), Xtime(b))
  {
    CarrySum(a, b);
    ShiftOfSum(a, b);
    assert Add(a, b) << 1 == Add(a << 1, b << 1);
    hide Add, Carry;
    AddSwap(a << 1, b << 1, Carry(a), Carry(b));
  }

  // ---------- ring laws ----------

  lemma MulStep(a: byte, b: byte)
    ensures Mul(a, b) == Add(Pick(b, a), Mul(Xtime(a), Half(b)))
  {
    if b == 0 {
      assert b >> 1 == 0 && b & 1 == 0;
    }
  }

  lemma {:induction false} MulAddLeft(a: byte, a': byte, b: byte)
    ensures Mul(Add(a, a'), b) == Add(Mul(a, b), Mul(a', b))
    decreases b
  {
    hide Add, Xtime, Pick, Half;
    if b == 0 {
      AddZero(0);
    } else {
      MulAddLeft(Xtime(a), Xtime(a'), Half(b));
      XtimeSum(a, a');
      PickSum(b, b, a, a');
      AddSwap(Pick(b, a), Mul(Xtime(a), Half(b)), Pick(b, a'), Mul(Xtime(a'), Half(b)));
    }
  }

  lemma {:induction false} MulXtime(a: byte, b: byte)
    ensures Mul(Xtime(a), b) == Xtime(Mul(a, b))
    decreases b
  {
    assert Xtime(0) == 0;
    hide Add, Half;
    if b == 0 {
    } else {
      MulXtime(Xtime(a), Half(b));
      XtimeSum(Pick(b, a), Mul(Xtime(a), Half(b)));
    }
  }

  lemma {:induction false} MulAddRight(a: byte, b: byte, c: byte)
    ensures Mul(a, Add(b, c)) == Add(Mul(a, b), Mul(a, c))
    decreases b, c
  {
    hide Add, Xtime, Pick, Half, Mul;
    if b == 0 {
      AddZero(c);
      MulZero(a);
      AddZero(Mul(a, c));
    } else {
      MulAddRight(Xtime(a), Half(b), Half(c));
      MulStep(a, b);
      MulStep(a, c);
      MulStep(a, Add(b, c));
      HalfSum(b, c);
      PickSum(b, c, a, a);
      AddSwap(Pick(b, a), Mul(Xtime(a), Half(b)), Pick(c, a), Mul(Xtime(a), Half(c)));
    }
  }

  lemma MulZero(a: byte)
    ensures Mul(a, 0) == 0 && Mul(0, a) == 0
  {
    MulAddLeft(0, 0, a);
    AddZero(Mul(0, a));
    AddZero(0);
  }
  
  lemma MulOneRight(a: byte)
    ensures Mul(a, 1) == a
  {
  }

  /** A byte is its lowest bit plus x times the rest. */
  lemma Decompose(b: byte)
    ensures b == Add(Pick(b, 1), Xtime(Half(b)))
  {
    assert (b >> 1) & 0x80 == 0;
    assert b & 1 == 0 || b & 1 == 1;
    assert b == (b & 1) ^ ((b >> 1) << 1);
  }

  lemma {:induction false} MulOneLeft(a: byte)
    ensures Mul(1, a) == a
    decreases a
  {
    hide Add, Xtime, Pick, Half;
    if a != 0 {
      MulOneLeft(Half(a));
      MulXtime(1, Half(a));
      Decompose(a);
    }
  }

  /** x^8 is 0x1d. */
  lemma {:induction false} MulReduction(a: byte)
    ensures Mul(a, 0x1d) == Mul(Xtime(a), 0x80)
    decreases a
  {
    if a == 0 {
      MulZero(0x1d);
      MulZero(0x80);
    } else {
      var h := Half(a);
      MulReduction(h);
      Decompose(a);
      ReductionOfOne();
      hide Add, Xtime, Half;
      MulAddLeft(Pick(a, 1), Xtime(h), 0x1d);
      MulXtime(h, 0x1d);
      XtimeSum(Pick(a, 1), Xtime(h));
      MulAddLeft(Xtime(Pick(a, 1)), Xtime(Xtime(h)), 0x80);
      MulXtime(Xtime(h), 0x80);
    }
  }

  lemma ReductionOfOne()
    ensures Mul(1, 0x1d) == Mul(Xtime(1), 0x80)
    ensures Mul(0, 0x1d) == Mul(Xtime(0), 0x80)
  {
    MulOneLeft(0x1d);
    MulZero(0x1d);
    MulZero(0x80);
    MulXtime(1, 0x80);
    MulOneLeft(0x80);
  }

  lemma MulXtimeRightLow(a: byte, c: byte)
    requires c & 0x80 == 0
    ensures Mul(a, Xtime(c)) == Mul(Xtime(a), c)
  {
    assert (c << 1) >> 1 == c && (c << 1) & 1 == 0;
    AddZero(c << 1);
    MulStep(a, c << 1);
    AddZero(Mul(Xtime(a), c));
  }

  lemma MulXtimeRight(a: byte, b: byte)
    ensures Mul(a, Xtime(b)) == Mul(Xtime(a), b)
  {
    var c := b & 0x7f;
    MulXtimeRightLow(a, c);
    if b & 0x80 == 0 {
      assert b == c;
    } else {
      assert b & 0x80 == 0x80;
      assert b == c ^ 0x80;
      assert b == Add(c, 0x80) && Xtime(0x80) == 0x1d;
      MulReduction(a);
      hide Add, Xtime, Pick, Half, Mul;
      XtimeSum(c, 0x80);
      MulAddRight(a, Xtime(c), 0x1d);
      MulAddRight(Xtime(a), c, 0x80);
      AddZero(Mul(Xtime(a), c));
    }
  }

  lemma {:induction false} MulComm(a: byte, b: byte)
    ensures Mul(a, b) == Mul(b, a)
    decreases b
  {
    hide Add, Xtime, Pick, Half;
    if b == 0 {
      MulZero(a);
    } else {
      MulComm(Xtime(a), Half(b));
      MulXtimeRight(Half(b), a);
      Decompose(b);
      MulAddLeft(Pick(b, 1), Xtime(Half(b)), a);
      PickOne(b, a);
    }
  }

  lemma PickOne(b: byte, a: byte)
    ensures Mul(Pick(b, 1), a) == Pick(b, a)
  {
    MulZero(a);
    MulOneLeft(a);
  }

  lemma {:induction false} MulAssoc(a: byte, b: byte, c: byte)
    ensures Mul(Mul(a, b), c) == Mul(a, Mul(b, c))
    decreases c
  {
    hide Add, Xtime, Half;
    if c == 0 {
      MulZero(a);
    } else {
      var h := Half(c);
      MulXtime(a, b);
      MulXtimeRight(a, b);
      MulAssoc(a, Xtime(b), h);
      MulAddRight(a, Pick(c, b), Mul(Xtime(b), h));
      MulZero(a);
      assert Mul(a, Pick(c, b)) == Pick(c, Mul(a, b));
    }
  }

  // ---------- powers of x: x generates every nonzero byte ----------

  /** x^n. */
  function XPower(n: nat): byte {
    if n == 0 then 1 else Xtime(XPower(n - 1))
  }

  lemma {:induction false} XPowerSum(m: nat, n: nat)
    ensures XPower(m + n) == Mul(XPower(m), XPower(n))
  {
    hide Mul, Xtime;
    if m == 0 {
      MulOneLeft(XPower(n));
    } else {
      XPowerSum(m - 1, n);
      MulXtime(XPower(m - 1), XPower(n));
    }
  }

  lemma OddCarry(d: byte)
    ensures (d << 1) ^ 0x1d != 0
  {
  }

  lemma XtimeInjective(a: byte, b: byte)
    requires Xtime(a) == Xtime(b)
    ensures a == b
  {
    var d := a ^ b;
    XtimeSum(a, b);
    assert Xtime(d) == 0;
    OddCarry(d);
    assert d & 0x80 == 0;
    assert d << 1 == 0;
  }

  lemma {:induction false} XPowerNonzero(n: nat)
    ensures XPower(n) != 0
  {
    if n != 0 {
      XPowerNonzero(n - 1);
      assert Xtime(0) == 0;
      if XPower(n) == 0 {
        XtimeInjective(XPower(n - 1), 0);
      }
    }
  }

  /** If x^m == x^(m+d) then d is a period of the powers of x. */
  lemma {:induction false} XPowerPeriod(m: nat, d: nat)
    requires XPower(m) == XPower(m + d)
    ensures XPower(d) == 1
  {
    if m != 0 {
      hide Xtime;
      XtimeInjective(XPower(m - 1), XPower(m + d - 1));
      XPowerPeriod(m - 1, d);
    }
  }

  /** Multiplication by x^4. */
  function Xtime4(a: byte): byte {
    Xtime(Xtime(Xtime(Xtime(a))))
  }

  lemma FourMore(n: nat)
    ensures XPower(n + 4) == Xtime4(XPower(n))
  {
    hide Xtime;
    assert XPower(n + 1) == Xtime(XPower(n));
    assert XPower(n + 2) == Xtime(XPower(n + 1));
    assert XPower(n + 3) == Xtime(XPower(n + 2));
  }

  lemma SixteenMore(n: nat, v: byte, w: byte)
    requires XPower(n) == v && Xtime4(Xtime4(Xtime4(Xtime4(v)))) == w
    ensures XPower(n + 16) == w
  {
    hide Xtime, XPower, Xtime4;
    FourMore(n);
    FourMore(n + 4);
    FourMore(n + 8);
    FourMore(n + 12);
  }

  lemma FewMore(n: nat, v: byte)
    requires XPower(n) == v
    ensures XPower(n + 3) == Xtime(Xtime(Xtime(v))) && XPower(n + 5) == Xtime(Xtime4(v))
  {
    hide Xtime;
    FourMore(n);
    assert XPower(n + 1) == Xtime(XPower(n));
    assert XPower(n + 2) == Xtime(XPower(n + 1));
  }

  lemma ZeroPower()
    ensures XPower(0) == 1 && XPower(1) == 2
  {
  }

  lemma TenPower()
    ensures XPower(10) == 0x74
  {
  }

  lemma PowersTo80()
    ensures XPower(15) == 0x26 && XPower(51) == 0x0a && XPower(80) == 0xfd && XPower(85) == 0xd6
  {
    ZeroPower();
    hide XPower;
    SixteenMore(0, 0x01, 0x4c);
    SixteenMore(16, 0x4c, 0x9d);
    SixteenMore(32, 0x9d, 0x46);
    SixteenMore(48, 0x46, 0x5f);
    SixteenMore(64, 0x5f, 0xfd);
    FewMore(10, XPower(10));
    TenPower();
    FewMore(48, 0x46);
    FewMore(80, 0xfd);
  }

  /** x^256 == x, so x^255 == 1. */
  lemma SpecificPowers()
    ensures XPower(15) == 0x26 && XPower(51) == 0x0a && XPower(85) == 0xd6 && XPower(255) == 1
  {
    ZeroPower();
    PowersTo80();
    hide XPower;
    SixteenMore(80, 0xfd, 0xd9);
    SixteenMore(96, 0xd9, 0x81);
    SixteenMore(112, 0x81, 0x85);
    SixteenMore(128, 0x85, 0xa8);
    SixteenMore(144, 0xa8, 0xe6);
    SixteenMore(160, 0xe6, 0xe3);
    SixteenMore(176, 0xe3, 0x82);
    SixteenMore(192, 0x82, 0x51);
    SixteenMore(208, 0x51, 0x12);
    SixteenMore(224, 0x12, 0x2c);
    SixteenMore(240, 0x2c, 0x02);
    XPowerPeriod(1, 255);
  }

  /** Two periods have a common divisor that is a period. */
  lemma {:induction false} CommonPeriod(a: nat, b: nat) returns (g: nat, k: nat, l: nat)
    requires a > 0 && b > 0 && XPower(a) == 1 && XPower(b) == 1
    ensures 0 < g && XPower(g) == 1 && a == k * g && b == l * g
    decreases a + b
  {
    hide Xtime, Mul;
    if a == b {
      g, k, l := a, 1, 1;
    } else if a > b {
      XPowerSum(a - b, b);
      MulOneRight(XPower(a - b));
      g, k, l := CommonPeriod(a - b, b);
      assert a == (k + l) * g;
      k := k + l;
    } else {
      XPowerSum(b - a, a);
      MulOneRight(XPower(b - a));
      g, k, l := CommonPeriod(a, b - a);
      assert b == (k + l) * g;
      l := k + l;
    }
  }

  lemma {:induction false} MultipleOfPeriod(g: nat, k: nat)
    requires XPower(g) == 1
    ensures XPower(k * g) == 1
  {
    if k != 0 {
      MultipleOfPeriod(g, k - 1);
      assert k * g == g + (k - 1) * g;
      XPowerSum(g, (k - 1) * g);
      MulOneLeft(1);
    }
  }

  lemma DivisorOf255(g: nat, m: nat) returns (t: nat)
    requires g * m == 255 && m > 1
    ensures g * t == 15 || g * t == 51 || g * t == 85
  {
    if g <= 15 {
      assert g == 1 || g == 3 || g == 5 || g == 15;
      t := 15 / g;
    } else {
      assert m <= 15;
      assert m == 3 || m == 5 || m == 15;
      t := if m == 5 then 1 else if m == 3 then 1 else 3;
    }
  }

  lemma AtLeast(g: nat, l: nat, d: nat)
    requires d == l * g && d > 0
    ensures d >= g
  {
    assert l > 0;
  }

  /** The multiplicative order of x is 255. */
  lemma OrderOfX(d: nat)
    requires 0 < d < 255
    ensures XPower(d) != 1
  {
    hide Xtime, Mul;
    SpecificPowers();
    if XPower(d) == 1 {
      var g, k, l := CommonPeriod(255, d);
      AtLeast(g, l, d);
      var t := DivisorOf255(g, k);
      MultipleOfPeriod(g, t);
    }
  }

  lemma XPowersDistinct(m: nat, n: nat)
    requires m < n < 255
    ensures XPower(m) != XPower(n)
  {
    if XPower(m) == XPower(n) {
      XPowerPeriod(m, n - m);
      OrderOfX(n - m);
    }
  }

  // ---------- every nonzero byte is a power of x (pigeonhole) ----------

  ghost function Powers(n: nat): set<byte> {
    if n == 0 then {} else Powers(n - 1) + {XPower(n - 1)}
  }

  lemma {:induction false} PowersMember(n: nat, b: byte) returns (k: nat)
    requires b in Powers(n)
    ensures k < n && XPower(k) == b
  {
    hide XPower;
    if b in Powers(n - 1) {
      k := PowersMember(n - 1, b);
    } else {
      k := n - 1;
    }
  }

  lemma {:induction false} PowersInclude(n: nat, k: nat)
    requires k < n
    ensures XPower(k) in Powers(n)
  {
    hide XPower;
    if k < n - 1 { PowersInclude(n - 1, k); }
  }

  lemma {:induction false} PowersCount(n: nat)
    requires n <= 255
    ensures |Powers(n)| == n
  {
    hide XPower;
    if n != 0 {
      PowersCount(n - 1);
      if XPower(n - 1) in Powers(n - 1) {
        var k := PowersMember(n - 1, XPower(n - 1));
        XPowersDistinct(k, n - 1);
      }
    }
  }

  ghost function NonzeroBelow(n: nat): set<byte>
    requires n <= 256
  {
    if n <= 1 then {} else NonzeroBelow(n - 1) + {(n - 1) as byte}
  }

  lemma ByteOfNat(b: byte)
    ensures (b as nat) as byte == b
    ensures b != 0 ==> b as nat > 0
  {
  }

  lemma NonzeroBelowStep(n: nat, b: byte)
    requires 1 < n <= 256
    ensures NonzeroBelow(n - 1) <= NonzeroBelow(n)
    ensures b as nat == n - 1 ==> b in NonzeroBelow(n)
  {
    ByteOfNat(b);
  }

  lemma {:induction false} NonzeroBelowContains(n: nat, b: byte)
    requires n <= 256
    requires b != 0 && b as nat < n
    ensures b in NonzeroBelow(n)
  {
    hide NonzeroBelow;
    NonzeroBelowStep(n, b);
    if b as nat < n - 1 {
      NonzeroBelowContains(n - 1, b);
    }
  }

  lemma {:induction false} NonzeroBelowCount(n: nat)
    requires 1 <= n <= 256
    ensures |NonzeroBelow(n)| <= n - 1
  {
    if n > 1 { NonzeroBelowCount(n - 1); }
  }

  /** x generates the multiplicative group. */
  lemma EveryByteIsAPower(a: byte) returns (n: nat)
    requires a != 0
    ensures n < 255 && XPower(n) == a
  {
    hide XPower, Powers, NonzeroBelow;
    if a !in Powers(255) {
      var rest := NonzeroBelow(256) - {a};
      forall b | b in Powers(255) ensures b in rest {
        var k := PowersMember(255, b);
        XPowerNonzero(k);
        NonzeroBelowContains(256, b);
      }
      NonzeroBelowContains(256, a);
      NonzeroBelowCount(256);
      PowersCount(255);
      SubsetSize(Powers(255), rest);
      assert false;
    }
    n := PowersMember(255, a);
  }

  lemma {:induction false} SubsetSize<T>(s: set<T>, t: set<T>)
    requires s <= t
    ensures |s| <= |t|
  {
    if s != {} {
      var x :| x in s;
      SubsetSize(s - {x}, t - {x});
    }
  }

  // ---------- inverses ----------

  /** The discrete logarithm of a, found by search from n on. */
  function LogFrom(a: byte, n: nat): nat
    decreases 255 - n
  {
    if n >= 255 || XPower(n) == a then n else LogFrom(a, n + 1)
  }

  lemma {:induction false} LogFromFinds(a: byte, n: nat, k: nat)
    requires n <= k < 255 && XPower(k) == a
    ensures LogFrom(a, n) < 255 && XPower(LogFrom(a, n)) == a
    decreases 255 - n
  {
    hide XPower;
    if XPower(n) != a { LogFromFinds(a, n + 1, k); }
  }

  /** Multiplicative inverse (gf_inv), through the logarithm; the inverse of 0 is 0. */
  function Inverse(a: byte): byte {
    if a == 0 || LogFrom(a, 0) > 255 then 0 else XPower(255 - LogFrom(a, 0))
  }

  lemma InvCorrect(a: byte)
    requires a != 0
    ensures Mul(a, Inverse(a)) == 1 && Mul(Inverse(a), a) == 1 && Inverse(a) != 0
  {
    hide XPower, LogFrom, Mul;
    var n := EveryByteIsAPower(a);
    LogFromFinds(a, 0, n);
    var k := LogFrom(a, 0);
    XPowerSum(k, 255 - k);
    SpecificPowers();
    MulComm(a, Inverse(a));
    MulZero(a);
  }

  /** The field has no zero divisors. */
  lemma NoZeroDivisors(a: byte, b: byte)
    requires Mul(a, b) == 0
    ensures a == 0 || b == 0
  {
    hide Mul, Inverse;
    if a != 0 {
      InvCorrect(a);
      MulAssoc(Inverse(a), a, b);
      MulOneLeft(b);
      MulZero(Inverse(a));
    }
  }

  lemma AddCancel(a: byte, b: byte, c: byte)
    requires Add(a, c) == Add(b, c)
    ensures a == b
  {
    hide Add;
    AddAssoc(a, c, c);
    AddAssoc(b, c, c);
    AddZero(c);
    AddZero(a);
    AddZero(b);
  }

  lemma MulCancel(c: byte, a: byte, b: byte)
    requires c != 0 && Mul(c, a) == Mul(c, b)
    ensures a == b
  {
    hide Mul, Inverse;
    InvCorrect(c);
    MulAssoc(Inverse(c), c, a);
    MulAssoc(Inverse(c), c, b);
    MulOneLeft(a);
    MulOneLeft(b);
  }

  // ---------- indices as field elements ----------

  lemma LowBits(x: byte, y: byte, p: byte, q: byte)
    requires x & 0x80 == 0 && y & 0x80 == 0 && p <= 1 && q <= 1
    requires (x << 1) ^ p == (y << 1) ^ q
    ensures x == y && p == q
  {
  }

  lemma HighBit(x: byte, p: byte, m: byte)
    requires x < m && p <= 1
    requires m == 0x40 || m == 0x20 || m == 0x10 || m == 8 || m == 4 || m == 2 || m == 1
    ensures (x << 1) ^ p < m << 1
  {
  }

  predicate SamePower(n: nat, m: byte) {
    || (n == 128 && m == 0x80) || (n == 64 && m == 0x40) || (n == 32 && m == 0x20) || (n == 16 && m == 0x10)
    || (n == 8 && m == 8) || (n == 4 && m == 4) || (n == 2 && m == 2) || (n == 1 && m == 1)
  }

  lemma {:induction false} ToByteBound(i: nat, n: nat, m: byte)
    requires SamePower(n, m)
    requires i < n
    ensures ToByte(i) < m
  {
    if i != 0 {
      ToByteBound(i / 2, n / 2, m >> 1);
      HighBit(ToByte(i / 2), if i % 2 == 0 then 0 else 1, m >> 1);
    }
  }

  lemma {:induction false} ToByteInjective(i: nat, j: nat)
    requires i < 256 && j < 256 && ToByte(i) == ToByte(j)
    ensures i == j
  {
    if i == 0 && j == 0 {
    } else {
      ToByteBound(i / 2, 128, 0x80);
      ToByteBound(j / 2, 128, 0x80);
      ToByteDigits(i);
      ToByteDigits(j);
      LowBits(ToByte(i / 2), ToByte(j / 2), if i % 2 == 0 then 0 else 1, if j % 2 == 0 then 0 else 1);
      ToByteInjective(i / 2, j / 2);
    }
  }

  lemma ToByteDigits(i: nat)
    ensures ToByte(i) == (ToByte(i / 2) << 1) ^ (if i % 2 == 0 then 0 else 1)
  {
  }
}
