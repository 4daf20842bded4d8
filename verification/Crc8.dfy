/**
 * CRC-8/SMBUS (Packet Error Checking, section 5.4 of the SMBus 2.0 specification): polynomial x^8 + x^2 + x + 1,
 * initial value 0, most significant bit first, as a shift register of eight bits.
 */
module Crc8 {
  import opened Bytes

  datatype Register = Register(b7: bool, b6: bool, b5: bool, b4: bool, b3: bool, b2: bool, b1: bool, b0: bool)

  const CLEAR := Register(false, false, false, false, false, false, false, false)

  /** Shifts one message bit in. */
  function Feed(r: Register, bit: bool): (r': Register) {
    var out := r.b7 != bit;
    Register(r.b6, r.b5, r.b4, r.b3, r.b2, r.b1 != out, r.b0 != out, out)
  }

  function Run(r: Register, bits: seq<bool>): (r': Register)
    decreases |bits|
  {
    if bits == [] then r else Run(Feed(r, bits[0]), bits[1..])
  }

  /** The number a bit string stands for, most significant bit first. */
  function Value(x: seq<bool>): (r: nat) {
    if x == [] then 0 else 2 * Value(x[..|x| - 1]) + if x[|x| - 1] then 1 else 0
  }

  /** The `n` low bits of `v`. */
  function LowBits(v: nat, n: nat): (r: seq<bool>)
    ensures |r| == n
  {
    if n == 0 then [] else LowBits(v / 2, n - 1) + [v % 2 == 1]
  }

  /** A byte's bits, most significant first. */
  function BitsOf(b: byte): (r: seq<bool>)
    ensures |r| == 8
  {
    LowBits(b as nat, 8)
  }

  function Bits(s: seq<byte>): (r: seq<bool>)
    ensures |r| == 8 * |s|
  {
    if s == [] then [] else BitsOf(s[0]) + Bits(s[1..])
  }

  function BitsIn(r: Register): (x: seq<bool>)
    ensures |x| == 8
  {
    [r.b7, r.b6, r.b5, r.b4, r.b3, r.b2, r.b1, r.b0]
  }

  function Loaded(x: seq<bool>): (r: Register)
    requires |x| == 8
  {
    Register(x[0], x[1], x[2], x[3], x[4], x[5], x[6], x[7])
  }

  function ToByte(r: Register): (b: byte) {
    ValueBound(BitsIn(r));
    Value(BitsIn(r)) as byte
  }

  function Pow2(n: nat): (r: nat) {
    if n == 0 then 1 else 2 * Pow2(n - 1)
  }

  lemma {:induction false} ValueBound(x: seq<bool>)
    ensures Value(x) < Pow2(|x|) && Pow2(8) == 256
  {
    if x != [] {
      ValueBound(x[..|x| - 1]);
    }
    assert Pow2(3) == 8 && Pow2(6) == 64;
  }

  /** The checksum of a byte string. */
  function Checksum(s: seq<byte>): (r: byte) {
    ToByte(Run(CLEAR, Bits(s)))
  }

  // Bytes and bits

  lemma {:induction false} LowBitsOfValue(x: seq<bool>)
    ensures LowBits(Value(x), |x|) == x
  {
    if x != [] {
      var y := x[..|x| - 1];
      LowBitsOfValue(y);
      assert Value(x) / 2 == Value(y);
      assert x == y + [x[|x| - 1]];
    }
  }

  lemma {:induction false} ValueOfLowBits(v: nat, n: nat)
    requires v < Pow2(n)
    ensures Value(LowBits(v, n)) == v
  {
    if n > 0 {
      ValueOfLowBits(v / 2, n - 1);
      var x := LowBits(v, n);
      assert x[..n - 1] == LowBits(v / 2, n - 1);
    }
  }

  lemma ByteRoundTrip(b: byte)
    ensures Value(BitsOf(b)) == b as nat
  {
    ValueBound([]);
    ValueOfLowBits(b as nat, 8);
  }

  lemma RegisterRoundTrip(r: Register, b: byte)
    ensures r == Loaded(BitsOf(b)) <==> b == ToByte(r)
  {
    hide LowBits, Value;
    LowBitsOfValue(BitsIn(r));
    ByteRoundTrip(b);
    if r == Loaded(BitsOf(b)) {
      assert BitsIn(r) == BitsOf(b);
    }
  }

  lemma {:induction false} RunAppend(r: Register, x: seq<bool>, y: seq<bool>)
    ensures Run(r, x + y) == Run(Run(r, x), y)
    decreases |x|
  {
    if x == [] {
      assert x + y == y;
    } else {
      assert (x + y)[1..] == x[1..] + y;
      RunAppend(Feed(r, x[0]), x[1..], y);
    }
  }

  lemma {:induction false} BitsAppend(s: seq<byte>, t: seq<byte>)
    ensures Bits(s + t) == Bits(s) + Bits(t)
  {
    if s == [] {
      assert s + t == t;
    } else {
      assert (s + t)[1..] == s[1..] + t;
      BitsAppend(s[1..], t);
    }
  }

  lemma {:induction false} BitsInjective(s: seq<byte>, t: seq<byte>)
    requires |s| == |t| && Bits(s) == Bits(t)
    ensures s == t
  {
    if s != [] {
      assert BitsOf(s[0]) == Bits(s)[..8] == Bits(t)[..8] == BitsOf(t[0]);
      ByteRoundTrip(s[0]);
      ByteRoundTrip(t[0]);
      assert Bits(s)[8..] == Bits(s[1..]) && Bits(t)[8..] == Bits(t[1..]);
      BitsInjective(s[1..], t[1..]);
    }
  }

  function Feed8(r: Register, a: bool, b: bool, c: bool, d: bool, e: bool, f: bool, g: bool, h: bool): (r': Register) {
    Feed(Feed(Feed(Feed(Feed(Feed(Feed(Feed(r, a), b), c), d), e), f), g), h)
  }

  lemma RunEight(r: Register, x: seq<bool>)
    requires |x| == 8
    ensures Run(r, x) == Feed8(r, x[0], x[1], x[2], x[3], x[4], x[5], x[6], x[7])
  {
    RunTwo(r, x[..2]);
    RunTwo(Feed(Feed(r, x[0]), x[1]), x[2..4]);
    var r4 := Feed(Feed(Feed(Feed(r, x[0]), x[1]), x[2]), x[3]);
    RunTwo(r4, x[4..6]);
    RunTwo(Feed(Feed(r4, x[4]), x[5]), x[6..]);
    RunAppend(r, x[..2], x[2..]);
    RunAppend(Run(r, x[..2]), x[2..4], x[4..]);
    RunAppend(r4, x[4..6], x[6..]);
    assert x == x[..2] + x[2..] && x[2..] == x[2..4] + x[4..] && x[4..] == x[4..6] + x[6..];
  }

  lemma RunTwo(r: Register, x: seq<bool>)
    requires |x| == 2
    ensures Run(r, x) == Feed(Feed(r, x[0]), x[1])
  {
    var y := x[1..];
    assert y[0] == x[1] && y[1..] == [];
    assert Run(Feed(Feed(r, x[0]), y[0]), []) == Feed(Feed(r, x[0]), y[0]);
    assert Run(Feed(r, x[0]), y) == Feed(Feed(r, x[0]), y[0]);
  }

  /** Feeding a register eight bits clears it exactly when they are its own. */
  lemma OwnBitsClear(r: Register, x: seq<bool>)
    requires |x| == 8
    ensures Run(r, x) == CLEAR <==> r == Loaded(x)
  {
    hide Run, Feed8, Feed;
    RunEight(r, x);
    Feed8Clears(r, x[0], x[1], x[2], x[3], x[4], x[5], x[6], x[7]);
  }

  /** The register before `bit` was shifted in. */
  function Unfeed(q: Register, bit: bool): (r: Register) {
    Register(q.b0 != bit, q.b7, q.b6, q.b5, q.b4, q.b3, q.b2 != q.b0, q.b1 != q.b0)
  }

  lemma UnfeedFeeds(r: Register, bit: bool)
    ensures Unfeed(Feed(r, bit), bit) == r && Feed(Unfeed(r, bit), bit) == r
  {
  }

  lemma Feed8Clears(r: Register, a: bool, b: bool, c: bool, d: bool, e: bool, f: bool, g: bool, h: bool)
    ensures Feed8(r, a, b, c, d, e, f, g, h) == CLEAR <==> r == Register(a, b, c, d, e, f, g, h)
  {
    var r1 := Feed(r, a);
    var r2 := Feed(r1, b);
    var r3 := Feed(r2, c);
    var r4 := Feed(r3, d);
    var r5 := Feed(r4, e);
    var r6 := Feed(r5, f);
    var r7 := Feed(r6, g);
    UnfeedFeeds(r7, h);
    UnfeedFeeds(r6, g);
    UnfeedFeeds(r5, f);
    UnfeedFeeds(r4, e);
    UnfeedFeeds(r3, d);
    UnfeedFeeds(r2, c);
    UnfeedFeeds(r1, b);
    UnfeedFeeds(r, a);
    hide Feed;
    if Feed(r7, h) == CLEAR {
      assert r7 == Register(h, false, false, false, false, false, false, false);
      assert r6 == Register(g, h, false, false, false, false, false, false);
      assert r5 == Register(f, g, h, false, false, false, false, false);
      assert r4 == Register(e, f, g, h, false, false, false, false);
      assert r3 == Register(d, e, f, g, h, false, false, false);
      assert r2 == Register(c, d, e, f, g, h, false, false);
      assert r1 == Register(b, c, d, e, f, g, h, false);
    }
    if r == Register(a, b, c, d, e, f, g, h) {
      OwnBitsShiftOut(a, b, c, d, e, f, g, h);
    }
  }

  lemma OwnBitsShiftOut(a: bool, b: bool, c: bool, d: bool, e: bool, f: bool, g: bool, h: bool)
    ensures Feed8(Register(a, b, c, d, e, f, g, h), a, b, c, d, e, f, g, h) == CLEAR
  {
    assert Feed(Register(a, b, c, d, e, f, g, h), a) == Register(b, c, d, e, f, g, h, false);
    assert Feed(Register(b, c, d, e, f, g, h, false), b) == Register(c, d, e, f, g, h, false, false);
    assert Feed(Register(c, d, e, f, g, h, false, false), c) == Register(d, e, f, g, h, false, false, false);
    assert Feed(Register(d, e, f, g, h, false, false, false), d) == Register(e, f, g, h, false, false, false, false);
    assert Feed(Register(e, f, g, h, false, false, false, false), e)
        == Register(f, g, h, false, false, false, false, false);
    assert Feed(Register(f, g, h, false, false, false, false, false), f)
        == Register(g, h, false, false, false, false, false, false);
    assert Feed(Register(g, h, false, false, false, false, false, false), g)
        == Register(h, false, false, false, false, false, false, false);
  }

  /** A string followed by a byte leaves the register clear exactly when that byte is the string's checksum. */
  lemma ResidueIsZero(s: seq<byte>, b: byte)
    ensures Run(CLEAR, Bits(s + [b])) == CLEAR <==> b == Checksum(s)
  {
    BitsAppend(s, [b]);
    assert Bits([b]) == BitsOf(b) + Bits([]) == BitsOf(b);
    RunAppend(CLEAR, Bits(s), BitsOf(b));
    var r := Run(CLEAR, Bits(s));
    OwnBitsClear(r, BitsOf(b));
    RegisterRoundTrip(r, b);
  }

  // Linearity

  function Xor(r: Register, q: Register): (x: Register) {
    Register(r.b7 != q.b7, r.b6 != q.b6, r.b5 != q.b5, r.b4 != q.b4,
             r.b3 != q.b3, r.b2 != q.b2, r.b1 != q.b1, r.b0 != q.b0)
  }

  /** The positions where two bit strings differ. */
  function Diff(x: seq<bool>, y: seq<bool>): (r: seq<bool>)
    requires |x| == |y|
    ensures |r| == |x| && forall i :: 0 <= i < |x| ==> r[i] == (x[i] != y[i])
  {
    seq(|x|, i requires 0 <= i < |x| => x[i] != y[i])
  }

  lemma FeedIsLinear(r: Register, q: Register, x: bool, y: bool)
    ensures Feed(Xor(r, q), x != y) == Xor(Feed(r, x), Feed(q, y))
  {
  }

  lemma {:induction false} RunIsLinear(r: Register, q: Register, x: seq<bool>, y: seq<bool>)
    requires |x| == |y|
    ensures Run(Xor(r, q), Diff(x, y)) == Xor(Run(r, x), Run(q, y))
    decreases |x|
  {
    hide Run, Feed, Xor;
    RunUnfolds(r, x);
    RunUnfolds(q, y);
    RunUnfolds(Xor(r, q), Diff(x, y));
    if x != [] {
      assert Diff(x, y)[1..] == Diff(x[1..], y[1..]);
      FeedIsLinear(r, q, x[0], y[0]);
      RunIsLinear(Feed(r, x[0]), Feed(q, y[0]), x[1..], y[1..]);
    }
  }

  lemma RunUnfolds(r: Register, x: seq<bool>)
    ensures Run(r, x) == if x == [] then r else Run(Feed(r, x[0]), x[1..])
  {
  }

  /** Two equally long strings leave the same residue exactly when their difference leaves none. */
  lemma DifferenceDecides(x: seq<bool>, y: seq<bool>)
    requires |x| == |y|
    ensures Run(CLEAR, Diff(x, y)) == CLEAR <==> Run(CLEAR, x) == Run(CLEAR, y)
  {
    assert Xor(CLEAR, CLEAR) == CLEAR;
    RunIsLinear(CLEAR, CLEAR, x, y);
  }

  // Errors that always show

  /** All set bits lie within eight consecutive positions. */
  ghost predicate Burst(e: seq<bool>) {
    exists p: nat :: BurstAt(e, p)
  }

  ghost predicate BurstAt(e: seq<bool>, p: nat) {
    p + 8 <= |e| && (exists i :: 0 <= i < |e| && e[i]) && forall i :: 0 <= i < |e| && e[i] ==> p <= i < p + 8
  }

  lemma {:induction false} ZerosKeepClear(z: seq<bool>)
    requires forall i :: 0 <= i < |z| ==> !z[i]
    ensures Run(CLEAR, z) == CLEAR
  {
    if z != [] {
      assert Feed(CLEAR, z[0]) == CLEAR;
      ZerosKeepClear(z[1..]);
    }
  }

  /** Shifting zeros through never clears a register. */
  lemma {:induction false} ZerosNeverClear(r: Register, z: seq<bool>)
    requires r != CLEAR && forall i :: 0 <= i < |z| ==> !z[i]
    ensures Run(r, z) != CLEAR
    decreases |z|
  {
    if z != [] {
      assert Feed(r, false) != CLEAR;
      ZerosNeverClear(Feed(r, false), z[1..]);
    }
  }

  lemma BurstLeavesResidue(e: seq<bool>)
    requires Burst(e)
    ensures Run(CLEAR, e) != CLEAR
  {
    hide Run, Feed8;
    var p: nat :| BurstAt(e, p);
    var before, w, after := e[..p], e[p..p + 8], e[p + 8..];
    assert e == before + w + after;
    RunAppend(CLEAR, before + w, after);
    RunAppend(CLEAR, before, w);
    ZerosKeepClear(before);
    RunEight(CLEAR, w);
    var i :| 0 <= i < |e| && e[i];
    assert w[i - p];
    Feed8Clears(CLEAR, w[0], w[1], w[2], w[3], w[4], w[5], w[6], w[7]);
    ZerosNeverClear(Run(CLEAR, w), after);
  }

  /** Whether an odd number of bits is set. */
  function Odd(e: seq<bool>): (r: bool) {
    if e == [] then false else e[0] != Odd(e[1..])
  }

  function OddRegister(r: Register): (p: bool) {
    r.b7 != (r.b6 != (r.b5 != (r.b4 != (r.b3 != (r.b2 != (r.b1 != r.b0))))))
  }

  /** x + 1 divides the polynomial, so the register's parity is that of everything fed into it. */
  lemma {:induction false} ParityIsKept(r: Register, e: seq<bool>)
    ensures OddRegister(Run(r, e)) == (OddRegister(r) != Odd(e))
    decreases |e|
  {
    if e != [] {
      assert OddRegister(Feed(r, e[0])) == (OddRegister(r) != e[0]);
      ParityIsKept(Feed(r, e[0]), e[1..]);
    }
  }

  lemma OddLeavesResidue(e: seq<bool>)
    requires Odd(e)
    ensures Run(CLEAR, e) != CLEAR
  {
    ParityIsKept(CLEAR, e);
  }

  // Errors that do not show

  const ONE := Register(false, false, false, false, false, true, true, true)

  function Shift(r: Register, n: nat): (r': Register)
    decreases n
  {
    if n == 0 then r else Feed(Shift(r, n - 1), false)
  }

  lemma {:induction false} ShiftAdd(r: Register, m: nat, n: nat)
    ensures Shift(r, m + n) == Shift(Shift(r, m), n)
  {
    if n > 0 {
      ShiftAdd(r, m, n - 1);
    }
  }

  /** Eight shifts at once. */
  function ShiftByte(r: Register): (r': Register) {
    Register(
      r.b7 != (r.b6 != r.b5),
      r.b6 != (r.b5 != r.b4),
      r.b5 != (r.b4 != r.b3),
      r.b4 != (r.b3 != r.b2),
      r.b7 != (r.b3 != (r.b2 != r.b1)),
      r.b6 != (r.b2 != (r.b1 != r.b0)),
      r.b6 != (r.b1 != r.b0),
      r.b7 != (r.b6 != r.b0))
  }

  function ShiftNibble(r: Register): (r': Register) {
    Register(r.b3, r.b2, r.b7 != r.b1, r.b7 != (r.b6 != r.b0),
             r.b7 != (r.b6 != r.b5), r.b6 != (r.b5 != r.b4), r.b5 != r.b4, r.b4)
  }

  lemma ShiftNibbleIsFour(r: Register)
    ensures Shift(r, 4) == ShiftNibble(r)
  {
    var r2 := Feed(Feed(r, false), false);
    assert Shift(r, 2) == r2;
    assert Shift(r, 4) == Feed(Feed(r2, false), false);
  }

  lemma ShiftByteIsEight(r: Register)
    ensures Shift(r, 8) == ShiftByte(r)
  {
    hide Shift;
    ShiftAdd(r, 4, 4);
    ShiftNibbleIsFour(r);
    ShiftNibbleIsFour(ShiftNibble(r));
    assert ShiftNibble(ShiftNibble(r)) == ShiftByte(r);
  }

  lemma Hop(n: nat, r: Register)
    requires Shift(ONE, n) == r
    ensures Shift(ONE, n + 8) == ShiftByte(r)
  {
    hide Shift, ShiftByte;
    ShiftAdd(ONE, n, 8);
    ShiftByteIsEight(r);
  }

  /** The polynomial's order divides 127. */
  lemma FullOrbit()
    ensures Shift(ONE, 127) == ONE
  {
    hide Shift;
    ShiftZero();
    Hop(0, ONE);
    Hop(8, Register(false, false, false, true, false, true, false, true));
    Hop(16, Register(false, true, true, false, true, false, true, true));
    Hop(24, Register(false, false, false, true, false, true, true, false));
    Hop(32, Register(false, true, true, false, false, false, true, false));
    Hop(40, Register(false, false, true, false, true, false, false, true));
    Hop(48, Register(true, true, false, true, true, true, true, true));
    Hop(56, Register(false, false, false, true, false, false, true, true));
    Hop(64, Register(false, true, true, true, true, false, false, true));
    Hop(72, Register(false, true, true, false, true, false, false, false));
    Hop(80, Register(false, false, false, true, true, true, true, true));
    Hop(88, Register(false, true, false, true, true, true, false, true));
    Hop(96, Register(true, false, false, true, false, true, false, false));
    Hop(104, Register(true, true, true, false, false, true, false, true));
    Hop(112, Register(true, false, true, true, false, true, false, true));
    ShiftOnce(ONE, 120);
    ShiftOnce(ONE, 121);
    ShiftOnce(ONE, 122);
    ShiftOnce(ONE, 123);
    ShiftOnce(ONE, 124);
    ShiftOnce(ONE, 125);
    ShiftOnce(ONE, 126);
  }

  lemma ShiftZero()
    ensures Shift(ONE, 0) == ONE
  {
  }

  lemma ShiftOnce(r: Register, n: nat)
    ensures Shift(r, n + 1) == Feed(Shift(r, n), false)
  {
  }

  predicate Period(n: nat) {
    Shift(ONE, n) == ONE
  }

  lemma PeriodsSubtract(a: nat, b: nat)
    requires a >= b && Period(a) && Period(b)
    ensures Period(a - b)
  {
    hide Shift;
    ShiftAdd(ONE, b, a - b);
  }

  /** Two periods have a common divisor that is a period. */
  lemma {:induction false} CommonPeriod(a: nat, b: nat) returns (g: nat, m: nat, n: nat)
    requires a > 0 && b > 0 && Period(a) && Period(b)
    ensures 0 < g <= b && Period(g) && a == g * m && b == g * n
    decreases a + b
  {
    hide Period;
    if a == b {
      g, m, n := a, 1, 1;
    } else if a > b {
      PeriodsSubtract(a, b);
      g, m, n := CommonPeriod(a - b, b);
      m := m + n;
    } else {
      PeriodsSubtract(b, a);
      g, m, n := CommonPeriod(a, b - a);
      n := m + n;
    }
  }

  lemma SmallFactor(g: nat, m: nat)
    requires g <= 11 && g * m == 127
    ensures g == 1
  {
    assert g in [0, 1, 2, 3, 4, 5, 6, 7, 8, 9, 10, 11];
  }

  lemma SmallCofactor(g: nat, m: nat)
    requires g > 11 && g * m == 127
    ensures m <= 11
  {
    assert 12 * m <= g * m;
  }

  lemma OneTwentySevenIsPrime(g: nat, m: nat)
    requires g * m == 127
    ensures g == 1 || g == 127
  {
    if g <= 11 {
      SmallFactor(g, m);
    } else {
      SmallCofactor(g, m);
      SmallFactor(m, g);
    }
  }

  lemma OneIsNoPeriod()
    ensures !Period(1)
  {
    hide Shift;
    ShiftZero();
    ShiftOnce(ONE, 0);
  }

  /** Shifting brings a single set bit back exactly at the multiples of 127. */
  lemma {:induction false} PeriodIs127(n: nat)
    ensures Period(n) <==> n % 127 == 0
  {
    hide Shift;
    FullOrbit();
    if n >= 127 {
      PeriodIs127(n - 127);
      if Period(n) {
        PeriodsSubtract(n, 127);
      }
      if Period(n - 127) {
        ShiftAdd(ONE, n - 127, 127);
      }
    } else if n == 0 {
      ShiftZero();
    } else if Period(n) {
      var g, m, _ := CommonPeriod(127, n);
      OneTwentySevenIsPrime(g, m);
      OneIsNoPeriod();
    }
  }

  lemma {:induction false} RunZerosIsShift(r: Register, z: seq<bool>)
    requires forall i :: 0 <= i < |z| ==> !z[i]
    ensures Run(r, z) == Shift(r, |z|)
    decreases |z|
  {
    if z != [] {
      var n := |z| - 1;
      RunZerosIsShift(r, z[..n]);
      RunAppend(r, z[..n], z[n..]);
      assert z == z[..n] + z[n..] && z[n..][1..] == [];
    }
  }

  /** Exactly two set bits, `p` and `q`. */
  ghost predicate TwoAt(e: seq<bool>, p: nat, q: nat) {
    p < q < |e| && forall i :: 0 <= i < |e| ==> (e[i] <==> i == p || i == q)
  }

  /** Two flips leave no residue exactly when they are a multiple of 127 bits apart. */
  lemma TwoFlipsResidue(e: seq<bool>, p: nat, q: nat)
    requires TwoAt(e, p, q)
    ensures Run(CLEAR, e) == CLEAR <==> (q - p) % 127 == 0
  {
    hide Run, Shift, Feed;
    var before, between, after := e[..p], e[p + 1..q], e[q + 1..];
    assert e == before + ([true] + (between + ([true] + after)));
    RunAppend(CLEAR, before, [true] + (between + ([true] + after)));
    ZerosKeepClear(before);
    RunOne(CLEAR, true, between + ([true] + after));
    FeedOne(CLEAR);
    RunAppend(ONE, between, [true] + after);
    RunZerosIsShift(ONE, between);
    var x := Shift(ONE, q - p - 1);
    RunOne(x, true, after);
    FeedOne(x);
    ShiftOnce(ONE, q - p - 1);
    PeriodIs127(q - p);
    if Feed(x, true) == CLEAR {
      ZerosKeepClear(after);
    } else {
      ZerosNeverClear(Feed(x, true), after);
    }
  }

  lemma RunOne(r: Register, bit: bool, y: seq<bool>)
    ensures Run(r, [bit] + y) == Run(Feed(r, bit), y)
  {
    assert ([bit] + y)[1..] == y;
  }

  lemma FeedOne(r: Register)
    ensures Feed(CLEAR, true) == ONE
    ensures Feed(r, true) == CLEAR <==> Feed(r, false) == ONE
  {
  }

  // Byte at a time

  /** The usual table step: mix the byte in, then shift eight times. */
  function StepByte(r: Register, b: byte): (r': Register) {
    ShiftByte(Xor(r, Loaded(BitsOf(b))))
  }

  function RunBytes(r: Register, s: seq<byte>): (r': Register)
    decreases |s|
  {
    if s == [] then r else RunBytes(StepByte(r, s[0]), s[1..])
  }

  lemma XorCancels(r: Register, q: Register)
    ensures Xor(q, Xor(r, q)) == r && Xor(CLEAR, r) == r
  {
  }

  lemma StepByteIsEightBits(r: Register, b: byte)
    ensures Run(r, BitsOf(b)) == StepByte(r, b)
  {
    hide Run, ShiftByte, BitsOf, Loaded, Xor, Feed;
    var v, x := Loaded(BitsOf(b)), BitsOf(b);
    var d := Xor(r, v);
    var zeros := seq(8, _ => false);
    assert Diff(x, zeros) == x;
    XorCancels(r, v);
    XorCancels(Shift(d, 8), CLEAR);
    RunIsLinear(v, d, x, zeros);
    OwnBitsClear(v, x);
    RunZerosIsShift(d, zeros);
    ShiftByteIsEight(d);
  }

  /** The byte-wise register agrees with the bit-wise one on every string. */
  lemma {:induction false} RunBytesIsRun(r: Register, s: seq<byte>)
    ensures Run(r, Bits(s)) == RunBytes(r, s)
    decreases |s|
  {
    if s != [] {
      StepByteIsEightBits(r, s[0]);
      RunAppend(r, BitsOf(s[0]), Bits(s[1..]));
      RunBytesIsRun(StepByte(r, s[0]), s[1..]);
    }
  }

  lemma FirstByte(r: Register, b: byte, rest: seq<byte>)
    ensures RunBytes(r, [b] + rest) == RunBytes(StepByte(r, b), rest)
  {
    assert ([b] + rest)[1..] == rest;
  }
}
