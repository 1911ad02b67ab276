/**
 * The checksums of custom/GLideN64/CRC.cpp and libretro-common/encodings/encoding_crc32.c, against the bit-serial
 * register of the reflected polynomial.
 */
module Crc {
  import Arith
  import opened Machine
  import opened Bits

  const FORWARD: nat := 0x04C1_1DB7
  const POLY: nat := 0xEDB8_8320
  const ONES: nat := 0xFFFF_FFFF

  function Times(bit: nat, p: nat): nat {
    if bit == 1 then p else 0
  }

  /** One bit through the register. */
  function Step(c: nat): nat {
    Xor(c / 2, Times(c % 2, POLY))
  }

  function Steps(n: nat, c: nat): nat {
    if n == 0 then c else Steps(n - 1, Step(c))
  }

  /** The register after `bytes`, section 8 of RFC 1952. */
  function Register(c: nat, bytes: seq<u8>): nat {
    if bytes == [] then c
    else Steps(8, Xor(Register(c, bytes[..|bytes| - 1]), bytes[|bytes| - 1] as nat))
  }

  // -------------------------------------------------------------------------
  // The register is linear

  lemma Powers()
    ensures Pow2(8) == 0x100 && Pow2(16) == 0x1_0000 && Pow2(24) == 0x100_0000 && Pow2(31) == 0x8000_0000
            && Pow2(32) == 0x1_0000_0000
  {
    Pow2Sum(8, 8);
    Pow2Sum(16, 8);
    Pow2Sum(24, 8);
    assert Pow2(4) == 0x10;
    assert Pow2(8) == 0x100;
  }

  lemma StepXor(a: nat, b: nat)
    ensures Step(Xor(a, b)) == Xor(Step(a), Step(b))
  {
    XorParts(a, b);
    var pa, pb := if a % 2 == 1 then POLY else 0, if b % 2 == 1 then POLY else 0;
    XorCross(a / 2, pa, b / 2, pb);
    XorSelf(pa);
    XorZero(pa);
    XorZero(pb);
  }

  lemma {:induction false} StepsXor(n: nat, a: nat, b: nat)
    ensures Steps(n, Xor(a, b)) == Xor(Steps(n, a), Steps(n, b))
    decreases n
  {
    if n > 0 {
      StepXor(a, b);
      StepsXor(n - 1, Step(a), Step(b));
    }
  }

  /** Bits further up just move down. */
  lemma {:induction false} StepsShift(n: nat, h: nat)
    ensures Steps(n, h * Pow2(n)) == h
    decreases n
  {
    if n > 0 {
      Twice(h, n);
      XorZero(h * Pow2(n - 1));
      StepsShift(n - 1, h);
    }
  }

  lemma {:induction false} StepsSum(m: nat, n: nat, c: nat)
    ensures Steps(m + n, c) == Steps(n, Steps(m, c))
    decreases m
  {
    if m > 0 {
      StepsSum(m - 1, n, Step(c));
    }
  }

  /** Looking up the low byte and shifting by eight is eight steps of the register. */
  lemma TableStep(c: nat, b: u8)
    ensures Xor(c % 0x100, b as nat) < 0x100
    ensures Xor(c / 0x100, Steps(8, Xor(c % 0x100, b as nat))) == Steps(8, Xor(c, b as nat))
  {
    hide Xor, Steps, Step, Pow2;
    var high, low := c / 0x100, c % 0x100;
    Powers();
    XorBound(low, b as nat, 8);
    XorDisjoint(high, low, 8);
    XorAssociates(high * Pow2(8), low, b as nat);
    StepsXor(8, high * Pow2(8), Xor(low, b as nat));
    StepsShift(8, high);
  }

  // -------------------------------------------------------------------------
  // The table

  /** One bit through the register of the polynomial written the other way round. */
  function Forward(c: nat): nat {
    Xor(c * 2 % 0x1_0000_0000, Times(if c >= 0x8000_0000 then 1 else 0, FORWARD))
  }

  function Forwards(n: nat, c: nat): nat {
    if n == 0 then c else Forward(Forwards(n - 1, c))
  }

  lemma SmallPowers()
    ensures Pow2(0) == 1 && Pow2(1) == 2 && Pow2(2) == 4 && Pow2(3) == 8 && Pow2(4) == 0x10
  {
  }

  lemma NothingMirrored(x: nat)
    ensures Mirror(x, 0) == 0
  {
  }

  lemma NibbleMirrored(x: nat, a: nat, b: nat, c: nat, d: nat)
    requires a < 2 && b < 2 && c < 2 && d < 2 && x == 8 * a + 4 * b + 2 * c + d
    ensures Mirror(x, 4) == 8 * d + 4 * c + 2 * b + a
  {
    hide Mirror, Pow2;
    SmallPowers();
    NothingMirrored(0);
    MirrorStep(0, a, 0);
    MirrorStep(a, b, 1);
    MirrorStep(2 * a + b, c, 2);
    MirrorStep(4 * a + 2 * b + c, d, 3);
  }

  lemma ByteMirrored(high: nat, low: nat)
    requires low < 0x10
    ensures Mirror(0x10 * high + low, 8) == 0x10 * Mirror(low, 4) + Mirror(high, 4)
  {
    hide Mirror, Pow2;
    SmallPowers();
    MirrorJoin(high, 4, low, 4);
  }

  lemma BytesMirrored()
    ensures Mirror(0x04, 8) == 0x20 && Mirror(0xC1, 8) == 0x83 && Mirror(0x1D, 8) == 0xB8 && Mirror(0xB7, 8) == 0xED
  {
    hide Mirror, Pow2;
    NibbleMirrored(0x0, 0, 0, 0, 0);
    NibbleMirrored(0x4, 0, 1, 0, 0);
    NibbleMirrored(0xC, 1, 1, 0, 0);
    NibbleMirrored(0x1, 0, 0, 0, 1);
    NibbleMirrored(0xD, 1, 1, 0, 1);
    NibbleMirrored(0xB, 1, 0, 1, 1);
    NibbleMirrored(0x7, 0, 1, 1, 1);
    ByteMirrored(0x0, 0x4);
    ByteMirrored(0xC, 0x1);
    ByteMirrored(0x1, 0xD);
    ByteMirrored(0xB, 0x7);
  }

  /** The two polynomials are mirror images, byte by byte. */
  lemma PolyMirrored()
    ensures Mirror(FORWARD, 32) == POLY
  {
    hide Mirror, Pow2;
    Powers();
    BytesMirrored();
    MirrorJoin(0x04, 8, 0xC1, 8);
    MirrorJoin(0x04C1, 16, 0x1D, 8);
    MirrorJoin(0x04_C11D, 24, 0xB7, 8);
  }

  /** A word of `n + 1` bits, shifted up. */
  lemma ShiftedUp(x: nat, n: nat, top: nat, half: nat, c: nat)
    requires half == Pow2(n) && x < half && top < 2 && c == x + Times(top, half)
    ensures Mirror(c, n + 1) == 2 * Mirror(x, n) + top
    ensures Mirror(2 * x, n + 1) == Mirror(x, n)
  {
    MirrorTop(x, n, top);
    assert 2 * x / 2 == x && 2 * x % 2 == 0;
  }

  /** The step of one register is that of the other on the mirrored word. */
  lemma StepMirrored(x: nat, n: nat, top: nat, half: nat, c: nat, forward: nat)
    requires half == Pow2(n) && x < half && top < 2 && c == x + Times(top, half) && forward < 2 * half
    ensures Mirror(Xor(2 * x, Times(top, forward)), n + 1)
            == Xor(Mirror(c, n + 1) / 2, Times(Mirror(c, n + 1) % 2, Mirror(forward, n + 1)))
    ensures Xor(2 * x, Times(top, forward)) < 2 * half
  {
    ShiftedUp(x, n, top, half, c);
    XorBound(2 * x, Times(top, forward), n + 1);
    MirrorXor(2 * x, Times(top, forward), n + 1);
    if top == 0 {
      XorZero(2 * x);
      XorZero(Mirror(x, n));
    }
  }

  lemma ForwardIs(c: nat, x: nat, top: nat)
    requires x < 0x8000_0000 && top < 2 && c == x + Times(top, 0x8000_0000)
    ensures Forward(c) == Xor(2 * x, Times(top, FORWARD))
  {
    if top == 1 {
      Arith.DivisionIs(c * 2, 0x1_0000_0000, 1, 2 * x);
    } else {
      Arith.DivisionIs(c * 2, 0x1_0000_0000, 0, 2 * x);
    }
  }

  /** The register of the forward polynomial is a mirror image of the reflected one. */
  lemma ForwardMirrored(c: nat)
    requires c < 0x1_0000_0000
    ensures Forward(c) < 0x1_0000_0000 && Mirror(Forward(c), 32) == Step(Mirror(c, 32))
  {
    hide Mirror, Pow2, Forward, Xor;
    Powers();
    PolyMirrored();
    var top := if c >= 0x8000_0000 then 1 else 0;
    var x := if c >= 0x8000_0000 then c - 0x8000_0000 else c;
    ForwardIs(c, x, top);
    StepMirrored(x, 31, top, 0x8000_0000, c, FORWARD);
  }

  lemma {:induction false} ForwardsMirrored(i: nat, c: nat)
    requires c < 0x1_0000_0000
    ensures Forwards(i, c) < 0x1_0000_0000 && Mirror(Forwards(i, c), 32) == Steps(i, Mirror(c, 32))
    decreases i
  {
    hide Mirror, Pow2, Forward, Step;
    if i > 0 {
      ForwardsMirrored(i - 1, c);
      ForwardMirrored(Forwards(i - 1, c));
      StepsLast(i, Mirror(c, 32));
    }
  }

  lemma StepsLast(n: nat, c: nat)
    requires n > 0
    ensures Steps(n, c) == Step(Steps(n - 1, c))
  {
    StepsSum(n - 1, 1, c);
    assert Steps(1, Steps(n - 1, c)) == Steps(0, Step(Steps(n - 1, c)));
  }

  /** Mirror, run the forward register, mirror back: eight steps of the reflected register. */
  lemma EntryIsSteps(i: nat)
    requires i < 0x100
    ensures Mirror(i, 8) * 0x100_0000 < 0x1_0000_0000
    ensures Mirror(Forwards(8, Mirror(i, 8) * 0x100_0000), 32) == Steps(8, i)
  {
    hide Mirror, Pow2, Forwards, Steps;
    Powers();
    MirrorWider(i, 8, 24);
    WiderBound(8, 24);
    MirrorTwice(i, 32);
    ForwardsMirrored(8, Mirror(i, 32));
  }

  lemma ReflectStep(h: nat, value: nat, n: nat)
    requires value == h * Pow2(n + 1)
    ensures value == 2 * h * Pow2(n)
    ensures Or(value, Pow2(n)) == value + Pow2(n) == (2 * h + 1) * Pow2(n)
  {
    hide Or;
    OrDisjoint(h, Pow2(n), n + 1);
    Twice(h, n + 1);
  }

  /** Reflect */
  method Reflect(ref0: nat, ch: nat) returns (value: nat)
    ensures value == Mirror(ref0, ch)
  {
    var ref, i := ref0, 1;
    value := 0;
    ghost var high := 0;
    while i < ch + 1
      invariant 1 <= i <= ch + 1 && value == high * Pow2(ch + 1 - i)
      invariant value + Mirror(ref, ch + 1 - i) == Mirror(ref0, ch)
    {
      ReflectStep(high, value, ch - i);
      high := 2 * high;
      if ref % 2 == 1 {
        value, high := Or(value, Pow2(ch - i)), high + 1;
      }
      ref, i := ref / 2, i + 1;
    }
  }

  /** The table of the reflected register. */
  ghost predicate IsTable(table: seq<nat>) {
    |table| == 256 && forall i: nat :: i < 256 ==> table[i] == Steps(8, i)
  }

  /** One entry of the table. */
  method Entry(i: nat) returns (crc: nat)
    requires i < 0x100
    ensures crc == Steps(8, i)
  {
    hide Mirror, Steps, Xor, Pow2;
    crc := Reflect(i, 8);
    crc := crc * 0x100_0000;
    ghost var start := crc;
    EntryIsSteps(i);
    var j := 0;
    while j < 8
      invariant 0 <= j <= 8 && crc == Forwards(j, start)
    {
      crc := Xor(crc * 2 % 0x1_0000_0000, Times(if crc >= 0x8000_0000 then 1 else 0, FORWARD));
      j := j + 1;
    }
    crc := Reflect(crc, 32);
  }

  /** CRC_Init */
  method Init(table: array<nat>)
    requires table.Length == 256
    modifies table
    ensures IsTable(table[..])
  {
    var i := 0;
    while i < 256
      invariant 0 <= i <= 256
      invariant forall k: nat :: k < i ==> table[k] == Steps(8, k)
    {
      table[i] := Entry(i);
      i := i + 1;
    }
  }

  // -------------------------------------------------------------------------
  // The checksums

  lemma NoBytes(c: nat, bytes: seq<u8>)
    requires bytes == []
    ensures Register(c, bytes) == c
  {
  }

  lemma RegisterOneMore(c: nat, bytes: seq<u8>, n: nat)
    requires n < |bytes|
    ensures Register(c, bytes[..n + 1]) == Steps(8, Xor(Register(c, bytes[..n]), bytes[n] as nat))
  {
    assert bytes[..n + 1][..n] == bytes[..n];
  }

  /** One byte through the table. */
  method Shift(table: array<nat>, crc: nat, byte: u8) returns (next: nat)
    requires IsTable(table[..])
    ensures next == Steps(8, Xor(crc, byte as nat))
  {
    TableStep(crc, byte);
    var i := Xor(crc % 0x100, byte as nat);
    assert table[i] == table[..][i];
    next := Xor(crc / 0x100, table[i]);
  }

  /** CRC_Calculate_Strict */
  method CalculateStrict(table: array<nat>, crc0: nat, buffer: seq<u8>, count: nat) returns (r: nat)
    requires IsTable(table[..]) && count <= |buffer|
    ensures r == Xor(Register(crc0, buffer[..count]), crc0)
  {
    hide Steps, Xor;
    var crc, p := crc0, 0;
    while p < count
      invariant 0 <= p <= count && crc == Register(crc0, buffer[..p])
    {
      RegisterOneMore(crc0, buffer, p);
      crc := Shift(table, crc, buffer[p]);
      p := p + 1;
    }
    r := Xor(crc, crc0);
  }

  /** The first two bytes of each of `count` groups of eight. */
  function Gathered(buffer: seq<u8>, count: nat): seq<u8>
    requires count > 0 ==> 8 * (count - 1) + 2 <= |buffer|
  {
    if count == 0 then []
    else Gathered(buffer, count - 1) + [buffer[8 * (count - 1)], buffer[8 * (count - 1) + 1]]
  }

  lemma {:induction false} GatheredAt(buffer: seq<u8>, count: nat, k: nat)
    requires k < count && 8 * (count - 1) + 2 <= |buffer|
    ensures var bytes := Gathered(buffer, count);
      |bytes| == 2 * count && bytes[2 * k] == buffer[8 * k] && bytes[2 * k + 1] == buffer[8 * k + 1]
  {
    if count > 1 {
      GatheredAt(buffer, count - 1, if k == count - 1 then k - 1 else k);
    }
  }

  lemma RegisterTwoMore(c: nat, bytes: seq<u8>, a: u8, b: u8)
    ensures Register(c, bytes + [a, b]) == Steps(8, Xor(Steps(8, Xor(Register(c, bytes), a as nat)), b as nat))
  {
    assert (bytes + [a, b])[..|bytes| + 1] == bytes + [a];
    assert (bytes + [a])[..|bytes|] == bytes;
  }

  /** CRC_CalculatePalette */
  method CalculatePalette(table: array<nat>, crc0: nat, buffer: seq<u8>, count: nat) returns (r: nat)
    requires IsTable(table[..]) && (count > 0 ==> 8 * (count - 1) + 2 <= |buffer|)
    ensures r == Xor(Register(crc0, Gathered(buffer, count)), crc0)
  {
    hide Steps, Xor, Register;
    var crc, p, k := crc0, 0, 0;
    NoBytes(crc0, Gathered(buffer, 0));
    while k < count
      invariant 0 <= k <= count && p == 8 * k && crc == Register(crc0, Gathered(buffer, k))
    {
      ghost var before := Gathered(buffer, k);
      RegisterTwoMore(crc0, before, buffer[p], buffer[p + 1]);
      crc := Shift(table, crc, buffer[p]);
      p := p + 1;
      crc := Shift(table, crc, buffer[p]);
      p := p + 1;
      p, k := p + 6, k + 1;
      assert Gathered(buffer, k) == before + [buffer[8 * (k - 1)], buffer[8 * (k - 1) + 1]];
    }
    r := Xor(crc, crc0);
  }

  /** What encoding_crc32 adds to the register: it is complemented before and after. */
  function Crc32(crc: nat, bytes: seq<u8>): nat {
    Xor(Register(Xor(crc, ONES), bytes), ONES)
  }

  lemma {:induction false} RegisterSplit(c: nat, a: seq<u8>, b: seq<u8>)
    ensures Register(c, a + b) == Register(Register(c, a), b)
    decreases |b|
  {
    if b == [] {
      assert a + b == a;
    } else {
      assert (a + b)[..|a + b| - 1] == a + b[..|b| - 1];
      RegisterSplit(c, a, b[..|b| - 1]);
    }
  }

  /** The checksum of a concatenation, piece by piece. */
  lemma Crc32Split(crc: nat, a: seq<u8>, b: seq<u8>)
    ensures Crc32(crc, a + b) == Crc32(Crc32(crc, a), b)
  {
    RegisterSplit(Xor(crc, ONES), a, b);
    XorCancels(Register(Xor(crc, ONES), a), ONES);
  }

  // -------------------------------------------------------------------------
  // What the checksum tells apart

  lemma XorInjective(a: nat, b: nat, p: nat)
    requires Xor(a, p) == Xor(b, p)
    ensures a == b
  {
    XorCancels(a, p);
    XorCancels(b, p);
  }

  /** The bit that leaves the register shows at its top. */
  lemma StepTop(c: nat)
    requires c < 0x1_0000_0000
    ensures Step(c) < 0x1_0000_0000 && (Step(c) >= 0x8000_0000 <==> c % 2 == 1)
  {
    Powers();
    if c % 2 == 0 {
      XorZero(c / 2);
    } else {
      var r := POLY - 0x8000_0000;
      XorDisjoint(1, r, 31);
      XorCommutes(c / 2, POLY);
      XorAssociates(0x8000_0000, r, c / 2);
      XorBound(r, c / 2, 31);
      XorDisjoint(1, Xor(r, c / 2), 31);
    }
  }

  lemma {:induction false} StepsInjective(n: nat, c: nat, d: nat)
    requires c < 0x1_0000_0000 && d < 0x1_0000_0000 && Steps(n, c) == Steps(n, d)
    ensures c == d
    decreases n
  {
    if n > 0 {
      StepTop(c);
      StepTop(d);
      StepsInjective(n - 1, Step(c), Step(d));
      XorInjective(c / 2, d / 2, if c % 2 == 1 then POLY else 0);
    }
  }

  lemma {:induction false} RegisterBound(c: nat, bytes: seq<u8>)
    requires c < 0x1_0000_0000
    ensures Register(c, bytes) < 0x1_0000_0000
    decreases |bytes|
  {
    if bytes != [] {
      RegisterBound(c, bytes[..|bytes| - 1]);
      Powers();
      XorBound(Register(c, bytes[..|bytes| - 1]), bytes[|bytes| - 1] as nat, 32);
      StepsBound(8, Xor(Register(c, bytes[..|bytes| - 1]), bytes[|bytes| - 1] as nat));
    }
  }

  lemma {:induction false} StepsBound(n: nat, c: nat)
    requires c < 0x1_0000_0000
    ensures Steps(n, c) < 0x1_0000_0000
    decreases n
  {
    if n > 0 {
      StepTop(c);
      StepsBound(n - 1, Step(c));
    }
  }

  /** Bytes as one number, the first the lowest. */
  function Number(bytes: seq<u8>): nat {
    if bytes == [] then 0
    else Number(bytes[..|bytes| - 1]) + bytes[|bytes| - 1] as nat * Pow2(8 * (|bytes| - 1))
  }

  lemma OneByteMore(front: nat, last: nat, p: nat)
    requires front < p && last < 0x100
    ensures front + last * p < 0x100 * p
  {
    Arith.MulMonotone(p, last, 0xFF);
    assert last * p == p * last;
  }

  lemma {:induction false} NumberBound(bytes: seq<u8>)
    ensures Number(bytes) < Pow2(8 * |bytes|)
    decreases |bytes|
  {
    if bytes != [] {
      var n := 8 * (|bytes| - 1);
      NumberBound(bytes[..|bytes| - 1]);
      OneByteMore(Number(bytes[..|bytes| - 1]), bytes[|bytes| - 1] as nat, Pow2(n));
      Pow2Sum(8, n);
      Powers();
      assert 8 + n == 8 * |bytes|;
    }
  }

  lemma EightMore(n: nat, x: nat, last: nat)
    ensures Steps(8, Xor(Steps(n, x), last)) == Steps(n + 8, Xor(x, last * Pow2(n)))
  {
    StepsShift(n, last);
    StepsXor(n, x, last * Pow2(n));
    StepsSum(n, 8, Xor(x, last * Pow2(n)));
  }

  lemma XorOnTop(c: nat, front: nat, last: nat, n: nat)
    requires front < Pow2(n)
    ensures Xor(Xor(c, front), last * Pow2(n)) == Xor(c, front + last * Pow2(n))
  {
    XorDisjoint(last, front, n);
    XorCommutes(last * Pow2(n), front);
    XorAssociates(c, front, last * Pow2(n));
  }

  /** Taking bytes in one by one is taking their number in at once. */
  lemma {:induction false} RegisterIsNumber(c: nat, bytes: seq<u8>)
    ensures Register(c, bytes) == Steps(8 * |bytes|, Xor(c, Number(bytes)))
    decreases |bytes|
  {
    if bytes == [] {
      XorZero(c);
    } else {
      var front, last := bytes[..|bytes| - 1], bytes[|bytes| - 1] as nat;
      RegisterIsNumber(c, front);
      EightMore(8 * |front|, Xor(c, Number(front)), last);
      NumberBound(front);
      XorOnTop(c, Number(front), last, 8 * |front|);
      assert 8 * |front| + 8 == 8 * |bytes|;
    }
  }

  lemma {:induction false} NothingShifted(n: nat)
    ensures Steps(n, 0) == 0
  {
    if n > 0 {
      NothingShifted(n - 1);
    }
  }

  /** Four bytes of ones leave the register empty: their checksum is all ones. */
  lemma OnesChecksum()
    ensures Crc32(0, [0xFF, 0xFF, 0xFF, 0xFF]) == 0xFFFF_FFFF
  {
    var bytes: seq<u8> := [0xFF, 0xFF, 0xFF, 0xFF];
    NumberOfOnes();
    RegisterIsNumber(ONES, bytes);
    XorZero(ONES);
    XorSelf(ONES);
    NothingShifted(32);
  }

  lemma NumberOfOnes()
    ensures Number([0xFF, 0xFF, 0xFF, 0xFF]) == 0xFFFF_FFFF
  {
    Powers();
    var a: seq<u8>, b: seq<u8>, c: seq<u8> := [0xFF], [0xFF, 0xFF], [0xFF, 0xFF, 0xFF];
    assert Number(a) == 0xFF by { assert a[..0] == []; }
    assert Number(b) == 0xFFFF by { assert b[..1] == a; }
    assert Number(c) == 0xFF_FFFF by { assert c[..2] == b; }
    var d: seq<u8> := [0xFF, 0xFF, 0xFF, 0xFF];
    assert d[..3] == c;
  }

  lemma {:induction false} NumberInjective(a: seq<u8>, b: seq<u8>)
    requires |a| == |b| && Number(a) == Number(b)
    ensures a == b
    decreases |a|
  {
    if a != [] {
      var n := |a| - 1;
      NumberBound(a[..n]);
      NumberBound(b[..n]);
      SameDigits(a[n] as nat, Number(a[..n]), b[n] as nat, Number(b[..n]), Pow2(8 * n));
      NumberInjective(a[..n], b[..n]);
      assert a == a[..n] + [a[n]] && b == b[..n] + [b[n]];
    }
  }

  lemma SameDigits(h: nat, l: nat, h': nat, l': nat, p: nat)
    requires l < p && l' < p && l + h * p == l' + h' * p
    ensures h == h' && l == l'
  {
    Arith.DivisionUnique(p, h, l, h', l');
  }

  /** Buffers that differ in at most four consecutive bytes have the same checksum only if they are the same. */
  lemma BurstShows(c: nat, before: seq<u8>, a: seq<u8>, b: seq<u8>, after: seq<u8>)
    requires c < 0x1_0000_0000 && |a| == |b| <= 4
    ensures Register(c, before + a + after) == Register(c, before + b + after) <==> a == b
  {
    if Register(c, before + a + after) == Register(c, before + b + after) {
      var r := Register(c, before);
      RegisterBound(c, before);
      RegisterSplit(c, before, a);
      RegisterSplit(c, before + a, after);
      RegisterSplit(c, before, b);
      RegisterSplit(c, before + b, after);
      SameAfter(Register(r, a), Register(r, b), after, r, a, b);
      MiddleShows(r, a, b);
    }
  }

  lemma SameAfter(ra: nat, rb: nat, after: seq<u8>, r: nat, a: seq<u8>, b: seq<u8>)
    requires r < 0x1_0000_0000 && ra == Register(r, a) && rb == Register(r, b)
    requires Register(ra, after) == Register(rb, after)
    ensures ra == rb
  {
    RegisterBound(r, a);
    RegisterBound(r, b);
    RegisterInjective(ra, rb, after);
  }

  lemma {:induction false} RegisterInjective(c: nat, d: nat, bytes: seq<u8>)
    requires c < 0x1_0000_0000 && d < 0x1_0000_0000 && Register(c, bytes) == Register(d, bytes)
    ensures c == d
    decreases |bytes|
  {
    if bytes != [] {
      var front, last := bytes[..|bytes| - 1], bytes[|bytes| - 1] as nat;
      var x, y := Register(c, front), Register(d, front);
      RegisterBound(c, front);
      RegisterBound(d, front);
      Powers();
      XorBound(x, last, 32);
      XorBound(y, last, 32);
      StepsInjective(8, Xor(x, last), Xor(y, last));
      XorInjective(x, y, last);
      RegisterInjective(c, d, front);
    }
  }

  lemma MiddleShows(r: nat, a: seq<u8>, b: seq<u8>)
    requires r < 0x1_0000_0000 && |a| == |b| <= 4 && Register(r, a) == Register(r, b)
    ensures a == b
  {
    RegisterIsNumber(r, a);
    RegisterIsNumber(r, b);
    NumberBound(a);
    NumberBound(b);
    Powers();
    WiderBound(8 * |a|, 32 - 8 * |a|);
    XorBound(r, Number(a), 32);
    XorBound(r, Number(b), 32);
    StepsInjective(8 * |a|, Xor(r, Number(a)), Xor(r, Number(b)));
    XorCommutes(r, Number(a));
    XorCommutes(r, Number(b));
    XorInjective(Number(a), Number(b), r);
    NumberInjective(a, b);
  }
}
