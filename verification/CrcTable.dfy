/** The checksum of libretro-common/encodings/encoding_crc32.c with the literal table of that file. */
module CrcTable {
  import opened Bits
  import opened Crc
  import opened Machine

  // -------------------------------------------------------------------------
  // Words by their bytes

  function Joined(b3: nat, b2: nat, b1: nat, b0: nat): nat {
    ((b3 * 0x100 + b2) * 0x100 + b1) * 0x100 + b0
  }

  function Nat(b: bv8): (n: nat)
    ensures n < 0x100
  {
    b as nat
  }

  function LowBit(b: bv8): nat {
    if b & 1 == 1 then 1 else 0
  }

  datatype Word = Word(b3: bv8, b2: bv8, b1: bv8, b0: bv8)
  {
    function Value(): nat {
      Joined(Nat(b3), Nat(b2), Nat(b1), Nat(b0))
    }

    function Plus(w: Word): Word {
      Word(b3 ^ w.b3, b2 ^ w.b2, b1 ^ w.b1, b0 ^ w.b0)
    }

    function Half(): Word {
      Word(b3 >> 1, (b3 << 7) | (b2 >> 1), (b2 << 7) | (b1 >> 1), (b1 << 7) | (b0 >> 1))
    }

    /** One bit through the register of the reflected polynomial. */
    function Stepped(): Word {
      if b0 & 1 == 1 then Half().Plus(Word(0xED, 0xB8, 0x83, 0x20)) else Half()
    }
  }

  lemma HalfByte(b: bv8)
    ensures Nat(b) == 2 * Nat(b >> 1) + LowBit(b)
  {
  }

  lemma CarriedByte(c: bv8, b: bv8)
    ensures Nat((c << 7) | (b >> 1)) == 0x80 * LowBit(c) + Nat(b >> 1)
  {
  }

  lemma HalfJoined(x3: nat, x2: nat, x1: nat, x0: nat, h3: nat, h2: nat, h1: nat, h0: nat,
                   l3: nat, l2: nat, l1: nat, l0: nat, y2: nat, y1: nat, y0: nat)
    requires x3 == 2 * h3 + l3 && x2 == 2 * h2 + l2 && x1 == 2 * h1 + l1 && x0 == 2 * h0 + l0 && l0 < 2
    requires y2 == 0x80 * l3 + h2 && y1 == 0x80 * l2 + h1 && y0 == 0x80 * l1 + h0
    ensures Joined(h3, y2, y1, y0) == Joined(x3, x2, x1, x0) / 2 && Joined(x3, x2, x1, x0) % 2 == l0
  {
  }

  lemma HalfIsHalf(w: Word)
    ensures w.Half().Value() == w.Value() / 2 && w.Value() % 2 == LowBit(w.b0)
  {
    hide Joined, Nat;
    var h := w.Half();
    HalfByte(w.b3);
    HalfByte(w.b2);
    HalfByte(w.b1);
    HalfByte(w.b0);
    CarriedByte(w.b3, w.b2);
    CarriedByte(w.b2, w.b1);
    CarriedByte(w.b1, w.b0);
    HalfJoined(Nat(w.b3), Nat(w.b2), Nat(w.b1), Nat(w.b0), Nat(h.b3), Nat(w.b2 >> 1), Nat(w.b1 >> 1), Nat(w.b0 >> 1),
               LowBit(w.b3), LowBit(w.b2), LowBit(w.b1), LowBit(w.b0), Nat(h.b2), Nat(h.b1), Nat(h.b0));
  }

  lemma XorIs(a: nat, b: nat, p: nat, q: nat, x: nat, y: nat, r: nat, z: nat)
    requires a == 2 * p + x && b == 2 * q + y && x < 2 && y < 2 && Xor(p, q) == r && z == if x == y then 0 else 1
    ensures Xor(a, b) == 2 * r + z
  {
    hide Xor;
    XorParts(a, b);
  }

  lemma BitsOfXor(a: bv8, b: bv8)
    ensures (a >> 1) ^ (b >> 1) == (a ^ b) >> 1 && LowBit(a ^ b) == if LowBit(a) == LowBit(b) then 0 else 1
  {
  }

  lemma NoBits(b: bv8)
    requires Nat(b) == 0
    ensures b == 0
  {
  }

  lemma {:induction false} XorOfBytes(a: bv8, b: bv8)
    ensures Xor(Nat(a), Nat(b)) == Nat(a ^ b)
    decreases Nat(a) + Nat(b)
  {
    hide Xor, Nat;
    if Nat(a) + Nat(b) == 0 {
      NoBits(a);
      NoBits(b);
      XorZero(Nat(a));
    } else {
      HalfByte(a);
      HalfByte(b);
      HalfByte(a ^ b);
      BitsOfXor(a, b);
      XorOfBytes(a >> 1, b >> 1);
      XorIs(Nat(a), Nat(b), Nat(a >> 1), Nat(b >> 1), LowBit(a), LowBit(b), Nat((a ^ b) >> 1), LowBit(a ^ b));
    }
  }

  lemma XorJoined(v3: nat, v2: nat, v1: nat, v0: nat, w3: nat, w2: nat, w1: nat, w0: nat,
                  x3: nat, x2: nat, x1: nat, x0: nat)
    requires v2 < 0x100 && v1 < 0x100 && v0 < 0x100 && w2 < 0x100 && w1 < 0x100 && w0 < 0x100
    requires Xor(v3, w3) == x3 && Xor(v2, w2) == x2 && Xor(v1, w1) == x1 && Xor(v0, w0) == x0
    ensures Xor(Joined(v3, v2, v1, v0), Joined(w3, w2, w1, w0)) == Joined(x3, x2, x1, x0)
  {
    hide Xor, Pow2;
    Powers();
    XorJoin(v3, w3, v2, w2, 8);
    XorJoin(v3 * 0x100 + v2, w3 * 0x100 + w2, v1, w1, 8);
    XorJoin((v3 * 0x100 + v2) * 0x100 + v1, (w3 * 0x100 + w2) * 0x100 + w1, v0, w0, 8);
  }

  lemma BytesOfPlus(v: Word, w: Word)
    ensures Xor(Nat(v.b3), Nat(w.b3)) == Nat(v.Plus(w).b3) && Xor(Nat(v.b2), Nat(w.b2)) == Nat(v.Plus(w).b2)
    ensures Xor(Nat(v.b1), Nat(w.b1)) == Nat(v.Plus(w).b1) && Xor(Nat(v.b0), Nat(w.b0)) == Nat(v.Plus(w).b0)
  {
    hide Xor, Nat;
    XorOfBytes(v.b3, w.b3);
    XorOfBytes(v.b2, w.b2);
    XorOfBytes(v.b1, w.b1);
    XorOfBytes(v.b0, w.b0);
  }

  lemma PlusIsXor(v: Word, w: Word)
    ensures v.Plus(w).Value() == Xor(v.Value(), w.Value())
  {
    hide Joined, Xor, Nat, Word.Plus;
    var x := v.Plus(w);
    BytesOfPlus(v, w);
    XorJoined(Nat(v.b3), Nat(v.b2), Nat(v.b1), Nat(v.b0), Nat(w.b3), Nat(w.b2), Nat(w.b1), Nat(w.b0),
              Nat(x.b3), Nat(x.b2), Nat(x.b1), Nat(x.b0));
  }

  lemma PolyWord()
    ensures Word(0xED, 0xB8, 0x83, 0x20).Value() == POLY
  {
  }

  lemma SteppedIsStep(w: Word)
    ensures w.Stepped().Value() == Step(w.Value())
  {
    hide Xor, Joined, Nat;
    PolyWord();
    HalfIsHalf(w);
    PlusIsXor(w.Half(), Word(0xED, 0xB8, 0x83, 0x20));
    XorZero(w.Value() / 2);
  }

  // -------------------------------------------------------------------------
  // The table

  /** Sixteen entries. */
  function Row(r: nat): (row: seq<Word>)
    requires r < 16
    ensures |row| == 16
  {
    match r
    case 0 =>
      [Word(0x00, 0x00, 0x00, 0x00), Word(0x77, 0x07, 0x30, 0x96),
       Word(0xEE, 0x0E, 0x61, 0x2C), Word(0x99, 0x09, 0x51, 0xBA),
       Word(0x07, 0x6D, 0xC4, 0x19), Word(0x70, 0x6A, 0xF4, 0x8F),
       Word(0xE9, 0x63, 0xA5, 0x35), Word(0x9E, 0x64, 0x95, 0xA3),
       Word(0x0E, 0xDB, 0x88, 0x32), Word(0x79, 0xDC, 0xB8, 0xA4),
       Word(0xE0, 0xD5, 0xE9, 0x1E), Word(0x97, 0xD2, 0xD9, 0x88),
       Word(0x09, 0xB6, 0x4C, 0x2B), Word(0x7E, 0xB1, 0x7C, 0xBD),
       Word(0xE7, 0xB8, 0x2D, 0x07), Word(0x90, 0xBF, 0x1D, 0x91)]
    case 1 =>
      [Word(0x1D, 0xB7, 0x10, 0x64), Word(0x6A, 0xB0, 0x20, 0xF2),
       Word(0xF3, 0xB9, 0x71, 0x48), Word(0x84, 0xBE, 0x41, 0xDE),
       Word(0x1A, 0xDA, 0xD4, 0x7D), Word(0x6D, 0xDD, 0xE4, 0xEB),
       Word(0xF4, 0xD4, 0xB5, 0x51), Word(0x83, 0xD3, 0x85, 0xC7),
       Word(0x13, 0x6C, 0x98, 0x56), Word(0x64, 0x6B, 0xA8, 0xC0),
       Word(0xFD, 0x62, 0xF9, 0x7A), Word(0x8A, 0x65, 0xC9, 0xEC),
       Word(0x14, 0x01, 0x5C, 0x4F), Word(0x63, 0x06, 0x6C, 0xD9),
       Word(0xFA, 0x0F, 0x3D, 0x63), Word(0x8D, 0x08, 0x0D, 0xF5)]
    case 2 =>
      [Word(0x3B, 0x6E, 0x20, 0xC8), Word(0x4C, 0x69, 0x10, 0x5E),
       Word(0xD5, 0x60, 0x41, 0xE4), Word(0xA2, 0x67, 0x71, 0x72),
       Word(0x3C, 0x03, 0xE4, 0xD1), Word(0x4B, 0x04, 0xD4, 0x47),
       Word(0xD2, 0x0D, 0x85, 0xFD), Word(0xA5, 0x0A, 0xB5, 0x6B),
       Word(0x35, 0xB5, 0xA8, 0xFA), Word(0x42, 0xB2, 0x98, 0x6C),
       Word(0xDB, 0xBB, 0xC9, 0xD6), Word(0xAC, 0xBC, 0xF9, 0x40),
       Word(0x32, 0xD8, 0x6C, 0xE3), Word(0x45, 0xDF, 0x5C, 0x75),
       Word(0xDC, 0xD6, 0x0D, 0xCF), Word(0xAB, 0xD1, 0x3D, 0x59)]
    case 3 =>
      [Word(0x26, 0xD9, 0x30, 0xAC), Word(0x51, 0xDE, 0x00, 0x3A),
       Word(0xC8, 0xD7, 0x51, 0x80), Word(0xBF, 0xD0, 0x61, 0x16),
       Word(0x21, 0xB4, 0xF4, 0xB5), Word(0x56, 0xB3, 0xC4, 0x23),
       Word(0xCF, 0xBA, 0x95, 0x99), Word(0xB8, 0xBD, 0xA5, 0x0F),
       Word(0x28, 0x02, 0xB8, 0x9E), Word(0x5F, 0x05, 0x88, 0x08),
       Word(0xC6, 0x0C, 0xD9, 0xB2), Word(0xB1, 0x0B, 0xE9, 0x24),
       Word(0x2F, 0x6F, 0x7C, 0x87), Word(0x58, 0x68, 0x4C, 0x11),
       Word(0xC1, 0x61, 0x1D, 0xAB), Word(0xB6, 0x66, 0x2D, 0x3D)]
    case 4 =>
      [Word(0x76, 0xDC, 0x41, 0x90), Word(0x01, 0xDB, 0x71, 0x06),
       Word(0x98, 0xD2, 0x20, 0xBC), Word(0xEF, 0xD5, 0x10, 0x2A),
       Word(0x71, 0xB1, 0x85, 0x89), Word(0x06, 0xB6, 0xB5, 0x1F),
       Word(0x9F, 0xBF, 0xE4, 0xA5), Word(0xE8, 0xB8, 0xD4, 0x33),
       Word(0x78, 0x07, 0xC9, 0xA2), Word(0x0F, 0x00, 0xF9, 0x34),
       Word(0x96, 0x09, 0xA8, 0x8E), Word(0xE1, 0x0E, 0x98, 0x18),
       Word(0x7F, 0x6A, 0x0D, 0xBB), Word(0x08, 0x6D, 0x3D, 0x2D),
       Word(0x91, 0x64, 0x6C, 0x97), Word(0xE6, 0x63, 0x5C, 0x01)]
    case 5 =>
      [Word(0x6B, 0x6B, 0x51, 0xF4), Word(0x1C, 0x6C, 0x61, 0x62),
       Word(0x85, 0x65, 0x30, 0xD8), Word(0xF2, 0x62, 0x00, 0x4E),
       Word(0x6C, 0x06, 0x95, 0xED), Word(0x1B, 0x01, 0xA5, 0x7B),
       Word(0x82, 0x08, 0xF4, 0xC1), Word(0xF5, 0x0F, 0xC4, 0x57),
       Word(0x65, 0xB0, 0xD9, 0xC6), Word(0x12, 0xB7, 0xE9, 0x50),
       Word(0x8B, 0xBE, 0xB8, 0xEA), Word(0xFC, 0xB9, 0x88, 0x7C),
       Word(0x62, 0xDD, 0x1D, 0xDF), Word(0x15, 0xDA, 0x2D, 0x49),
       Word(0x8C, 0xD3, 0x7C, 0xF3), Word(0xFB, 0xD4, 0x4C, 0x65)]
    case 6 =>
      [Word(0x4D, 0xB2, 0x61, 0x58), Word(0x3A, 0xB5, 0x51, 0xCE),
       Word(0xA3, 0xBC, 0x00, 0x74), Word(0xD4, 0xBB, 0x30, 0xE2),
       Word(0x4A, 0xDF, 0xA5, 0x41), Word(0x3D, 0xD8, 0x95, 0xD7),
       Word(0xA4, 0xD1, 0xC4, 0x6D), Word(0xD3, 0xD6, 0xF4, 0xFB),
       Word(0x43, 0x69, 0xE9, 0x6A), Word(0x34, 0x6E, 0xD9, 0xFC),
       Word(0xAD, 0x67, 0x88, 0x46), Word(0xDA, 0x60, 0xB8, 0xD0),
       Word(0x44, 0x04, 0x2D, 0x73), Word(0x33, 0x03, 0x1D, 0xE5),
       Word(0xAA, 0x0A, 0x4C, 0x5F), Word(0xDD, 0x0D, 0x7C, 0xC9)]
    case 7 =>
      [Word(0x50, 0x05, 0x71, 0x3C), Word(0x27, 0x02, 0x41, 0xAA),
       Word(0xBE, 0x0B, 0x10, 0x10), Word(0xC9, 0x0C, 0x20, 0x86),
       Word(0x57, 0x68, 0xB5, 0x25), Word(0x20, 0x6F, 0x85, 0xB3),
       Word(0xB9, 0x66, 0xD4, 0x09), Word(0xCE, 0x61, 0xE4, 0x9F),
       Word(0x5E, 0xDE, 0xF9, 0x0E), Word(0x29, 0xD9, 0xC9, 0x98),
       Word(0xB0, 0xD0, 0x98, 0x22), Word(0xC7, 0xD7, 0xA8, 0xB4),
       Word(0x59, 0xB3, 0x3D, 0x17), Word(0x2E, 0xB4, 0x0D, 0x81),
       Word(0xB7, 0xBD, 0x5C, 0x3B), Word(0xC0, 0xBA, 0x6C, 0xAD)]
    case 8 =>
      [Word(0xED, 0xB8, 0x83, 0x20), Word(0x9A, 0xBF, 0xB3, 0xB6),
       Word(0x03, 0xB6, 0xE2, 0x0C), Word(0x74, 0xB1, 0xD2, 0x9A),
       Word(0xEA, 0xD5, 0x47, 0x39), Word(0x9D, 0xD2, 0x77, 0xAF),
       Word(0x04, 0xDB, 0x26, 0x15), Word(0x73, 0xDC, 0x16, 0x83),
       Word(0xE3, 0x63, 0x0B, 0x12), Word(0x94, 0x64, 0x3B, 0x84),
       Word(0x0D, 0x6D, 0x6A, 0x3E), Word(0x7A, 0x6A, 0x5A, 0xA8),
       Word(0xE4, 0x0E, 0xCF, 0x0B), Word(0x93, 0x09, 0xFF, 0x9D),
       Word(0x0A, 0x00, 0xAE, 0x27), Word(0x7D, 0x07, 0x9E, 0xB1)]
    case 9 =>
      [Word(0xF0, 0x0F, 0x93, 0x44), Word(0x87, 0x08, 0xA3, 0xD2),
       Word(0x1E, 0x01, 0xF2, 0x68), Word(0x69, 0x06, 0xC2, 0xFE),
       Word(0xF7, 0x62, 0x57, 0x5D), Word(0x80, 0x65, 0x67, 0xCB),
       Word(0x19, 0x6C, 0x36, 0x71), Word(0x6E, 0x6B, 0x06, 0xE7),
       Word(0xFE, 0xD4, 0x1B, 0x76), Word(0x89, 0xD3, 0x2B, 0xE0),
       Word(0x10, 0xDA, 0x7A, 0x5A), Word(0x67, 0xDD, 0x4A, 0xCC),
       Word(0xF9, 0xB9, 0xDF, 0x6F), Word(0x8E, 0xBE, 0xEF, 0xF9),
       Word(0x17, 0xB7, 0xBE, 0x43), Word(0x60, 0xB0, 0x8E, 0xD5)]
    case 10 =>
      [Word(0xD6, 0xD6, 0xA3, 0xE8), Word(0xA1, 0xD1, 0x93, 0x7E),
       Word(0x38, 0xD8, 0xC2, 0xC4), Word(0x4F, 0xDF, 0xF2, 0x52),
       Word(0xD1, 0xBB, 0x67, 0xF1), Word(0xA6, 0xBC, 0x57, 0x67),
       Word(0x3F, 0xB5, 0x06, 0xDD), Word(0x48, 0xB2, 0x36, 0x4B),
       Word(0xD8, 0x0D, 0x2B, 0xDA), Word(0xAF, 0x0A, 0x1B, 0x4C),
       Word(0x36, 0x03, 0x4A, 0xF6), Word(0x41, 0x04, 0x7A, 0x60),
       Word(0xDF, 0x60, 0xEF, 0xC3), Word(0xA8, 0x67, 0xDF, 0x55),
       Word(0x31, 0x6E, 0x8E, 0xEF), Word(0x46, 0x69, 0xBE, 0x79)]
    case 11 =>
      [Word(0xCB, 0x61, 0xB3, 0x8C), Word(0xBC, 0x66, 0x83, 0x1A),
       Word(0x25, 0x6F, 0xD2, 0xA0), Word(0x52, 0x68, 0xE2, 0x36),
       Word(0xCC, 0x0C, 0x77, 0x95), Word(0xBB, 0x0B, 0x47, 0x03),
       Word(0x22, 0x02, 0x16, 0xB9), Word(0x55, 0x05, 0x26, 0x2F),
       Word(0xC5, 0xBA, 0x3B, 0xBE), Word(0xB2, 0xBD, 0x0B, 0x28),
       Word(0x2B, 0xB4, 0x5A, 0x92), Word(0x5C, 0xB3, 0x6A, 0x04),
       Word(0xC2, 0xD7, 0xFF, 0xA7), Word(0xB5, 0xD0, 0xCF, 0x31),
       Word(0x2C, 0xD9, 0x9E, 0x8B), Word(0x5B, 0xDE, 0xAE, 0x1D)]
    case 12 =>
      [Word(0x9B, 0x64, 0xC2, 0xB0), Word(0xEC, 0x63, 0xF2, 0x26),
       Word(0x75, 0x6A, 0xA3, 0x9C), Word(0x02, 0x6D, 0x93, 0x0A),
       Word(0x9C, 0x09, 0x06, 0xA9), Word(0xEB, 0x0E, 0x36, 0x3F),
       Word(0x72, 0x07, 0x67, 0x85), Word(0x05, 0x00, 0x57, 0x13),
       Word(0x95, 0xBF, 0x4A, 0x82), Word(0xE2, 0xB8, 0x7A, 0x14),
       Word(0x7B, 0xB1, 0x2B, 0xAE), Word(0x0C, 0xB6, 0x1B, 0x38),
       Word(0x92, 0xD2, 0x8E, 0x9B), Word(0xE5, 0xD5, 0xBE, 0x0D),
       Word(0x7C, 0xDC, 0xEF, 0xB7), Word(0x0B, 0xDB, 0xDF, 0x21)]
    case 13 =>
      [Word(0x86, 0xD3, 0xD2, 0xD4), Word(0xF1, 0xD4, 0xE2, 0x42),
       Word(0x68, 0xDD, 0xB3, 0xF8), Word(0x1F, 0xDA, 0x83, 0x6E),
       Word(0x81, 0xBE, 0x16, 0xCD), Word(0xF6, 0xB9, 0x26, 0x5B),
       Word(0x6F, 0xB0, 0x77, 0xE1), Word(0x18, 0xB7, 0x47, 0x77),
       Word(0x88, 0x08, 0x5A, 0xE6), Word(0xFF, 0x0F, 0x6A, 0x70),
       Word(0x66, 0x06, 0x3B, 0xCA), Word(0x11, 0x01, 0x0B, 0x5C),
       Word(0x8F, 0x65, 0x9E, 0xFF), Word(0xF8, 0x62, 0xAE, 0x69),
       Word(0x61, 0x6B, 0xFF, 0xD3), Word(0x16, 0x6C, 0xCF, 0x45)]
    case 14 =>
      [Word(0xA0, 0x0A, 0xE2, 0x78), Word(0xD7, 0x0D, 0xD2, 0xEE),
       Word(0x4E, 0x04, 0x83, 0x54), Word(0x39, 0x03, 0xB3, 0xC2),
       Word(0xA7, 0x67, 0x26, 0x61), Word(0xD0, 0x60, 0x16, 0xF7),
       Word(0x49, 0x69, 0x47, 0x4D), Word(0x3E, 0x6E, 0x77, 0xDB),
       Word(0xAE, 0xD1, 0x6A, 0x4A), Word(0xD9, 0xD6, 0x5A, 0xDC),
       Word(0x40, 0xDF, 0x0B, 0x66), Word(0x37, 0xD8, 0x3B, 0xF0),
       Word(0xA9, 0xBC, 0xAE, 0x53), Word(0xDE, 0xBB, 0x9E, 0xC5),
       Word(0x47, 0xB2, 0xCF, 0x7F), Word(0x30, 0xB5, 0xFF, 0xE9)]
    case _ =>
      [Word(0xBD, 0xBD, 0xF2, 0x1C), Word(0xCA, 0xBA, 0xC2, 0x8A),
       Word(0x53, 0xB3, 0x93, 0x30), Word(0x24, 0xB4, 0xA3, 0xA6),
       Word(0xBA, 0xD0, 0x36, 0x05), Word(0xCD, 0xD7, 0x06, 0x93),
       Word(0x54, 0xDE, 0x57, 0x29), Word(0x23, 0xD9, 0x67, 0xBF),
       Word(0xB3, 0x66, 0x7A, 0x2E), Word(0xC4, 0x61, 0x4A, 0xB8),
       Word(0x5D, 0x68, 0x1B, 0x02), Word(0x2A, 0x6F, 0x2B, 0x94),
       Word(0xB4, 0x0B, 0xBE, 0x37), Word(0xC3, 0x0C, 0x8E, 0xA1),
       Word(0x5A, 0x05, 0xDF, 0x1B), Word(0x2D, 0x02, 0xEF, 0x8D)]
  }

  function At(i: nat): Word
    requires i < 0x100
  {
    Row(i / 16)[i % 16]
  }

  /** crc32_table */
  function Table(): (table: seq<nat>)
    ensures |table| == 0x100
  {
    seq(0x100, (i: nat) requires i < 0x100 => At(i).Value())
  }

  predicate Right(i: nat, w: Word) {
    w.Value() == Steps(8, i)
  }

  lemma DoubleIndex(i: nat, n: nat)
    ensures Steps(n, i) == Step(Steps(n, 2 * i))
  {
    XorZero(i);
    assert Step(2 * i) == i;
    StepsLast(n + 1, 2 * i);
  }

  /** An entry is one step from the entry of the double index. */
  lemma HalfRight(i: nat, w: Word)
    requires Right(2 * i, w)
    ensures Right(i, w.Stepped())
  {
    hide Steps, Step, Joined, Nat;
    SteppedIsStep(w);
    DoubleIndex(i, 8);
  }

  /** Entries add up like their indices. */
  lemma SumRight(i: nat, j: nat, v: Word, w: Word)
    requires Right(i, v) && Right(j, w)
    ensures Right(Xor(i, j), v.Plus(w))
  {
    hide Steps, Xor, Joined;
    PlusIsXor(v, w);
    StepsXor(8, i, j);
  }

  /** The entry of 0x80 is the polynomial. */
  lemma TopRight()
    ensures Right(0x80, Row(8)[0])
  {
    hide Steps, Xor;
    assert Row(8)[0] == Word(0xED, 0xB8, 0x83, 0x20);
    PolyWord();
    TopSteps();
  }

  lemma TopSteps()
    ensures Steps(8, 0x80) == POLY
  {
    hide Steps, Xor;
    assert Pow2(7) == 0x80;
    StepsShift(7, 1);
    StepsLast(8, 0x80);
    XorZero(POLY);
  }

  /** The leading entry plus each of row 0. */
  function Sums(lead: Word, row: seq<Word>): seq<Word>
    requires |row| == 16
  {
    [lead.Plus(row[0]), lead.Plus(row[1]), lead.Plus(row[2]), lead.Plus(row[3]),
     lead.Plus(row[4]), lead.Plus(row[5]), lead.Plus(row[6]), lead.Plus(row[7]),
     lead.Plus(row[8]), lead.Plus(row[9]), lead.Plus(row[10]), lead.Plus(row[11]),
     lead.Plus(row[12]), lead.Plus(row[13]), lead.Plus(row[14]), lead.Plus(row[15])]
  }

  lemma Rows0To3()
    ensures Row(0) == Sums(Row(0)[0], Row(0))
    ensures Row(1) == Sums(Row(1)[0], Row(0))
    ensures Row(2) == Sums(Row(2)[0], Row(0))
    ensures Row(3) == Sums(Row(3)[0], Row(0))
  {
  }

  lemma Rows4To7()
    ensures Row(4) == Sums(Row(4)[0], Row(0))
    ensures Row(5) == Sums(Row(5)[0], Row(0))
    ensures Row(6) == Sums(Row(6)[0], Row(0))
    ensures Row(7) == Sums(Row(7)[0], Row(0))
  {
  }

  lemma Rows8To11()
    ensures Row(8) == Sums(Row(8)[0], Row(0))
    ensures Row(9) == Sums(Row(9)[0], Row(0))
    ensures Row(10) == Sums(Row(10)[0], Row(0))
    ensures Row(11) == Sums(Row(11)[0], Row(0))
  {
  }

  lemma Rows12To15()
    ensures Row(12) == Sums(Row(12)[0], Row(0))
    ensures Row(13) == Sums(Row(13)[0], Row(0))
    ensures Row(14) == Sums(Row(14)[0], Row(0))
    ensures Row(15) == Sums(Row(15)[0], Row(0))
  {
  }

  lemma RowIsSums(r: nat)
    requires r < 16
    ensures Row(r) == Sums(Row(r)[0], Row(0))
  {
    hide Row, Sums;
    Rows0To3();
    Rows4To7();
    Rows8To11();
    Rows12To15();
  }

  /** Sixteen entries add up like the bits of their positions. */
  predicate Additive(a: seq<Word>)
    requires |a| == 16
  {
    && a[3] == a[2].Plus(a[1])
    && a[5] == a[4].Plus(a[1])
    && a[6] == a[4].Plus(a[2])
    && a[7] == a[4].Plus(a[3])
    && a[9] == a[8].Plus(a[1])
    && a[10] == a[8].Plus(a[2])
    && a[11] == a[8].Plus(a[3])
    && a[12] == a[8].Plus(a[4])
    && a[13] == a[8].Plus(a[5])
    && a[14] == a[8].Plus(a[6])
    && a[15] == a[8].Plus(a[7])
  }

  /** The index that has the bits of `c` from bit `k` on. */
  function Spread(c: nat, k: nat): nat {
    c * Pow2(k)
  }

  lemma SpreadIs(c: nat)
    ensures Spread(c, 0) == c && Spread(c, 4) == c * 0x10
  {
    hide Pow2;
    SmallPowers();
  }

  lemma SumAt(c: nat, d: nat, e: nat, k: nat, v: Word, w: Word)
    requires Right(Spread(c, k), v) && Right(Spread(d, k), w) && Xor(c, d) == e
    ensures Right(Spread(e, k), v.Plus(w))
  {
    hide Xor, Pow2, Right, Word.Plus;
    SumRight(Spread(c, k), Spread(d, k), v, w);
    XorShifted(c, d, k);
  }

  lemma SmallXors()
    ensures Xor(2, 1) == 3 && Xor(4, 1) == 5 && Xor(4, 2) == 6 && Xor(4, 3) == 7
    ensures Xor(8, 1) == 9 && Xor(8, 2) == 10 && Xor(8, 3) == 11 && Xor(8, 4) == 12
    ensures Xor(8, 5) == 13 && Xor(8, 6) == 14 && Xor(8, 7) == 15
  {
    hide Xor, Pow2;
    SmallPowers();
    XorDisjoint(1, 1, 1);
    XorDisjoint(1, 1, 2);
    XorDisjoint(1, 2, 2);
    XorDisjoint(1, 3, 2);
    XorDisjoint(1, 1, 3);
    XorDisjoint(1, 2, 3);
    XorDisjoint(1, 3, 3);
    XorDisjoint(1, 4, 3);
    XorDisjoint(1, 5, 3);
    XorDisjoint(1, 6, 3);
    XorDisjoint(1, 7, 3);
  }

  /** Entries at distance `Pow2(k)` are right if they add up and those of single bits are right. */
  lemma FilledIn(a: seq<Word>, k: nat)
    requires |a| == 16 && Additive(a) && Right(Spread(0, k), a[0]) && Right(Spread(1, k), a[1])
    requires Right(Spread(2, k), a[2]) && Right(Spread(4, k), a[4]) && Right(Spread(8, k), a[8])
    ensures forall c: nat :: c < 16 ==> Right(Spread(c, k), a[c])
  {
    hide Xor, Spread, Right, Word.Plus;
    SmallXors();
    SumAt(2, 1, 3, k, a[2], a[1]);
    SumAt(4, 1, 5, k, a[4], a[1]);
    SumAt(4, 2, 6, k, a[4], a[2]);
    SumAt(4, 3, 7, k, a[4], a[3]);
    SumAt(8, 1, 9, k, a[8], a[1]);
    SumAt(8, 2, 10, k, a[8], a[2]);
    SumAt(8, 3, 11, k, a[8], a[3]);
    SumAt(8, 4, 12, k, a[8], a[4]);
    SumAt(8, 5, 13, k, a[8], a[5]);
    SumAt(8, 6, 14, k, a[8], a[6]);
    SumAt(8, 7, 15, k, a[8], a[7]);
  }

  /** The first entries of the rows. */
  function Leads(): (leads: seq<Word>)
    ensures |leads| == 16
    ensures forall r: nat :: r < 16 ==> leads[r] == Row(r)[0]
  {
    [Row(0)[0], Row(1)[0], Row(2)[0], Row(3)[0], Row(4)[0], Row(5)[0], Row(6)[0], Row(7)[0],
     Row(8)[0], Row(9)[0], Row(10)[0], Row(11)[0], Row(12)[0], Row(13)[0], Row(14)[0], Row(15)[0]]
  }

  lemma RowAddsUp()
    ensures Additive(Row(0)) && Row(0)[0].Value() == 0
  {
  }

  lemma LeadsAddUp()
    ensures Additive(Leads())
  {
  }

  lemma BitsStep()
    ensures Row(8)[0].Stepped() == Row(4)[0] && Row(4)[0].Stepped() == Row(2)[0]
    ensures Row(2)[0].Stepped() == Row(1)[0] && Row(1)[0].Stepped() == Row(0)[8]
    ensures Row(0)[8].Stepped() == Row(0)[4] && Row(0)[4].Stepped() == Row(0)[2] && Row(0)[2].Stepped() == Row(0)[1]
  {
  }

  /** The entries of single bits, each a step from the next. */
  lemma BitsRight()
    ensures Right(0x40, Row(4)[0]) && Right(0x20, Row(2)[0]) && Right(0x10, Row(1)[0])
    ensures Right(8, Row(0)[8]) && Right(4, Row(0)[4]) && Right(2, Row(0)[2]) && Right(1, Row(0)[1])
  {
    hide Row, Right, Word.Stepped;
    TopRight();
    BitsStep();
    HalfRight(0x40, Row(8)[0]);
    HalfRight(0x20, Row(4)[0]);
    HalfRight(0x10, Row(2)[0]);
    HalfRight(8, Row(1)[0]);
    HalfRight(4, Row(0)[8]);
    HalfRight(2, Row(0)[4]);
    HalfRight(1, Row(0)[2]);
  }

  lemma {:induction false} NoSteps(n: nat)
    ensures Steps(n, 0) == 0
  {
    XorZero(0);
    if n > 0 {
      NoSteps(n - 1);
    }
  }

  lemma ZeroRight()
    ensures Right(0, Row(0)[0])
  {
    hide Row, Steps;
    RowAddsUp();
    NoSteps(8);
  }

  lemma RowRight(c: nat)
    requires c < 16
    ensures Right(c, Row(0)[c])
  {
    hide Row, Right, Additive, Spread;
    SpreadIs(0);
    SpreadIs(1);
    SpreadIs(2);
    SpreadIs(4);
    SpreadIs(8);
    SpreadIs(c);
    RowAddsUp();
    BitsRight();
    ZeroRight();
    FilledIn(Row(0), 0);
  }

  lemma LeadRight(r: nat)
    requires r < 16
    ensures Right(r * 0x10, Row(r)[0])
  {
    hide Row, Right, Additive, Spread, Leads;
    SpreadIs(0);
    SpreadIs(1);
    SpreadIs(2);
    SpreadIs(4);
    SpreadIs(8);
    SpreadIs(r);
    LeadsAddUp();
    BitsRight();
    TopRight();
    ZeroRight();
    FilledIn(Leads(), 4);
  }

  /** Every entry is eight steps of the register of the reflected polynomial. */
  lemma EntryRight(i: nat)
    requires i < 0x100
    ensures At(i).Value() == Steps(8, i)
  {
    hide Row, Steps, Pow2, Xor, Sums;
    var r, c := i / 16, i % 16;
    RowIsSums(r);
    LeadRight(r);
    RowRight(c);
    SumRight(r * 0x10, c, Row(r)[0], Row(0)[c]);
    SmallPowers();
    XorDisjoint(r, c, 4);
    SumsAt(Row(r)[0], Row(0), c);
  }

  lemma SumsAt(lead: Word, row: seq<Word>, c: nat)
    requires |row| == 16 && c < 16
    ensures Sums(lead, row)[c] == lead.Plus(row[c])
  {
    hide Word.Plus;
  }

  /** The literal table is that of the polynomial. */
  lemma TableIsSteps()
    ensures IsTable(Table())
  {
    forall i: nat | i < 0x100
      ensures Table()[i] == Steps(8, i)
    {
      EntryRight(i);
    }
  }

  // -------------------------------------------------------------------------
  // The checksum

  /** encoding_crc32 */
  method EncodingCrc32(crc0: nat, buffer: seq<u8>) returns (crc: nat)
    ensures crc == Crc32(crc0, buffer)
  {
    hide Row, Steps, Xor, Register, Table;
    TableIsSteps();
    var table := Table();
    crc := Xor(crc0, ONES);
    NoBytes(crc, buffer[..0]);
    var p := 0;
    while p < |buffer|
      invariant 0 <= p <= |buffer| && crc == Register(Xor(crc0, ONES), buffer[..p])
    {
      RegisterOneMore(Xor(crc0, ONES), buffer, p);
      TableStep(crc, buffer[p]);
      XorCommutes(table[Xor(crc % 0x100, buffer[p] as nat)], crc / 0x100);
      crc := Xor(table[Xor(crc % 0x100, buffer[p] as nat)], crc / 0x100);
      p := p + 1;
    }
    assert buffer[..p] == buffer;
    crc := Xor(crc, ONES);
  }
}
