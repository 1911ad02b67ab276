/** A block load with the right dxt leaves TMEM as the tile load of the same image does. */
module BlockTile {
  import opened Arith
  import opened BlockLoad
  import opened Convert
  import opened Dxt
  import opened Machine
  import opened TileLoad

  /** TMEM after gDPLoadBlock's branch for 4, 8 and 16-bit tiles: one copy, then the dxt loop. */
  ghost function BlockLoaded(tm: seq<u8>, rdram: Rdram, a: nat, t: nat, qwords: nat, dxt: nat): (r: seq<u8>)
    requires |tm| == 4096 && a + 8 * qwords <= |rdram|
    ensures |r| == 4096
  {
    LinesSwapped(Copied(tm, 8 * t, rdram, a, 8 * qwords), t, OddLines(dxt), qwords)
  }

  /** The copy of gDPLoadBlock, and its dxt loop when dxt is not zero. */
  method LoadQwords(rdram: Rdram, tmem: array<u8>, address: nat, tmemAddr: nat, bytes: nat, dxt: nat)
    requires tmem.Length == 4096 && bytes > 0 && bytes % 8 == 0 && address + bytes <= |rdram|
    modifies tmem
    ensures tmem[..] == if dxt == 0 then Copied(old(tmem[..]), 8 * tmemAddr, rdram, address, bytes)
                        else BlockLoaded(old(tmem[..]), rdram, address, tmemAddr, bytes / 8, dxt)
  {
    UnswapCopyWrap(rdram, address, tmem, 8 * tmemAddr, bytes);
    if dxt != 0 {
      InterleaveOddLines(tmem, tmemAddr, dxt, bytes / 8);
    }
  }

  // -------------------------------------------------------------------------
  // Every byte after a block load

  /** Until the block laps TMEM, byte `p` of a selected qword comes from `p ^ 4`. */
  lemma LinesSwappedAt(mem: seq<u8>, t: nat, odd: nat -> bool, n: nat, p: nat, k: nat)
    requires |mem| == 4096 && p < 4096 && n <= 512 && k == (p / 8 - t) % 512
    ensures Xor4(p) < 4096
    ensures LinesSwapped(mem, t, odd, n)[p] == if k < n && odd(k) then mem[Xor4(p)] else mem[p]
  {
    SameQword(p);
    SelectedQword(mem, t, odd, n, p, Xor4(p), p / 8, k);
  }

  lemma {:induction false} SelectedQword(mem: seq<u8>, t: nat, odd: nat -> bool, n: nat, p: nat, x: nat, w: nat, k: nat)
    requires |mem| == 4096 && n <= 512 && p < 4096 && x == Xor4(p) && p == Xor4(x) && w == p / 8 == x / 8
    requires w < 512 && k == (w - t) % 512
    ensures x < 4096
    ensures LinesSwapped(mem, t, odd, n)[p] == if k < n && odd(k) then mem[x] else mem[p]
  {
    if n > 0 {
      SelectedQword(mem, t, odd, n - 1, p, x, w, k);
      SelectedQword(mem, t, odd, n - 1, x, p, w, k);
      SelectedStep(LinesSwapped(mem, t, odd, n - 1), LinesSwapped(mem, t, odd, n), mem, t, odd, n, p, x, w, k);
    }
  }

  lemma SelectedStep(before: seq<u8>, after: seq<u8>, mem: seq<u8>, t: nat, odd: nat -> bool, n: nat, p: nat, x: nat,
                     w: nat, k: nat)
    requires |mem| == 4096 && 0 < n <= 512 && p < 4096 && x == Xor4(p) && p == Xor4(x) && w == p / 8 == x / 8
    requires w < 512 && k == (w - t) % 512 && x < 4096
    requires before == LinesSwapped(mem, t, odd, n - 1) && after == LinesSwapped(mem, t, odd, n)
    ensures after[p] == if k == n - 1 && odd(k) then before[x] else before[p]
  {
    WrappedQword(w, t, n - 1);
    if odd(n - 1) {
      QwordSwappedAt(before, after, (t + n - 1) % 512, p);
    }
  }

  lemma BlockLoadedAt(tm: seq<u8>, rdram: Rdram, a: nat, t: nat, qwords: nat, dxt: nat, p: nat, e: nat)
    requires |tm| == 4096 && a + 8 * qwords <= |rdram| && qwords <= 512 && p < 4096 && e == (p - 8 * t) % 4096
    ensures var from := if OddLines(dxt)(e / 8) then Xor4(e) else e;
      e < 8 * qwords ==> from < 8 * qwords && BlockLoaded(tm, rdram, a, t, qwords, dxt)[p] == ByteAt(rdram, a + from)
    ensures e >= 8 * qwords ==> BlockLoaded(tm, rdram, a, t, qwords, dxt)[p] == tm[p]
  {
    hide Copied, LinesSwapped, OddLines, ByteAt;
    OffsetOfQword(p, t, e);
    OffsetOfMirror(p, t, e);
    HalfOffset(e, qwords);
    LinesSwappedAt(Copied(tm, 8 * t, rdram, a, 8 * qwords), t, OddLines(dxt), qwords, p, e / 8);
    CopiedAt(tm, 8 * t, rdram, a, 8 * qwords, p, e);
    CopiedAt(tm, 8 * t, rdram, a, 8 * qwords, Xor4(p), Xor4(e));
    MirrorBelow(e, qwords);
  }

  // -------------------------------------------------------------------------
  // The line counter against division

  /** What rounding 2048 / w up costs over a whole line. */
  function Excess(w: nat): int {
    w * CalculateDXT(w) - 2048
  }

  lemma ExcessNonNegative(w: nat)
    requires w >= 1
    ensures Excess(w) >= 0 && 1 <= CalculateDXT(w) <= 2048
  {
    var dxt := CalculateDXT(w);
    QuotientBounds(2047 + w, w);
    assert w * dxt == dxt * w;
    AtMostQuotient(1, 2047 + w, w);
    AtMostQuotient(2049, 2047 + w, w);
    assert 2049 * w == 2048 * w + w;
  }

  /** The counter's line number of qword `k`. */
  function CountedLine(w: nat, k: nat): nat {
    k * CalculateDXT(w) / 2048
  }

  /** The counted line is right exactly while the accumulated excess stays below the words left in the line. */
  lemma CountedLineRight(w: nat, y: nat, r: nat)
    requires r < w
    ensures var k := w * y + r;
      CountedLine(w, k) >= y && (CountedLine(w, k) == y <==> Excess(w) * k < 2048 * (w - r))
  {
    var k, dxt, e := w * y + r, CalculateDXT(w), Excess(w);
    hide CalculateDXT;
    ExcessNonNegative(w);
    var d := k * dxt - 2048 * y;
    Accumulated(w, y, r, k, dxt, e, d);
    CountedIs(y, k * dxt, d);
    if d < 2048 {
      MulMonotone(w, d, 2047);
    } else {
      MulMonotone(w, 2048, d);
    }
  }

  /**
   * What the counter is ahead of the line's start, times the line's length: the excess so far and the place in the
   * line.
   */
  lemma Accumulated(w: nat, y: nat, r: nat, k: nat, dxt: nat, e: nat, d: int)
    requires w >= 1 && k == w * y + r && w * dxt == 2048 + e && d == k * dxt - 2048 * y
    ensures w * d == e * k + 2048 * r && d >= 0
  {
    assert w * (k * dxt) == k * (w * dxt);
    assert k * (2048 + e) == 2048 * k + e * k;
    assert w * (2048 * y) == 2048 * (w * y);
    assert w * d == w * (k * dxt) - w * (2048 * y);
    FactorNonNegative(w, d);
  }

  lemma CountedIs(y: nat, x: nat, d: nat)
    requires x == 2048 * y + d
    ensures x / 2048 >= y && (x / 2048 == y <==> d < 2048)
  {
    DivisionUnique(2048, y + d / 2048, d % 2048, x / 2048, x % 2048);
  }

  lemma FactorNonNegative(w: nat, d: int)
    requires w >= 1 && w * d >= 0
    ensures d >= 0
  {
  }

  /** The bound under which the counter never runs ahead within the first `n` qwords. */
  predicate ExcessFits(w: nat, n: nat) {
    (n - 1) * Excess(w) < 2048
  }

  /** Below the bound, qword `r` of line `y` is counted into line `y`. */
  lemma CountedRight(w: nat, n: nat, y: nat, r: nat)
    requires r < w && w * y + r < n && ExcessFits(w, n)
    ensures CountedLine(w, w * y + r) == y
  {
    var k := w * y + r;
    ExcessNonNegative(w);
    CountedLineRight(w, y, r);
    MulMonotone(Excess(w), k, n - 1);
    MulMonotone(2048, 1, w - r);
    assert Excess(w) * (n - 1) == (n - 1) * Excess(w);
  }

  /** Beyond it, some qword of the image is counted into the line after its own, so its parity is wrong. */
  lemma CountedWrong(w: nat, h: nat) returns (y: nat, r: nat)
    requires w >= 1 && h >= 1 && !ExcessFits(w, w * h)
    ensures r < w && y < h && CountedLine(w, w * y + r) == y + 1
  {
    y, r := h - 1, w - 1;
    assert w * h == w * y + w;
    CountedLineRight(w, y, r);
    assert Excess(w) * (w * y + r) == (w * h - 1) * Excess(w);
    // walk back to the first qword that is counted wrongly
    while CountedLine(w, w * y + r) != y + 1
      invariant r < w && y < h && CountedLine(w, w * y + r) > y
      decreases y, r
    {
      ExcessNonNegative(w);
      NotFirst(w, y, r);
      CountedStep(w, w * y + r);
      if r > 0 {
        r := r - 1;
      } else {
        y, r := y - 1, w - 1;
        assert w * y + w == w * (y + 1);
      }
    }
  }

  lemma NotFirst(w: nat, y: nat, r: nat)
    requires CountedLine(w, w * y + r) > 0
    ensures w * y + r > 0 && (r == 0 ==> y > 0)
  {
    assert w * 0 == 0;
  }

  lemma CountedStep(w: nat, k: nat)
    requires w >= 1 && k >= 1
    ensures CountedLine(w, k - 1) >= CountedLine(w, k) - 1
  {
    ExcessNonNegative(w);
    assert (k - 1) * CalculateDXT(w) == k * CalculateDXT(w) - CalculateDXT(w);
  }

  // -------------------------------------------------------------------------
  // Block load equals tile load

  /** The tile load of a contiguous image of `w` qwords a line. */
  function Contiguous(a: nat, t: nat, w: nat): Plan {
    Plan(a, 8 * w, t, w, 8 * w)
  }

  lemma ContiguousReadable(rdram: Rdram, a: nat, t: nat, w: nat, h: nat)
    requires a + 8 * (w * h) < |rdram|
    ensures Contiguous(a, t, w).Readable(rdram, h)
    ensures forall y :: 0 <= y < h ==>
      Contiguous(a, t, w).Bytes(|rdram| - 1, y) == 8 * w && Contiguous(a, t, w).Address(y) == a + 8 * (w * y)
  {
    var plan := Contiguous(a, t, w);
    forall y | 0 <= y < h
      ensures plan.RowReadable(rdram, y) && plan.Bytes(|rdram| - 1, y) == 8 * w && plan.Address(y) == a + 8 * (w * y)
    {
      MulMonotone(w, y + 1, h);
      assert w * (y + 1) == w * y + w && y * (8 * w) == 8 * (w * y);
    }
  }

  /** An image of `h` lines of `w` qwords lies inside RDRAM and fits TMEM. */
  ghost predicate Fits(tm: seq<u8>, rdram: Rdram, a: nat, w: nat, h: nat) {
    |tm| == 4096 && a + 8 * (w * h) < |rdram| && w * h <= 512
  }

  /** TMEM after its tile load. */
  ghost function TileTmem(tm: seq<u8>, rdram: Rdram, a: nat, t: nat, w: nat, h: nat): (r: seq<u8>)
    requires Fits(tm, rdram, a, w, h)
    ensures |r| == 4096
  {
    ContiguousReadable(rdram, a, t, w, h);
    RowsLoaded(tm, rdram, Contiguous(a, t, w), h)
  }

  /** TMEM after its block load. */
  ghost function BlockTmem(tm: seq<u8>, rdram: Rdram, a: nat, t: nat, w: nat, h: nat): (r: seq<u8>)
    requires Fits(tm, rdram, a, w, h)
    ensures |r| == 4096
  {
    BlockLoaded(tm, rdram, a, t, w * h, CalculateDXT(w))
  }

  lemma QwordInImage(w: nat, h: nat, y: nat, r: nat)
    requires y < h && r < w
    ensures w * y + r < w * h
  {
    MulMonotone(w, y + 1, h);
    assert w * (y + 1) == w * y + w;
  }

  /** What the tile load puts at byte `b` of qword `r` of line `y`. */
  lemma TileByte(tm: seq<u8>, rdram: Rdram, a: nat, t: nat, w: nat, h: nat, y: nat, r: nat, b: nat, p: nat)
    requires Fits(tm, rdram, a, w, h) && y < h && r < w && b < 8 && p < 4096
    requires (p - 8 * t) % 4096 == 8 * (w * y + r) + b
    ensures w * y + r < w * h
    ensures TileTmem(tm, rdram, a, t, w, h)[p] == ByteAt(rdram, a + 8 * (w * y + r) + if y % 2 == 1 then Xor4(b) else b)
  {
    QwordInImage(w, h, y, r);
    ContiguousReadable(rdram, a, t, w, h);
    RowsLoadedAt(tm, rdram, Contiguous(a, t, w), h, y, p, 8 * r + b);
    HeldByte(tm, TileTmem(tm, rdram, a, t, w, h), rdram, a, t, w, y, r, b, p);
  }

  lemma HeldByte(tm: seq<u8>, tm': seq<u8>, rdram: Rdram, a: nat, t: nat, w: nat, y: nat, r: nat, b: nat, p: nat)
    requires |tm| == |tm'| == 4096 && p < 4096 && Xor4(p) < 4096 && r < w && b < 8
    requires a + 8 * (w * y + r) + 8 <= |rdram|
    requires var plan := Contiguous(a, t, w);
      && plan.RowReadable(rdram, y) && plan.Bytes(|rdram| - 1, y) == 8 * w && plan.Address(y) == a + 8 * (w * y)
      && HoldsRow(tm, tm', rdram, plan, y, p, 8 * r + b)
    ensures tm'[p] == ByteAt(rdram, a + 8 * (w * y + r) + if y % 2 == 1 then Xor4(b) else b)
  {
    MirrorInRow(r, b);
    MirrorBelow(b, 1);
    DivisionIs(8 * w, 8, w, 0);
  }

  /** What the block load puts there. */
  lemma BlockByte(tm: seq<u8>, rdram: Rdram, a: nat, t: nat, w: nat, h: nat, q: nat, b: nat, p: nat, from: nat)
    requires Fits(tm, rdram, a, w, h) && q < w * h && b < 8 && p < 4096 && (p - 8 * t) % 4096 == 8 * q + b
    requires from == if CountedLine(w, q) % 2 == 1 then Xor4(b) else b
    ensures from < 8 && a + 8 * q + from < |rdram|
    ensures BlockTmem(tm, rdram, a, t, w, h)[p] == ByteAt(rdram, a + 8 * q + from)
  {
    hide BlockLoaded, OddLines, CalculateDXT;
    MirrorInRow(q, b);
    OddLineIsBit11(CalculateDXT(w), q);
    BlockLoadedAt(tm, rdram, a, t, w * h, CalculateDXT(w), p, 8 * q + b);
  }

  /** Within the bound, block load and tile load agree on every byte of TMEM. */
  lemma BytesAgree(tm: seq<u8>, rdram: Rdram, a: nat, t: nat, w: nat, h: nat, p: nat)
    requires Fits(tm, rdram, a, w, h) && w >= 1 && h >= 1 && ExcessFits(w, w * h) && p < 4096
    ensures BlockTmem(tm, rdram, a, t, w, h)[p] == TileTmem(tm, rdram, a, t, w, h)[p]
  {
    hide BlockTmem, TileTmem;
    var e := (p - 8 * t) % 4096;
    HalfOffset(e, w * h);
    if e / 8 < w * h {
      LineOf(w, h, e / 8);
      LoadedBytesAgree(tm, rdram, a, t, w, h, e / 8 / w, e / 8 % w, e % 8, p);
    } else {
      OtherBytesAgree(tm, rdram, a, t, w, h, p, e);
    }
  }

  lemma LoadedBytesAgree(tm: seq<u8>, rdram: Rdram, a: nat, t: nat, w: nat, h: nat, y: nat, r: nat, b: nat, p: nat)
    requires Fits(tm, rdram, a, w, h) && ExcessFits(w, w * h) && p < 4096 && y < h && r < w && b < 8
    requires (p - 8 * t) % 4096 == 8 * (w * y + r) + b
    ensures BlockTmem(tm, rdram, a, t, w, h)[p] == TileTmem(tm, rdram, a, t, w, h)[p]
  {
    hide BlockTmem, TileTmem, ExcessFits;
    var q := w * y + r;
    QwordInImage(w, h, y, r);
    CountedRight(w, w * h, y, r);
    TileByte(tm, rdram, a, t, w, h, y, r, b, p);
    BlockByte(tm, rdram, a, t, w, h, q, b, p, if CountedLine(w, q) % 2 == 1 then Xor4(b) else b);
  }

  lemma OtherBytesAgree(tm: seq<u8>, rdram: Rdram, a: nat, t: nat, w: nat, h: nat, p: nat, e: nat)
    requires Fits(tm, rdram, a, w, h) && w >= 1 && h >= 1 && p < 4096 && e == (p - 8 * t) % 4096 && e >= 8 * (w * h)
    ensures BlockTmem(tm, rdram, a, t, w, h)[p] == TileTmem(tm, rdram, a, t, w, h)[p]
  {
    BlockLoadedAt(tm, rdram, a, t, w * h, CalculateDXT(w), p, e);
    ContiguousReadable(rdram, a, t, w, h);
    RowsFrame(tm, rdram, Contiguous(a, t, w), h, p, e);
  }

  lemma BlockIsTile(tm: seq<u8>, rdram: Rdram, a: nat, t: nat, w: nat, h: nat)
    requires Fits(tm, rdram, a, w, h) && w >= 1 && h >= 1 && ExcessFits(w, w * h)
    ensures BlockTmem(tm, rdram, a, t, w, h) == TileTmem(tm, rdram, a, t, w, h)
  {
    forall p | 0 <= p < 4096
      ensures BlockTmem(tm, rdram, a, t, w, h)[p] == TileTmem(tm, rdram, a, t, w, h)[p]
    {
      BytesAgree(tm, rdram, a, t, w, h, p);
    }
  }

  lemma LineOf(w: nat, h: nat, k: nat)
    requires w >= 1 && k < w * h
    ensures k / w < h && k % w < w && w * (k / w) + k % w == k
  {
    QuotientBounds(k, w);
    AtMostQuotient(h, k, w);
  }

  /** RDRAM for `qwords` qwords whose N64 bytes differ between the two halves of each. */
  function Numbered(qwords: nat): (rdram: Rdram)
    ensures |rdram| == 8 * qwords + 4
  {
    var s: seq<u8> := seq(8 * qwords + 4, i requires i >= 0 => (i % 8) as u8);
    assert IsRdram(s) by { DivisionIs(8 * qwords + 4, 4, 2 * qwords + 1, 0); }
    s
  }

  function Cleared(bytes: nat): (tm: seq<u8>)
    ensures |tm| == bytes
  {
    seq(bytes, i => 0)
  }

  lemma NumberedHalves(qwords: nat, q: nat)
    requires q < qwords
    ensures ByteAt(Numbered(qwords), 8 * q) != ByteAt(Numbered(qwords), 8 * q + 4)
  {
    DivisionIs(8 * q, 4, 2 * q, 0);
    DivisionIs(8 * q + 4, 4, 2 * q + 1, 0);
    DivisionIs(8 * q + 3, 8, q, 3);
    DivisionIs(8 * q + 7, 8, q, 7);
    assert Numbered(qwords)[8 * q + 3] == 3 && Numbered(qwords)[8 * q + 7] == 7;
  }

  /** Beyond it, some image is loaded differently. */
  lemma BlockIsNotTile(tm: seq<u8>, t: nat, w: nat, h: nat)
    requires w >= 1 && h >= 1 && !ExcessFits(w, w * h) && Fits(tm, Numbered(w * h), 0, w, h)
    ensures BlockTmem(tm, Numbered(w * h), 0, t, w, h) != TileTmem(tm, Numbered(w * h), 0, t, w, h)
  {
    var y, r := CountedWrong(w, h);
    var q, n, p := w * y + r, w * h, (8 * t + 8 * (w * y + r)) % 4096;
    QwordInImage(w, h, y, r);
    QwordPlace(t, q);
    NumberedHalves(n, q);
    HalvesDiffer(tm, Numbered(n), t, w, h, y, r, q, p);
  }

  lemma QwordPlace(t: nat, q: nat)
    requires q < 512
    ensures ((8 * t + 8 * q) % 4096 - 8 * t) % 4096 == 8 * q
  {
    Wrapped((8 * t + 8 * q) % 4096, 8 * t, 8 * q);
  }

  lemma HalvesDiffer(tm: seq<u8>, rdram: Rdram, t: nat, w: nat, h: nat, y: nat, r: nat, q: nat, p: nat)
    requires Fits(tm, rdram, 0, w, h) && y < h && r < w && q == w * y + r < w * h && p < 4096
    requires (p - 8 * t) % 4096 == 8 * q && CountedLine(w, q) == y + 1
             && ByteAt(rdram, 8 * q) != ByteAt(rdram, 8 * q + 4)
    ensures BlockTmem(tm, rdram, 0, t, w, h)[p] != TileTmem(tm, rdram, 0, t, w, h)[p]
  {
    TileByte(tm, rdram, 0, t, w, h, y, r, 0, p);
    BlockByte(tm, rdram, 0, t, w, h, q, 0, p, if CountedLine(w, q) % 2 == 1 then 4 else 0);
    OtherHalf(rdram, q, y, y + 1);
  }

  lemma OtherHalf(rdram: Rdram, q: nat, y: nat, y': nat)
    requires 8 * q + 8 <= |rdram| && y' == y + 1 && ByteAt(rdram, 8 * q) != ByteAt(rdram, 8 * q + 4)
    ensures ByteAt(rdram, 0 + 8 * q + if y % 2 == 1 then Xor4(0) else 0)
         != ByteAt(rdram, 0 + 8 * q + if y' % 2 == 1 then Xor4(0) else 0)
  {
    assert Xor4(0) == 4;
  }

  /** Both loads of an image give the same TMEM, whatever TMEM and RDRAM hold. */
  ghost predicate LoadsAgree(t: nat, w: nat, h: nat) {
    forall tm: seq<u8>, rdram: Rdram, a: nat | Fits(tm, rdram, a, w, h) ::
      BlockTmem(tm, rdram, a, t, w, h) == TileTmem(tm, rdram, a, t, w, h)
  }

  lemma LoadsDisagree(t: nat, w: nat, h: nat)
    requires w >= 1 && h >= 1 && w * h <= 512 && !ExcessFits(w, w * h)
    ensures !LoadsAgree(t, w, h)
  {
    var tm, rdram := Cleared(4096), Numbered(w * h);
    assert Fits(tm, rdram, 0, w, h);
    BlockIsNotTile(tm, t, w, h);
  }

  /**
   * For every image of `h` lines of `w` qwords that fits TMEM: loading it as a block with dxt = CalculateDXT(w) and as
   * a tile with line = w give the same TMEM if and only if the counter's accumulated rounding error (w * h - 1) * (w *
   * dxt - 2048) stays below 2048.
   */
  lemma BlockIsTileExactly(t: nat, w: nat, h: nat)
    requires w >= 1 && h >= 1 && w * h <= 512
    ensures LoadsAgree(t, w, h) <==> ExcessFits(w, w * h)
  {
    if ExcessFits(w, w * h) {
      forall tm: seq<u8>, rdram: Rdram, a: nat | Fits(tm, rdram, a, w, h)
        ensures BlockTmem(tm, rdram, a, t, w, h) == TileTmem(tm, rdram, a, t, w, h)
      {
        BlockIsTile(tm, rdram, a, t, w, h);
      }
    } else {
      LoadsDisagree(t, w, h);
    }
  }
}
