/** gDPLoadTile and gDPSetTileSize of GLideN64/src/gDP.cpp for 4, 8 and 16-bit tiles, and what they leave in TMEM. */
module TileLoad {
  import opened Arith
  import opened Convert
  import opened Machine

  /** Where the rows of a load come from and where they go; one row every `stride` bytes, one every `line` qwords. */
  datatype Plan = Plan(address: nat, stride: nat, tmem: nat, line: nat, rowBytes: nat)
  {
    function Address(y: nat): nat {
      address + y * stride
    }

    function Qword(y: nat): nat {
      tmem + line * y
    }

    /** A row that would reach past the end of RDRAM is cut; `rdramSize` is the last valid address. */
    function Bytes(rdramSize: nat, y: nat): int {
      if Address(y) + 8 * line > rdramSize then rdramSize - Address(y) else rowBytes
    }

    ghost predicate RowReadable(rdram: Rdram, y: nat) {
      |rdram| > 0 && 0 <= Bytes(|rdram| - 1, y) && Address(y) + Bytes(|rdram| - 1, y) <= |rdram|
    }

    /** The first `rows` rows can be read. */
    ghost predicate Readable(rdram: Rdram, rows: nat) {
      forall y :: 0 <= y < rows ==> RowReadable(rdram, y)
    }
  }

  // -------------------------------------------------------------------------
  // One row

  /** TMEM after one row: the copy, and on odd rows the exchange of 32-bit halves in its whole qwords. */
  ghost function RowLoaded(tm: seq<u8>, rdram: Rdram, a: nat, q: nat, bytes: nat, odd: bool, qwords: nat): (r: seq<u8>)
    requires |tm| == 4096 && a + bytes <= |rdram|
    ensures |r| == 4096
  {
    var c := Copied(tm, 8 * q, rdram, a, bytes);
    if odd then Interleaved(c, 2 * q, qwords) else c
  }

  /** The byte of its row that ends up at offset `k`. */
  function Source(odd: bool, qwords: nat, k: nat): nat {
    if odd && k < 8 * qwords then Xor4(k) else k
  }

  /** Whole groups do not take part in the xor. */
  lemma MirrorInRow(u: int, k: nat)
    requires 8 * u + k >= 0
    ensures Xor4(8 * u + k) == 8 * u + Xor4(k)
  {
    DivisionIs(8 * u + k, 8, u + k / 8, k % 8);
  }

  lemma OffsetOfQword(p: nat, q: nat, k: nat)
    requires p < 4096 && k == (p - 8 * q) % 4096
    ensures (p / 8 - q) % 512 == k / 8
  {
    var m := (p - 8 * q) / 4096;
    DivisionIs(p, 8, q + 512 * m + k / 8, k % 8);
    DivisionIs(p / 8 - q, 512, m, k / 8);
  }

  lemma OffsetOfMirror(p: nat, q: nat, k: nat)
    requires p < 4096 && k == (p - 8 * q) % 4096
    ensures Xor4(p) < 4096 && (Xor4(p) - 8 * q) % 4096 == Xor4(k)
  {
    var m := (p - 8 * q) / 4096;
    assert p == 8 * (q + 512 * m) + k;
    MirrorInRow(q + 512 * m, k);
    MirrorBelow(p, 512);
    MirrorBelow(k, 512);
    DivisionIs(Xor4(p) - 8 * q, 4096, m, Xor4(k));
  }

  lemma MirrorBelow(e: nat, qwords: nat)
    ensures Xor4(e) < 8 * qwords <==> e < 8 * qwords
  {
  }

  lemma HalfOffset(k: nat, w: nat)
    ensures k / 8 < w <==> k < 8 * w
  {
  }

  /** Every byte of TMEM after one row. */
  lemma RowLoadedAt(tm: seq<u8>, rdram: Rdram, a: nat, q: nat, bytes: nat, odd: bool, qwords: nat, p: nat, k: nat)
    requires |tm| == 4096 && a + bytes <= |rdram| && bytes <= 4096 && qwords <= 512
    requires p < 4096 && k == (p - 8 * q) % 4096
    ensures Xor4(p) < 4096
    ensures RowLoaded(tm, rdram, a, q, bytes, odd, qwords)[p] ==
            (if Source(odd, qwords, k) < bytes then ByteAt(rdram, a + Source(odd, qwords, k))
             else if odd && k < 8 * qwords then tm[Xor4(p)] else tm[p])
  {
    var c := Copied(tm, 8 * q, rdram, a, bytes);
    OffsetOfMirror(p, q, k);
    CopiedAt(tm, 8 * q, rdram, a, bytes, p, k);
    if odd {
      OffsetOfQword(p, q, k);
      HalfOffset(k, qwords);
      InterleavedAt(c, q, qwords, p, k / 8);
      CopiedAt(tm, 8 * q, rdram, a, bytes, Xor4(p), Xor4(k));
    }
  }

  // -------------------------------------------------------------------------
  // All rows

  /** TMEM after the first `rows` rows of a load; odd rows are interleaved. */
  ghost function RowsLoaded(tm: seq<u8>, rdram: Rdram, plan: Plan, rows: nat): (r: seq<u8>)
    requires |tm| == 4096 && plan.Readable(rdram, rows)
    ensures |r| == 4096
  {
    if rows == 0 then tm
    else
      var y := rows - 1;
      assert plan.RowReadable(rdram, y);
      RowLoaded(RowsLoaded(tm, rdram, plan, y), rdram, plan.Address(y), plan.Qword(y), plan.Bytes(|rdram| - 1, y),
                y % 2 == 1, plan.rowBytes / 8)
  }

  /**
   * A row is loaded in full if a whole line of it lies before the end of RDRAM, and else up to that end; if a row is no
   * longer than a line, neither its part of TMEM nor RDRAM is ever left.
   */
  lemma RowStaysInside(plan: Plan, rdramSize: nat, y: nat)
    requires plan.Address(y) < rdramSize
    ensures var bytes := plan.Bytes(rdramSize, y);
      && (rdramSize - plan.Address(y) >= 8 * plan.line ==> bytes == plan.rowBytes)
      && (rdramSize - plan.Address(y) < 8 * plan.line ==> bytes == rdramSize - plan.Address(y))
      && (plan.rowBytes <= 8 * plan.line ==> 0 <= bytes <= 8 * plan.line && plan.Address(y) + bytes <= rdramSize)
  {
  }

  /** How many of `height` rows are loaded before the address runs past the end of RDRAM. */
  function RowCount(plan: Plan, rdramSize: nat, height: nat): (n: nat)
    ensures n <= height
  {
    if height <= 1 then height
    else
      var n := RowCount(plan, rdramSize, height - 1);
      if n < height - 1 || plan.Address(n) >= rdramSize then n else height
  }

  /** No row reaches into the next one, and together they fit TMEM. */
  predicate Separate(plan: Plan, rows: nat) {
    plan.rowBytes <= 8 * plan.line && plan.line * rows <= 512
  }

  /** Offset of TMEM byte `p` from qword `t + u`, given its offset `e` from qword `t`. */
  lemma Shifted(p: nat, t: nat, u: nat, e: nat)
    requires p < 4096 && e == (p - 8 * t) % 4096 && u <= 512
    ensures (p - 8 * (t + u)) % 4096 == if e >= 8 * u then e - 8 * u else e - 8 * u + 4096
  {
  }

  /** One more row. */
  lemma RowsStep(tm: seq<u8>, rdram: Rdram, plan: Plan, y: nat)
    requires |tm| == 4096 && plan.Readable(rdram, y) && plan.RowReadable(rdram, y)
    ensures plan.Readable(rdram, y + 1)
    ensures RowsLoaded(tm, rdram, plan, y + 1)
         == RowLoaded(RowsLoaded(tm, rdram, plan, y), rdram, plan.Address(y), plan.Qword(y), plan.Bytes(|rdram| - 1, y),
                      y % 2 == 1, plan.rowBytes / 8)
  {
  }

  /** A row that fits its `line` changes nothing outside it. */
  lemma RowFrame(tm: seq<u8>, rdram: Rdram, plan: Plan, rows: nat, p: nat)
    requires |tm| == 4096 && plan.Readable(rdram, rows + 1) && plan.rowBytes <= 8 * plan.line <= 4096
    requires p < 4096 && (p - 8 * plan.Qword(rows)) % 4096 >= 8 * plan.line
    ensures RowsLoaded(tm, rdram, plan, rows + 1)[p] == RowsLoaded(tm, rdram, plan, rows)[p]
  {
    assert plan.RowReadable(rdram, rows);
    RowsStep(tm, rdram, plan, rows);
    RowOutside(RowsLoaded(tm, rdram, plan, rows), rdram, plan.Address(rows), plan.Qword(rows),
               plan.Bytes(|rdram| - 1, rows), rows % 2 == 1, plan.rowBytes / 8, p, (p - 8 * plan.Qword(rows)) % 4096);
  }

  lemma RowOutside(tm: seq<u8>, rdram: Rdram, a: nat, q: nat, bytes: nat, odd: bool, qwords: nat, p: nat, k: nat)
    requires |tm| == 4096 && a + bytes <= |rdram| && p < 4096 && k == (p - 8 * q) % 4096
    requires bytes <= k && 8 * qwords <= k
    ensures RowLoaded(tm, rdram, a, q, bytes, odd, qwords)[p] == tm[p]
  {
    RowLoadedAt(tm, rdram, a, q, bytes, odd, qwords, p, k);
  }

  /** Past the first `rows` rows is past the last of them. */
  lemma PastLastRow(plan: Plan, rows: nat, p: nat, e: nat)
    requires rows > 0 && plan.line * rows <= 512 && p < 4096
    requires e == (p - 8 * plan.tmem) % 4096 && e >= 8 * (plan.line * rows)
    ensures plan.line * (rows - 1) <= plan.line * rows && plan.line <= 512
    ensures (p - 8 * plan.Qword(rows - 1)) % 4096 >= 8 * plan.line
  {
    OneRowLess(plan.line, rows);
    PastLine(p, plan.tmem, plan.line * (rows - 1), plan.line, e);
  }

  lemma OneRowLess(line: nat, rows: nat)
    requires rows > 0
    ensures line * rows == line * (rows - 1) + line && line * (rows - 1) >= 0
  {
  }

  lemma PastLine(p: nat, t: nat, u: nat, line: nat, e: nat)
    requires p < 4096 && e == (p - 8 * t) % 4096 && u + line <= 512 && e >= 8 * (u + line)
    ensures (p - 8 * (t + u)) % 4096 >= 8 * line
  {
    Shifted(p, t, u, e);
  }

  /** A separate load leaves alone what lies past its rows. */
  lemma {:induction false} RowsFrame(tm: seq<u8>, rdram: Rdram, plan: Plan, rows: nat, p: nat, e: nat)
    requires |tm| == 4096 && plan.Readable(rdram, rows) && Separate(plan, rows)
    requires p < 4096 && e == (p - 8 * plan.tmem) % 4096 && e >= 8 * (plan.line * rows)
    ensures RowsLoaded(tm, rdram, plan, rows)[p] == tm[p]
  {
    if rows > 0 {
      PastLastRow(plan, rows, p, e);
      RowsFrame(tm, rdram, plan, rows - 1, p, e);
      RowFrame(tm, rdram, plan, rows - 1, p);
    }
  }

  /**
   * Every byte of TMEM after a separate load: offset `k` of row `y` holds the row's byte `Source(k)` (or what it
   * replaced).
   */
  ghost predicate HoldsRow(tm: seq<u8>, tm': seq<u8>, rdram: Rdram, plan: Plan, y: nat, p: nat, k: nat)
    requires |tm| == |tm'| == 4096 && p < 4096 && Xor4(p) < 4096 && plan.RowReadable(rdram, y)
  {
    var odd, qwords := y % 2 == 1, plan.rowBytes / 8;
    tm'[p] ==
      if Source(odd, qwords, k) < plan.Bytes(|rdram| - 1, y)
      then ByteAt(rdram, plan.Address(y) + Source(odd, qwords, k))
      else if odd && k < 8 * qwords then tm[Xor4(p)]
      else tm[p]
  }

  lemma {:induction false} RowsLoadedAt(tm: seq<u8>, rdram: Rdram, plan: Plan, rows: nat, y: nat, p: nat, k: nat)
    requires |tm| == 4096 && plan.Readable(rdram, rows) && Separate(plan, rows)
    requires y < rows && k < 8 * plan.line && p < 4096 && (p - 8 * plan.tmem) % 4096 == 8 * (plan.line * y) + k
    ensures Xor4(p) < 4096 && plan.RowReadable(rdram, y)
    ensures HoldsRow(tm, RowsLoaded(tm, rdram, plan, rows), rdram, plan, y, p, k)
  {
    MulMonotone(plan.line, rows - 1, rows);
    if y == rows - 1 {
      ThisRow(plan, rows, p, k);
      LastRow(tm, rdram, plan, y, p, k);
    } else {
      RowsLoadedAt(tm, rdram, plan, rows - 1, y, p, k);
      LaterRow(plan, rows, y, p, k);
      RowFrame(tm, rdram, plan, rows - 1, p);
    }
  }

  lemma ThisRow(plan: Plan, rows: nat, p: nat, k: nat)
    requires 0 < rows && plan.line * rows <= 512
    requires k < 8 * plan.line && p < 4096 && (p - 8 * plan.tmem) % 4096 == 8 * (plan.line * (rows - 1)) + k
    ensures k == (p - 8 * plan.Qword(rows - 1)) % 4096
  {
    MulMonotone(plan.line, rows - 1, rows);
    Shifted(p, plan.tmem, plan.line * (rows - 1), (p - 8 * plan.tmem) % 4096);
  }

  lemma LaterRow(plan: Plan, rows: nat, y: nat, p: nat, k: nat)
    requires y + 1 < rows && plan.line * rows <= 512
    requires k < 8 * plan.line && p < 4096 && (p - 8 * plan.tmem) % 4096 == 8 * (plan.line * y) + k
    ensures (p - 8 * plan.Qword(rows - 1)) % 4096 >= 8 * plan.line
  {
    var w := plan.line * (rows - 1);
    assert plan.line * rows == w + plan.line;
    assert plan.line * (y + 1) == plan.line * y + plan.line;
    MulMonotone(plan.line, y + 1, rows - 1);
    Shifted(p, plan.tmem, w, (p - 8 * plan.tmem) % 4096);
  }

  /** The bytes of the last row, and their mirror images, are as they were before the load. */
  lemma RowStartsFresh(tm: seq<u8>, rdram: Rdram, plan: Plan, y: nat, p: nat, k: nat)
    requires |tm| == 4096 && plan.Readable(rdram, y) && Separate(plan, y + 1)
    requires k < 8 * plan.line && p < 4096 && (p - 8 * plan.tmem) % 4096 == 8 * (plan.line * y) + k
    ensures Xor4(p) < 4096
    ensures RowsLoaded(tm, rdram, plan, y)[p] == tm[p] && RowsLoaded(tm, rdram, plan, y)[Xor4(p)] == tm[Xor4(p)]
  {
    var e := 8 * (plan.line * y) + k;
    assert plan.line * (y + 1) == plan.line * y + plan.line;
    OffsetOfMirror(p, plan.tmem, e);
    MirrorInRow(plan.line * y, k);
    RowsFrame(tm, rdram, plan, y, p, e);
    RowsFrame(tm, rdram, plan, y, Xor4(p), Xor4(e));
  }

  lemma RowOverFresh(tm: seq<u8>, before: seq<u8>, rdram: Rdram, plan: Plan, y: nat, p: nat, k: nat)
    requires |tm| == |before| == 4096 && plan.RowReadable(rdram, y) && plan.rowBytes <= 8 * plan.line <= 4096
    requires p < 4096 && k == (p - 8 * plan.Qword(y)) % 4096 && Xor4(p) < 4096
    requires before[p] == tm[p] && before[Xor4(p)] == tm[Xor4(p)]
    ensures HoldsRow(tm, RowLoaded(before, rdram, plan.Address(y), plan.Qword(y), plan.Bytes(|rdram| - 1, y),
                                   y % 2 == 1,
                                   plan.rowBytes / 8), rdram, plan, y, p, k)
  {
    RowLoadedAt(before, rdram, plan.Address(y), plan.Qword(y), plan.Bytes(|rdram| - 1, y), y % 2 == 1,
                plan.rowBytes / 8, p, k);
  }

  lemma LastRow(tm: seq<u8>, rdram: Rdram, plan: Plan, y: nat, p: nat, k: nat)
    requires |tm| == 4096 && plan.Readable(rdram, y + 1) && Separate(plan, y + 1)
    requires k < 8 * plan.line && p < 4096 && k == (p - 8 * plan.Qword(y)) % 4096
    requires (p - 8 * plan.tmem) % 4096 == 8 * (plan.line * y) + k
    ensures Xor4(p) < 4096 && plan.RowReadable(rdram, y)
    ensures HoldsRow(tm, RowsLoaded(tm, rdram, plan, y + 1), rdram, plan, y, p, k)
  {
    assert plan.RowReadable(rdram, y);
    LineFits(plan, y);
    RowStartsFresh(tm, rdram, plan, y, p, k);
    RowsStep(tm, rdram, plan, y);
    RowOverFresh(tm, RowsLoaded(tm, rdram, plan, y), rdram, plan, y, p, k);
  }

  lemma LineFits(plan: Plan, y: nat)
    requires plan.line * (y + 1) <= 512
    ensures plan.line <= 512
  {
    MulMonotone(plan.line, 1, y + 1);
  }

  // -------------------------------------------------------------------------
  // The loop

  /** The rows before RowCount start inside RDRAM, and it stops only at the end of RDRAM. */
  lemma {:induction false} RowCountExact(plan: Plan, rdramSize: nat, height: nat)
    ensures height > 0 ==> RowCount(plan, rdramSize, height) > 0
    ensures forall y :: 0 < y < RowCount(plan, rdramSize, height) ==> plan.Address(y) < rdramSize
    ensures RowCount(plan, rdramSize, height) < height ==> plan.Address(RowCount(plan, rdramSize, height)) >= rdramSize
  {
    if height > 1 {
      RowCountExact(plan, rdramSize, height - 1);
    }
  }

  lemma RowCountMonotone(plan: Plan, rdramSize: nat, n: nat, height: nat)
    requires n <= height
    ensures RowCount(plan, rdramSize, n) <= RowCount(plan, rdramSize, height)
  {
  }

  /** One row: the copy, cut at the end of RDRAM, and the exchange on odd rows. */
  method LoadRow(rdram: Rdram, tmem: array<u8>, address: nat, tmemAddr: nat, y: nat, bpr: nat, bpl: nat,
                 ghost plan: Plan)
    requires tmem.Length == 4096 && plan.RowReadable(rdram, y)
    requires address == plan.Address(y) && tmemAddr == plan.Qword(y) && bpr == plan.rowBytes && bpl == 8 * plan.line
    modifies tmem
    ensures tmem[..] == RowLoaded(old(tmem[..]), rdram, plan.Address(y), plan.Qword(y), plan.Bytes(|rdram| - 1, y),
                                  y % 2 == 1, plan.rowBytes / 8)
  {
    var rdramSize := |rdram| - 1;
    if address + bpl > rdramSize {
      UnswapCopyWrap(rdram, address, tmem, 8 * tmemAddr, rdramSize - address);
    } else {
      UnswapCopyWrap(rdram, address, tmem, 8 * tmemAddr, bpr);
    }
    if y % 2 == 1 {
      DWordInterleaveWrap(tmem, 2 * tmemAddr, bpr / 8);
    }
  }

  /** The row loop of gDPLoadTile. */
  method LoadRows(rdram: Rdram, tmem: array<u8>, address0: nat, tmemAddr0: nat, line: nat, bpr: nat, bpl: nat,
                  imageBpl: nat, height: nat)
    requires tmem.Length == 4096 && |rdram| > 0 && bpl == 8 * line
    requires var plan := Plan(address0, imageBpl, tmemAddr0, line, bpr);
      plan.Readable(rdram, RowCount(plan, |rdram| - 1, height))
    modifies tmem
    ensures var plan := Plan(address0, imageBpl, tmemAddr0, line, bpr);
      tmem[..] == RowsLoaded(old(tmem[..]), rdram, plan, RowCount(plan, |rdram| - 1, height))
  {
    ghost var plan := Plan(address0, imageBpl, tmemAddr0, line, bpr);
    var address, tmemAddr, y, stop := address0, tmemAddr0, 0, false;
    while y < height && !stop
      invariant y <= height && address == plan.Address(y) && tmemAddr == plan.Qword(y)
      invariant y == RowCount(plan, |rdram| - 1, y) <= RowCount(plan, |rdram| - 1, height)
      invariant stop == (y > 0 && address >= |rdram| - 1)
      invariant tmem[..] == RowsLoaded(old(tmem[..]), rdram, plan, y)
    {
      RowCountStep(plan, |rdram| - 1, y, height);
      PlanStep(plan, y);
      assert plan.RowReadable(rdram, y);
      RowsStep(old(tmem[..]), rdram, plan, y);
      LoadRow(rdram, tmem, address, tmemAddr, y, bpr, bpl, plan);
      address := address + imageBpl;
      y := y + 1;
      stop := address >= |rdram| - 1;
      tmemAddr := tmemAddr + line;
    }
    RowCountStopped(plan, |rdram| - 1, y, height);
  }

  lemma RowCountStep(plan: Plan, rdramSize: nat, y: nat, height: nat)
    requires y < height && y == RowCount(plan, rdramSize, y) && !(y > 0 && plan.Address(y) >= rdramSize)
    ensures RowCount(plan, rdramSize, y + 1) == y + 1 <= RowCount(plan, rdramSize, height)
  {
    RowCountMonotone(plan, rdramSize, y + 1, height);
  }

  lemma PlanStep(plan: Plan, y: nat)
    ensures plan.Address(y + 1) == plan.Address(y) + plan.stride && plan.Qword(y + 1) == plan.Qword(y) + plan.line
  {
  }

  lemma {:induction false} RowCountStopped(plan: Plan, rdramSize: nat, y: nat, height: nat)
    requires y <= height && y == RowCount(plan, rdramSize, y)
             && (y == height || (y > 0 && plan.Address(y) >= rdramSize))
    ensures RowCount(plan, rdramSize, height) == y
  {
    if y < height {
      RowCountStopped(plan, rdramSize, y, height - 1);
    }
  }
}
