/** _getTextureDestData and the Get* texel readers of GLideN64/src/Textures.cpp, and the load-then-fetch round trip. */
module TexelFetch {
  import opened Arith
  import Bits
  import opened Convert
  import opened Machine
  import opened Tile32
  import opened TileLoad

  /** The fields of CachedTexture that decide which texels are read. */
  datatype Texture = Texture(size: nat, tMem: nat, line: nat, width: nat, height: nat, clampWidth: nat,
                             clampHeight: nat,
                             maskS: nat, maskT: nat, clampS: bool, clampT: bool, mirrorS: bool, mirrorT: bool)

  function Min(x: int, y: int): int {
    if x < y then x else y
  }

  /** The 16-bit clamp the code sets up for one axis. */
  function Limit(mask: nat, clamp: bool, clampSize: nat, mirror: bool, size: nat): nat {
    (if clamp then clampSize - 1 else if mask > 0 && mirror then 2 * size - 1 else size - 1) % 0x1_0000
  }

  /** `min(x, clamp) & mask` */
  function TexelCoord(x: nat, mask: nat, clamp: bool, clampSize: nat, mirror: bool, size: nat): nat {
    var c := Min(x, Limit(mask, clamp, clampSize, mirror, size));
    if mask > 0 then c % Bits.Pow2(mask) else c
  }

  function CoordS(tex: Texture, x: nat): nat {
    TexelCoord(x, tex.maskS, tex.clampS, tex.clampWidth, tex.mirrorS, tex.width)
  }

  function CoordT(tex: Texture, y: nat): nat {
    TexelCoord(y, tex.maskT, tex.clampT, tex.clampHeight, tex.mirrorT, tex.height)
  }

  // -------------------------------------------------------------------------
  // What clamp and mask do to a coordinate

  /** `c` is `v` modulo `2 ^ mask`; without a mask it is `v`. */
  ghost predicate IsMasked(v: int, c: nat, mask: nat) {
    if mask == 0 then c == v else c < Bits.Pow2(mask) && (v - c) % Bits.Pow2(mask) == 0
  }

  /**
   * A coordinate is cut at the edge, which is that of the clamp, of two mirrored textures side by side, or of the
   * texture, and then repeats every `2 ^ mask` texels.
   */
  lemma CoordIsMasked(x: nat, mask: nat, clamp: bool, clampSize: nat, mirror: bool, size: nat)
    ensures var c := TexelCoord(x, mask, clamp, clampSize, mirror, size);
      && (clamp && 1 <= clampSize <= 0x1_0000 ==> IsMasked(Min(x, clampSize - 1), c, mask))
      && (!clamp && mirror && mask > 0 && 1 <= size <= 0x8000 ==> IsMasked(Min(x, 2 * size - 1), c, mask))
      && (!clamp && !(mirror && mask > 0) && 1 <= size <= 0x1_0000 ==> IsMasked(Min(x, size - 1), c, mask))
      && (clamp && clampSize == 0 ==> IsMasked(Min(x, 0xFFFF), c, mask))
  {
    hide IsMasked;
    RemainderIsMasked(Min(x, Limit(mask, clamp, clampSize, mirror, size)), mask);
  }

  lemma RemainderIsMasked(v: nat, mask: nat)
    ensures IsMasked(v, if mask > 0 then v % Bits.Pow2(mask) else v, mask)
  {
    var m := Bits.Pow2(mask);
    DivisionIs(v - v % m, m, v / m, 0);
  }

  /** Coordinates a multiple of `2 ^ mask` apart are masked to the same one. */
  lemma MaskedUnique(v: int, v': int, c: nat, c': nat, mask: nat)
    requires mask > 0 && IsMasked(v, c, mask) && IsMasked(v', c', mask) && (v' - v) % Bits.Pow2(mask) == 0
    ensures c == c'
  {
    var m := Bits.Pow2(mask);
    var q, q', d := (v - c) / m, (v' - c') / m, (v' - v) / m;
    assert v' == q' * m + c' && v' == q * m + d * m + c;
    assert q * m + d * m == (q + d) * m;
    DivisionUnique(m, q', c', q + d, c);
  }

  /** Everything beyond the clamp shows the last texel before it. */
  lemma ClampHolds(x: nat, mask: nat, clampSize: nat, mirror: bool, size: nat)
    requires 1 <= clampSize <= x && clampSize <= 0x1_0000
    ensures TexelCoord(x, mask, true, clampSize, mirror, size)
         == TexelCoord(clampSize - 1, mask, true, clampSize, mirror, size)
  {
  }

  /** Where a texture that is large enough shows coordinate `x`, but for the mask. */
  function Held(x: nat, clamp: bool, clampSize: nat): nat {
    if clamp && 1 <= clampSize <= x then clampSize - 1 else x
  }

  /** Inside the texture only the clamp and the mask matter. */
  lemma CoordInside(x: nat, mask: nat, clamp: bool, clampSize: nat, mirror: bool, size: nat)
    requires x < size <= 0x8000 && clampSize <= 0xFFFF
    ensures IsMasked(Held(x, clamp, clampSize), TexelCoord(x, mask, clamp, clampSize, mirror, size), mask)
  {
    hide TexelCoord, IsMasked;
    CoordIsMasked(x, mask, clamp, clampSize, mirror, size);
  }

  // -------------------------------------------------------------------------
  // The readers

  /**
   * First byte of row `ty` for the reader; without a lookup table all of TMEM is texels, with one only its lower half.
   */
  function RowBase(tMem: nat, line: nat, ty: nat, lut: bool): nat {
    8 * ((tMem + line * ty) % (if lut then 256 else 512))
  }

  /** Rows begin at qwords and wrap at the end of TMEM, with a lookup table at the end of its lower half. */
  lemma RowsWrap(tMem: nat, line: nat, ty: nat, lut: bool)
    ensures var base, end := RowBase(tMem, line, ty, lut), if lut then 0x800 else 0x1000;
      base < end && (base - 8 * (tMem + line * ty)) % end == 0
  {
    var q, n := tMem + line * ty, if lut then 256 else 512;
    DivisionIs(8 * (q % n) - 8 * q, 8 * n, -(q / n), 0);
  }

  /** `((u8*)src)[x ^ (i << 1)]` with `i = (ty & 1) << 1` */
  function ByteIndex(base: nat, ty: nat, x: nat): nat {
    base + if ty % 2 == 1 then Xor4(x) else x
  }

  /** First byte of `((u16*)src)[x ^ i]` */
  function HalfIndex(base: nat, ty: nat, x: nat): nat {
    base + 2 * if ty % 2 == 1 then Xor2(x) else x
  }

  /** The texel the Get4, Get8 and Get16 readers pick, before its colour format is converted. */
  function RawTexel(tm: seq<u8>, size: nat, base: nat, tx: nat, ty: nat): nat
    requires size < 3 && Reads(size, base, tx, ty) <= |tm|
  {
    if size == 0 then
      var byte := tm[ByteIndex(base, ty, tx / 2)] as nat;
      if tx % 2 == 1 then byte % 16 else byte / 16
    else if size == 1 then tm[ByteIndex(base, ty, tx)] as nat
    else
      var i := HalfIndex(base, ty, tx);
      tm[i] as nat + 256 * tm[i + 1] as nat
  }

  /** One past the last TMEM byte that reader touches. */
  function Reads(size: nat, base: nat, tx: nat, ty: nat): nat {
    if size == 0 then ByteIndex(base, ty, tx / 2) + 1
    else if size == 1 then ByteIndex(base, ty, tx) + 1
    else HalfIndex(base, ty, tx) + 2
  }

  // -------------------------------------------------------------------------
  // The raster loop

  /** Texel (x, y) of the decoded texture. */
  function Texel(tm: seq<u8>, tex: Texture, lut: bool, x: nat, y: nat): nat
    requires |tm| == 4096 && Inside(tex, lut, x, y)
  {
    var tx, ty := CoordS(tex, x), CoordT(tex, y);
    if tex.size == 3 then Merged(tm, FetchPtr(tex.tMem, Line32(tex.clampWidth, tex.line), tx, ty))
    else RawTexel(tm, tex.size, RowBase(tex.tMem, tex.line, ty, lut), tx, ty)
  }

  /** Texel (x, y) is read from inside TMEM. */
  predicate Inside(tex: Texture, lut: bool, x: nat, y: nat) {
    var tx, ty := CoordS(tex, x), CoordT(tex, y);
    if tex.size >= 3 then tex.size == 3 && Line32(tex.clampWidth, tex.line) >= 0
    else Reads(tex.size, RowBase(tex.tMem, tex.line, ty, lut), tx, ty) <= 4096
  }

  predicate AllInside(tex: Texture, lut: bool) {
    forall x, y :: 0 <= x < tex.width && 0 <= y < tex.height ==> Inside(tex, lut, x, y)
  }

  /** Where texel (x, y) comes when the rows follow each other. */
  function Index(width: nat, x: nat, y: nat): nat {
    if y == 0 then x else width + Index(width, x, y - 1)
  }

  lemma {:induction false} IndexIs(width: nat, x: nat, y: nat)
    ensures Index(width, x, y) == y * width + x
  {
    if y > 0 {
      IndexIs(width, x, y - 1);
      assert y * width == (y - 1) * width + width;
    }
  }

  lemma {:induction false} IndexFrom(width: nat, x: nat, y: nat)
    ensures Index(width, x, y) == Index(width, 0, y) + x
  {
    if y > 0 {
      IndexFrom(width, x, y - 1);
    }
  }

  /** A picture by its texels. */
  datatype Picture = Picture(width: nat, at: (nat, nat) -> nat)

  /** The picture decoded from TMEM, 0 where a texel would be read from outside. */
  function Decoding(tm: seq<u8>, tex: Texture, lut: bool): Picture {
    Picture(tex.width, (x, y) => if |tm| == 4096 && Inside(tex, lut, x, y) then Texel(tm, tex, lut, x, y) else 0)
  }

  /** The texels in front of (x, y), row by row. */
  function Raster(p: Picture, x: nat, y: nat): (r: seq<nat>)
    ensures |r| == Index(p.width, x, y)
    decreases y, x
  {
    if x > 0 then
      IndexNext(p.width, x - 1, y);
      Raster(p, x - 1, y) + [p.at(x - 1, y)]
    else if y > 0 then
      IndexNext(p.width, 0, y - 1);
      Raster(p, p.width, y - 1)
    else []
  }

  /** One texel further, and from the end of a row to the next. */
  lemma IndexNext(width: nat, x: nat, y: nat)
    ensures Index(width, x + 1, y) == Index(width, x, y) + 1
    ensures Index(width, 0, y + 1) == Index(width, width, y)
  {
    IndexFrom(width, x + 1, y);
    IndexFrom(width, x, y);
    IndexFrom(width, width, y);
  }

  lemma IndexEnds(width: nat, height: nat)
    ensures Index(width, 0, 0) == 0 && Index(width, 0, height) == height * width == width * height
  {
    IndexIs(width, 0, height);
  }

  lemma {:induction false} IndexOrder(width: nat, x: nat, y: nat, x': nat, y': nat)
    requires x < width && (y < y' || (y == y' && x < x'))
    ensures Index(width, x, y) < Index(width, x', y')
    decreases y'
  {
    if y > 0 {
      IndexOrder(width, x, y - 1, x', y' - 1);
    } else if y' > 0 {
      IndexFrom(width, x', y' - 1);
    }
  }

  /** Texel (x, y) is entry `y * width + x` of everything decoded after it. */
  lemma {:induction false} RasterAt(p: Picture, x: nat, y: nat, x': nat, y': nat)
    requires x < p.width && x' <= p.width && (y < y' || (y == y' && x < x'))
    ensures Index(p.width, x, y) < Index(p.width, x', y') && Raster(p, x', y')[Index(p.width, x, y)] == p.at(x, y)
    decreases y', x'
  {
    hide Index;
    IndexOrder(p.width, x, y, x', y');
    if x' > 0 {
      IndexNext(p.width, x' - 1, y');
      if !(y == y' && x == x' - 1) {
        RasterAt(p, x, y, x' - 1, y');
      }
    } else {
      IndexNext(p.width, 0, y' - 1);
      RasterAt(p, x, y, p.width, y' - 1);
    }
  }

  lemma RasterNext(p: Picture, x: nat, y: nat)
    ensures Raster(p, 0, 0) == []
    ensures Raster(p, x + 1, y) == Raster(p, x, y) + [p.at(x, y)]
    ensures Raster(p, 0, y + 1) == Raster(p, p.width, y)
  {
  }

  /** The texel at (x, y), in row `ty` of the tile, by the fetch function of its format. */
  method GetTexel(tmem: array<u8>, tex: Texture, lut: bool, x: nat, y: nat, ty: nat) returns (texel: nat)
    requires tmem.Length == 4096 && Inside(tex, lut, x, y) && ty == CoordT(tex, y)
    ensures texel == Texel(tmem[..], tex, lut, x, y)
  {
    var tx := CoordS(tex, x);
    if tex.size == 3 {
      texel := Merged(tmem[..], FetchPtr(tex.tMem, Line32(tex.clampWidth, tex.line), tx, ty));
    } else {
      texel := RawTexel(tmem[..], tex.size, RowBase(tex.tMem, tex.line, ty, lut), tx, ty);
    }
  }

  /** GLideN64's decoding loop (without the YUV branch, and before colour conversion). */
  method GetTextureDestData(tmem: array<u8>, tex: Texture, lut: bool, dest: array<nat>)
    requires tmem.Length == 4096 && AllInside(tex, lut) && tex.width * tex.height <= dest.Length
    modifies dest
    ensures dest[..tex.height * tex.width] == Raster(Decoding(tmem[..], tex, lut), 0, tex.height)
  {
    hide Raster, Texel, Inside, Index;
    ghost var p := Decoding(tmem[..], tex, lut);
    var j, y := 0, 0;
    RasterNext(p, 0, 0);
    IndexEnds(tex.width, tex.height);
    while y < tex.height
      invariant y <= tex.height && j == Index(tex.width, 0, y) <= dest.Length
      invariant dest[..j] == Raster(p, 0, y)
    {
      var ty := CoordT(tex, y);
      var x := 0;
      while x < tex.width
        invariant x <= tex.width && j == Index(tex.width, x, y) <= dest.Length
        invariant dest[..j] == Raster(p, x, y)
      {
        IndexOrder(tex.width, x, y, 0, tex.height);
        IndexNext(tex.width, x, y);
        RasterNext(p, x, y);
        dest[j] := GetTexel(tmem, tex, lut, x, y, ty);
        j := j + 1;
        x := x + 1;
      }
      IndexNext(tex.width, x, y);
      RasterNext(p, x, y);
      y := y + 1;
    }
  }

  // -------------------------------------------------------------------------
  // Load, then fetch

  /** The TMEM byte where the reader looks for byte `k` of row `y`. */
  function LogicalIndex(plan: Plan, y: nat, k: nat): nat {
    8 * plan.Qword(y) + if y % 2 == 1 then Xor4(k) else k
  }

  /** Byte `k` of row `y` was loaded, in a whole qword. */
  predicate Loaded(plan: Plan, rdramSize: nat, y: nat, k: nat) {
    k < 8 * (plan.rowBytes / 8) && k < plan.Bytes(rdramSize, y)
  }

  lemma RowInTmem(plan: Plan, rows: nat, y: nat)
    requires plan.Qword(rows) <= 512 && y < rows
    ensures plan.Qword(y) + plan.line <= 512
  {
    MulMonotone(plan.line, y + 1, rows);
    assert plan.line * (y + 1) == plan.line * y + plan.line;
  }

  lemma LogicalPlace(plan: Plan, rows: nat, y: nat, k: nat)
    requires Separate(plan, rows) && plan.Qword(rows) <= 512 && y < rows && k < 8 * (plan.rowBytes / 8)
    ensures var p, k' := LogicalIndex(plan, y, k), if y % 2 == 1 then Xor4(k) else k;
      && p < 4096 && k' < 8 * plan.line && (p - 8 * plan.tmem) % 4096 == 8 * (plan.line * y) + k'
      && Source(y % 2 == 1, plan.rowBytes / 8, k') == k
  {
    Unmirror(k, plan.rowBytes / 8);
    RowInTmem(plan, rows, y);
    InsideTmem(plan.tmem, plan.line * y, plan.line, if y % 2 == 1 then Xor4(k) else k);
  }

  lemma InsideTmem(t: nat, u: nat, line: nat, k: nat)
    requires t + u + line <= 512 && k < 8 * line
    ensures 8 * (t + u) + k < 4096 && (8 * (t + u) + k - 8 * t) % 4096 == 8 * u + k
  {
    DivisionIs(8 * u + k, 4096, 0, 8 * u + k);
  }

  lemma Unmirror(k: nat, qwords: nat)
    requires k < 8 * qwords
    ensures Xor4(k) < 8 * qwords && Xor4(Xor4(k)) == k
  {
  }

  /** The reader finds the N64's byte `k` of row `y`. */
  ghost predicate Stored(tm: seq<u8>, rdram: Rdram, plan: Plan, y: nat, k: nat)
    requires |tm| == 4096
  {
    LogicalIndex(plan, y, k) < 4096 && plan.Address(y) + k < |rdram| &&
    tm[LogicalIndex(plan, y, k)] == ByteAt(rdram, plan.Address(y) + k)
  }

  lemma HeldThenStored(tm: seq<u8>, tm': seq<u8>, rdram: Rdram, plan: Plan, y: nat, k: nat, k': nat)
    requires |tm| == |tm'| == 4096 && plan.RowReadable(rdram, y) && Loaded(plan, |rdram| - 1, y, k)
    requires LogicalIndex(plan, y, k) < 4096 && Xor4(LogicalIndex(plan, y, k)) < 4096
    requires Source(y % 2 == 1, plan.rowBytes / 8, k') == k
    requires HoldsRow(tm, tm', rdram, plan, y, LogicalIndex(plan, y, k), k')
    ensures Stored(tm', rdram, plan, y, k)
  {
  }

  /** The reader's index undoes the odd-line exchange. */
  lemma LogicalByte(tm: seq<u8>, rdram: Rdram, plan: Plan, rows: nat, y: nat, k: nat)
    requires |tm| == 4096 && plan.Readable(rdram, rows) && Separate(plan, rows) && plan.Qword(rows) <= 512
    requires y < rows && plan.RowReadable(rdram, y) && Loaded(plan, |rdram| - 1, y, k)
    ensures Stored(RowsLoaded(tm, rdram, plan, rows), rdram, plan, y, k)
  {
    var k' := if y % 2 == 1 then Xor4(k) else k;
    LogicalPlace(plan, rows, y, k);
    RowsLoadedAt(tm, rdram, plan, rows, y, LogicalIndex(plan, y, k), k');
    HeldThenStored(tm, RowsLoaded(tm, rdram, plan, rows), rdram, plan, y, k, k');
  }

  /** The N64's texel at byte address `a`, `tx` texels on: high nibble first, high byte first. */
  function BigEndianTexel(rdram: Rdram, size: nat, a: nat, tx: nat): nat
    requires size < 3 && a + LastByte(size, tx) < |rdram|
  {
    if size == 0 then
      var byte := ByteAt(rdram, a + tx / 2) as nat;
      if tx % 2 == 0 then byte / 16 else byte % 16
    else if size == 1 then ByteAt(rdram, a + tx) as nat
    else ByteAt(rdram, a + 2 * tx) as nat * 256 + ByteAt(rdram, a + 2 * tx + 1) as nat
  }

  function LastByte(size: nat, tx: nat): nat {
    if size == 0 then tx / 2 else if size == 1 then tx else 2 * tx + 1
  }

  /** `swapword`, which the 16-bit readers apply to what they read; 4 and 8-bit texels are taken as they are. */
  function Unswapped(size: nat, raw: nat): nat {
    if size == 2 then raw % 256 * 256 + raw / 256 else raw
  }

  lemma BaseOfRow(plan: Plan, rows: nat, ty: nat)
    requires plan.Qword(rows) <= 512 && ty < rows && plan.line > 0
    ensures RowBase(plan.tmem, plan.line, ty, false) == 8 * plan.Qword(ty)
  {
    MulMonotone(plan.line, ty + 1, rows);
    assert plan.line * (ty + 1) == plan.line * ty + plan.line;
  }

  /** Reading a stored texel yields the N64's texel. */
  lemma ReadBack(tm: seq<u8>, rdram: Rdram, plan: Plan, size: nat, tx: nat, ty: nat)
    requires |tm| == 4096 && size < 3 && Stored(tm, rdram, plan, ty, LastByte(size, tx))
    requires size == 2 ==> Stored(tm, rdram, plan, ty, 2 * tx)
    ensures var base := 8 * plan.Qword(ty);
      Reads(size, base, tx, ty) <= 4096 &&
      Unswapped(size, RawTexel(tm, size, base, tx, ty)) == BigEndianTexel(rdram, size, plan.Address(ty), tx)
  {
    if size == 2 {
      ReadBackHalf(tm, rdram, plan, tx, ty);
    }
  }

  lemma ReadBackHalf(tm: seq<u8>, rdram: Rdram, plan: Plan, tx: nat, ty: nat)
    requires |tm| == 4096 && Stored(tm, rdram, plan, ty, 2 * tx) && Stored(tm, rdram, plan, ty, 2 * tx + 1)
    ensures var base := 8 * plan.Qword(ty);
      Reads(2, base, tx, ty) <= 4096 &&
      Unswapped(2, RawTexel(tm, 2, base, tx, ty)) == BigEndianTexel(rdram, 2, plan.Address(ty), tx)
  {
    hide Unswapped, LogicalIndex, HalfIndex, ByteAt;
    HalfIsPair(plan, ty, tx);
    var a := plan.Address(ty) + 2 * tx;
    SwappedBytes(ByteAt(rdram, a) as nat, ByteAt(rdram, a + 1) as nat);
  }

  lemma SwappedBytes(lo: nat, hi: nat)
    requires lo < 256 && hi < 256
    ensures Unswapped(2, lo + 256 * hi) == lo * 256 + hi
  {
    DivisionIs(lo + 256 * hi, 256, hi, lo);
  }

  /** A fetch from a loaded tile yields the N64's texel, for every alignment of the image, width and row. */
  lemma FetchLoaded(tm: seq<u8>, rdram: Rdram, plan: Plan, rows: nat, size: nat, tx: nat, ty: nat)
    requires |tm| == 4096 && plan.Readable(rdram, rows) && Separate(plan, rows) && plan.Qword(rows) <= 512
    requires size < 3 && ty < rows && plan.RowReadable(rdram, ty) && Loaded(plan, |rdram| - 1, ty, LastByte(size, tx))
    ensures var base := RowBase(plan.tmem, plan.line, ty, false);
      Reads(size, base, tx, ty) <= 4096 &&
      Unswapped(size, RawTexel(RowsLoaded(tm, rdram, plan, rows), size, base, tx, ty))
      == BigEndianTexel(rdram, size, plan.Address(ty), tx)
  {
    BaseOfRow(plan, rows, ty);
    LogicalByte(tm, rdram, plan, rows, ty, LastByte(size, tx));
    if size == 2 {
      LogicalByte(tm, rdram, plan, rows, ty, 2 * tx);
    }
    ReadBack(RowsLoaded(tm, rdram, plan, rows), rdram, plan, size, tx, ty);
  }

  lemma HalfIsPair(plan: Plan, ty: nat, tx: nat)
    ensures HalfIndex(8 * plan.Qword(ty), ty, tx) == LogicalIndex(plan, ty, 2 * tx)
    ensures HalfIndex(8 * plan.Qword(ty), ty, tx) + 1 == LogicalIndex(plan, ty, 2 * tx + 1)
  {
    if ty % 2 == 1 {
      HalfSwap(tx);
    }
  }

  lemma HalfSwap(x: nat)
    ensures Xor4(2 * x) == 2 * Xor2(x) && Xor4(2 * x + 1) == 2 * Xor2(x) + 1
  {
    assert 2 * x == 8 * (x / 4) + 2 * (x % 4);
    DivisionUnique(8, x / 4, 2 * (x % 4), 2 * x / 8, 2 * x % 8);
    DivisionUnique(8, x / 4, 2 * (x % 4) + 1, (2 * x + 1) / 8, (2 * x + 1) % 8);
  }

  /** The texture reads the tile that was loaded. */
  predicate ReadsTile(tex: Texture, plan: Plan) {
    tex.size < 3 && tex.tMem == plan.tmem && tex.line == plan.line
  }

  /** Texel (x, y) of a decoded texture is the N64's texel (tx, ty) of the loaded image. */
  ghost predicate IsImageTexel(decoded: seq<nat>, rdram: Rdram, plan: Plan, tex: Texture, x: nat, y: nat, tx: nat,
                               ty: nat)
    requires tex.size < 3
  {
    var j := Index(tex.width, x, y);
    && j < |decoded|
    && plan.Address(ty) + LastByte(tex.size, tx) < |rdram|
    && Unswapped(tex.size, decoded[j]) == BigEndianTexel(rdram, tex.size, plan.Address(ty), tx)
  }

  /** (x, y), held at the clamps and masked, is (tx, ty). */
  ghost predicate IsAddressed(tex: Texture, x: nat, y: nat, tx: nat, ty: nat) {
    && IsMasked(Held(x, tex.clampS, tex.clampWidth), tx, tex.maskS)
    && IsMasked(Held(y, tex.clampT, tex.clampHeight), ty, tex.maskT)
  }

  /** Sizes in the 16-bit fields of CachedTexture; a tile is at most 1024 texels wide, a mask has at most 15 bits. */
  predicate Has16Bits(tex: Texture) {
    tex.width <= 0x8000 && tex.height <= 0x8000 && tex.clampWidth <= 0xFFFF && tex.clampHeight <= 0xFFFF
  }

  lemma AddressedExactly(tex: Texture, x: nat, y: nat, tx: nat, ty: nat)
    requires Has16Bits(tex) && x < tex.width && y < tex.height
    ensures IsAddressed(tex, x, y, tx, ty) <==> tx == CoordS(tex, x) && ty == CoordT(tex, y)
  {
    hide TexelCoord;
    CoordInside(x, tex.maskS, tex.clampS, tex.clampWidth, tex.mirrorS, tex.width);
    CoordInside(y, tex.maskT, tex.clampT, tex.clampHeight, tex.mirrorT, tex.height);
    SameMasked(Held(x, tex.clampS, tex.clampWidth), tx, CoordS(tex, x), tex.maskS);
    SameMasked(Held(y, tex.clampT, tex.clampHeight), ty, CoordT(tex, y), tex.maskT);
  }

  lemma SameMasked(v: int, c: nat, c': nat, mask: nat)
    requires IsMasked(v, c', mask)
    ensures IsMasked(v, c, mask) <==> c == c'
  {
    if IsMasked(v, c, mask) && mask > 0 {
      MaskedUnique(v, v, c, c', mask);
    }
  }

  /**
   * Tile load, then decoding, is the identity on every texel whose row and bytes were loaded: texel (x, y) of the
   * texture is the image's at (x, y), held at the clamps and modulo the masks.
   */
  lemma LoadThenFetch(tm: seq<u8>, rdram: Rdram, plan: Plan, rows: nat, tex: Texture, x: nat, y: nat, tx: nat, ty: nat)
    requires |tm| == 4096 && plan.Readable(rdram, rows) && Separate(plan, rows) && plan.Qword(rows) <= 512
    requires ReadsTile(tex, plan) && AllInside(tex, false) && Has16Bits(tex) && x < tex.width && y < tex.height
    requires IsAddressed(tex, x, y, tx, ty)
    requires ty < rows && |rdram| > 0 && Loaded(plan, |rdram| - 1, ty, LastByte(tex.size, tx))
    ensures var picture := Decoding(RowsLoaded(tm, rdram, plan, rows), tex, false);
      IsImageTexel(Raster(picture, 0, tex.height), rdram, plan, tex, x, y, tx, ty)
  {
    hide IsAddressed;
    AddressedExactly(tex, x, y, tx, ty);
    assert plan.RowReadable(rdram, ty);
    RasterAt(Decoding(RowsLoaded(tm, rdram, plan, rows), tex, false), x, y, 0, tex.height);
    assert Inside(tex, false, x, y);
    FetchLoaded(tm, rdram, plan, rows, tex.size, tx, ty);
  }

  // -------------------------------------------------------------------------
  // What is seen in every decoded texture

  /** Texels (x, y) and (x', y') of a texture decoded from any TMEM are the same. */
  ghost predicate Alike(tm: seq<u8>, tex: Texture, lut: bool, x: nat, y: nat, x': nat, y': nat) {
    var decoded := Raster(Decoding(tm, tex, lut), 0, tex.height);
    var j, j' := Index(tex.width, x, y), Index(tex.width, x', y');
    j < |decoded| && j' < |decoded| && decoded[j] == decoded[j']
  }

  lemma AlikeIf(tm: seq<u8>, tex: Texture, lut: bool, x: nat, y: nat, x': nat, y': nat)
    requires x < tex.width && y < tex.height && x' < tex.width && y' < tex.height
    requires CoordS(tex, x) == CoordS(tex, x') && CoordT(tex, y) == CoordT(tex, y')
    ensures Alike(tm, tex, lut, x, y, x', y')
  {
    hide TexelCoord, Index, Raster;
    var p := Decoding(tm, tex, lut);
    RasterAt(p, x, y, 0, tex.height);
    RasterAt(p, x', y', 0, tex.height);
    assert p.at(x, y) == p.at(x', y');
  }

  lemma SameCoord(x: nat, x': nat, mask: nat, clamp: bool, clampSize: nat, mirror: bool, size: nat)
    requires x < size <= 0x8000 && x' < size && clampSize <= 0xFFFF
    requires mask > 0 && (Held(x', clamp, clampSize) - Held(x, clamp, clampSize)) % Bits.Pow2(mask) == 0
    ensures TexelCoord(x, mask, clamp, clampSize, mirror, size) == TexelCoord(x', mask, clamp, clampSize, mirror, size)
  {
    hide TexelCoord, IsMasked;
    CoordInside(x, mask, clamp, clampSize, mirror, size);
    CoordInside(x', mask, clamp, clampSize, mirror, size);
    MaskedUnique(Held(x, clamp, clampSize), Held(x', clamp, clampSize),
                 TexelCoord(x, mask, clamp, clampSize, mirror, size),
                 TexelCoord(x', mask, clamp, clampSize, mirror, size), mask);
  }

  /** A masked axis that is not clamped repeats every `2 ^ mask` texels, whatever TMEM holds and for all texel sizes. */
  lemma TextureRepeats(tm: seq<u8>, tex: Texture, lut: bool, x: nat, y: nat, x': nat, y': nat)
    requires Has16Bits(tex) && x < tex.width && y < tex.height && x' < tex.width && y' < tex.height
    requires x == x' || (!tex.clampS && tex.maskS > 0 && (x' - x) % Bits.Pow2(tex.maskS) == 0)
    requires y == y' || (!tex.clampT && tex.maskT > 0 && (y' - y) % Bits.Pow2(tex.maskT) == 0)
    ensures Alike(tm, tex, lut, x, y, x', y')
  {
    hide TexelCoord, Alike;
    if x != x' {
      SameCoord(x, x', tex.maskS, tex.clampS, tex.clampWidth, tex.mirrorS, tex.width);
    }
    if y != y' {
      SameCoord(y, y', tex.maskT, tex.clampT, tex.clampHeight, tex.mirrorT, tex.height);
    }
    AlikeIf(tm, tex, lut, x, y, x', y');
  }

  /** Beyond a clamp every texel is the last one before it. */
  lemma TextureHeld(tm: seq<u8>, tex: Texture, lut: bool, x: nat, y: nat)
    requires Has16Bits(tex) && x < tex.width && y < tex.height
    ensures Alike(tm, tex, lut, x, y, Held(x, tex.clampS, tex.clampWidth), Held(y, tex.clampT, tex.clampHeight))
  {
    hide Alike;
    AlikeIf(tm, tex, lut, x, y, Held(x, tex.clampS, tex.clampWidth), Held(y, tex.clampT, tex.clampHeight));
  }
}
