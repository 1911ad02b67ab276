/** What the texture load commands of GLideN64/src/gDP.cpp mean for the texture image they load from. */
module Commands {
  import opened Arith
  import opened BlockLoad
  import opened BlockTile
  import opened Convert
  import opened Dxt
  import opened Gdp
  import opened Machine
  import opened TexelFetch
  import opened Tile32
  import opened TileLoad

  /** Byte address of texel (s, t) of a texture image. */
  function TexelAddress(image: TextureImage, s: nat, t: nat): nat {
    image.address + t * image.bpl + TexelBytes(s, image.size)
  }

  /** The N64's texel (s, t) of an 8 or 16-bit image. */
  function ImageTexel(rdram: Rdram, image: TextureImage, s: nat, t: nat): nat
    requires 1 <= image.size <= 2 && TexelAddress(image, s, t) + 1 < |rdram|
  {
    BigEndianTexel(rdram, image.size, TexelAddress(image, s, t), 0)
  }

  /** `h` rows that do not overlap, fit TMEM, and lie inside RDRAM with room for whole lines. */
  predicate PlanFits(rdram: Rdram, plan: Plan, h: nat) {
    h > 0 && plan.line > 0 && Separate(plan, h) && plan.Qword(h) <= 512 && plan.Address(h - 1) + 8 * plan.line < |rdram|
  }

  lemma AddressMonotone(plan: Plan, y: nat, y': nat)
    requires y <= y'
    ensures plan.Address(y) <= plan.Address(y')
  {
    MulMonotone(plan.stride, y, y');
  }

  lemma WholeRow(rdram: Rdram, plan: Plan, h: nat, y: nat)
    requires PlanFits(rdram, plan, h) && y < h
    ensures plan.RowReadable(rdram, y) && plan.Bytes(|rdram| - 1, y) == plan.rowBytes && plan.Address(y) < |rdram| - 1
    ensures plan.Address(y) + plan.rowBytes < |rdram|
  {
    AddressMonotone(plan, y, h - 1);
  }

  /** No row of a fitting load is cut or left out. */
  lemma WholeRows(rdram: Rdram, plan: Plan, h: nat)
    requires PlanFits(rdram, plan, h)
    ensures RowCount(plan, |rdram| - 1, h) == h && plan.Readable(rdram, h)
  {
    forall y | 0 <= y < h
      ensures plan.RowReadable(rdram, y) && plan.Address(y) < |rdram| - 1
    {
      WholeRow(rdram, plan, h, y);
    }
    RowCountExact(plan, |rdram| - 1, h);
  }

  /** A row holds whole qwords, enough for its texels. */
  lemma RowHolds(t: Tile, image: TextureImage, tx: nat)
    requires 1 <= t.size <= 2 && t.size == image.size && tx < TileWidth(t)
    ensures var plan := TilePlan(t, image); LastByte(t.size, tx) < 8 * (plan.rowBytes / 8) == plan.rowBytes
  {
    var unit, width := QwordTexels(t.size), TileWidth(t);
    var r := RoundedUp(width, unit);
    var q := if width % unit == 0 then width / unit else width / unit + 1;
    assert r == q * unit && r >= width by {
      if t.size == 1 {
        assert width == 8 * (width / 8) + width % 8;
      } else {
        assert width == 4 * (width / 4) + width % 4;
      }
    }
    DivisionIs(TexelBytes(r, t.size), 8, q, 0);
  }

  /**
   * After gDPLoadTile a fetch at (tx, ty) yields texel (uls + tx, ult + ty) of the texture image, for 8 and 16-bit
   * images of every alignment, stride and tile rectangle.
   */
  lemma TileShowsImage(tm: seq<u8>, rdram: Rdram, t: Tile, image: TextureImage, tx: nat, ty: nat)
    requires |tm| == 4096 && 1 <= t.size <= 2 && t.size == image.size && Loads(t, false)
    requires PlanFits(rdram, TilePlan(t, image), TileHeight(t))
    requires tx < TileWidth(t) && ty < TileHeight(t)
    ensures TileReadable(rdram, t, image) && TexelAddress(image, t.uls + tx, t.ult + ty) + 1 < |rdram|
    ensures var tm', base := TmemAfterTile(tm, rdram, t, image, false), RowBase(t.tmem, t.line, ty, false);
      Reads(t.size, base, tx, ty) <= 4096 &&
      Unswapped(t.size, RawTexel(tm', t.size, base, tx, ty)) == ImageTexel(rdram, image, t.uls + tx, t.ult + ty)
  {
    var plan, h := TilePlan(t, image), TileHeight(t);
    WholeRows(rdram, plan, h);
    RowHolds(t, image, tx);
    WholeRow(rdram, plan, h, ty);
    TexelPlace(t, image, tx, ty);
    FetchLoaded(tm, rdram, plan, h, t.size, tx, ty);
  }

  lemma TexelPlace(t: Tile, image: TextureImage, tx: nat, ty: nat)
    requires 1 <= t.size <= 2 && t.size == image.size
    ensures TexelAddress(image, t.uls + tx, t.ult + ty) == TilePlan(t, image).Address(ty) + TexelBytes(tx, t.size)
  {
    assert (t.ult + ty) * image.bpl == t.ult * image.bpl + ty * image.bpl;
  }

  /** The tile loads the rectangle from (s0, t0) to (s1, t1) of a texture image of its own texel size, 8 or 16 bits. */
  ghost predicate LoadsRectangle(rdram: Rdram, t: Tile, image: TextureImage, s0: nat, t0: nat, s1: nat, t1: nat)
    requires IsRectangle(s0, t0, s1, t1)
  {
    && 1 <= t.size <= 2 && t.size == image.size && t.line > 0
    && PlanFits(rdram, Plan(TexelAddress(image, s0, t0), image.bpl, t.tmem, t.line, QwordBytes(t, s1 - s0 + 1)),
                t1 - t0 + 1)
  }

  /** Corners in order, and not all 1024 texels of a row or column, which a load takes for none. */
  predicate IsRectangle(s0: nat, t0: nat, s1: nat, t1: nat) {
    s0 <= s1 < 1024 && t0 <= t1 < 1024 && s1 - s0 < 1023 && t1 - t0 < 1023
  }

  /** A fetch at (tx, ty) of a tile yields texel (s0 + tx, t0 + ty) of the image. */
  ghost predicate Shows(tm: seq<u8>, rdram: Rdram, t: Tile, image: TextureImage, s0: nat, t0: nat, tx: nat, ty: nat) {
    var base := RowBase(t.tmem, t.line, ty, false);
    && |tm| == 4096 && 1 <= t.size == image.size <= 2
    && Reads(t.size, base, tx, ty) <= 4096 && TexelAddress(image, s0 + tx, t0 + ty) + 1 < |rdram|
    && Unswapped(t.size, RawTexel(tm, t.size, base, tx, ty)) == ImageTexel(rdram, image, s0 + tx, t0 + ty)
  }

  /** Whole qwords of a row, in texels and in bytes. */
  lemma RoundedTexels(t: Tile, width: nat)
    requires 1 <= t.size <= 2
    ensures TexelBytes(RoundedUp(width, QwordTexels(t.size)), t.size) == QwordBytes(t, width)
  {
    if t.size == 2 {
      assert width == 4 * (width / 4) + width % 4;
      DivisionIs(2 * width, 8, width / 4, 2 * (width % 4));
    }
  }

  /** What a rectangle makes of the tile. */
  lemma RectanglePlan(t: Tile, image: TextureImage, s0: nat, t0: nat, s1: nat, t1: nat)
    requires IsRectangle(s0, t0, s1, t1) && 1 <= t.size <= 2 && t.size == image.size && t.line > 0
    requires t.uls == s0 && t.ult == t0 && t.lrs == s1 && t.lrt == t1
    ensures Loads(t, false) && TileWidth(t) == s1 - s0 + 1 && TileHeight(t) == t1 - t0 + 1
    ensures TilePlan(t, image)
         == Plan(TexelAddress(image, s0, t0), image.bpl, t.tmem, t.line, QwordBytes(t, s1 - s0 + 1))
  {
    hide TexelBytes, RoundedUp;
    RoundedTexels(t, s1 - s0 + 1);
  }

  /**
   * gDPLoadTile with the corners (s0, t0) and (s1, t1), given in fixed point with any fractions: a fetch at (tx, ty)
   * yields texel (s0 + tx, t0 + ty).
   */
  lemma CornersShowImage(tm: seq<u8>, rdram: Rdram, t: Tile, image: TextureImage, s0: nat, t0: nat, s1: nat, t1: nat,
                         uls: nat, ult: nat, lrs: nat, lrt: nat, tx: nat, ty: nat)
    requires |tm| == 4096 && IsRectangle(s0, t0, s1, t1) && LoadsRectangle(rdram, t, image, s0, t0, s1, t1)
    requires IsFixed(uls, s0) && IsFixed(ult, t0) && IsFixed(lrs, s1) && IsFixed(lrt, t1)
    requires tx <= s1 - s0 && ty <= t1 - t0
    ensures var r := Resized(t, uls, ult, lrs, lrt);
      Loads(r, false) && TileReadable(rdram, r, image) &&
      Shows(TmemAfterTile(tm, rdram, r, image, false), rdram, r, image, s0, t0, tx, ty)
  {
    hide PlanFits, RawTexel, Reads, TileReadable, TmemAfterTile, Unswapped, TilePlan, TexelBytes, IsFixed, Coord,
      RoundedUp, TileWidth, TileHeight, RowBase, TexelAddress;
    FixedIs(uls, s0);
    FixedIs(ult, t0);
    FixedIs(lrs, s1);
    FixedIs(lrt, t1);
    var r := Resized(t, uls, ult, lrs, lrt);
    RectanglePlan(r, image, s0, t0, s1, t1);
    TileShowsImage(tm, rdram, r, image, tx, ty);
  }

  /** Rows of no bytes, up to row `last` inside RDRAM. */
  lemma {:induction false} EmptyRows(tm: seq<u8>, rdram: Rdram, plan: Plan, last: nat, rows: nat)
    requires |tm| == 4096 && plan.rowBytes == 0 && rows <= last + 1 && plan.Address(last) + 8 * plan.line < |rdram|
    ensures plan.Readable(rdram, rows) && RowsLoaded(tm, rdram, plan, rows) == tm
  {
    if rows > 0 {
      EmptyRows(tm, rdram, plan, last, rows - 1);
      AddressMonotone(plan, rows - 1, last);
      assert plan.RowReadable(rdram, rows - 1);
    }
  }

  /**
   * A tile is as wide and as high as its corners say exactly if these are less than 1024 texels apart; of a row or a
   * column of all 1024 texels nothing is loaded.
   */
  lemma FullRowLoadsNothing(tm: seq<u8>, rdram: Rdram, t: Tile, image: TextureImage)
    requires |tm| == 4096 && t.uls <= t.lrs < 1024 && t.ult <= t.lrt < 1024 && t.size < 3 && |rdram| > 0
    requires var h := t.lrt - t.ult; TilePlan(t, image).Address(h) + 8 * t.line < |rdram|
    ensures TileWidth(t) == t.lrs - t.uls + 1 <==> t.lrs - t.uls < 1023
    ensures TileHeight(t) == t.lrt - t.ult + 1 <==> t.lrt - t.ult < 1023
    ensures t.lrs - t.uls == 1023 || t.lrt - t.ult == 1023 ==>
      (Loads(t, false) ==> TileReadable(rdram, t, image)) && TmemAfterTile(tm, rdram, t, image, false) == tm
  {
    hide TilePlan, RowsLoaded, RowCount, TexelBytes;
    if t.lrs - t.uls == 1023 {
      NoBytes(t, image);
      EmptyRows(tm, rdram, TilePlan(t, image), t.lrt - t.ult, TileRows(t, image, |rdram| - 1));
    }
    NoRows(tm, rdram, TilePlan(t, image));
  }

  lemma NoBytes(t: Tile, image: TextureImage)
    requires TileWidth(t) == 0
    ensures TilePlan(t, image).rowBytes == 0 && TilePlan(t, image).line == t.line
  {
  }

  lemma NoRows(tm: seq<u8>, rdram: Rdram, plan: Plan)
    requires |tm| == 4096
    ensures RowsLoaded(tm, rdram, plan, 0) == tm
  {
  }

  /** gDPLoadTile of a rectangle, whose corners are given in texels: its texels are there to be fetched. */
  method LoadRectangle(gdp: Gdp, rdram: Rdram, tile: nat, s0: nat, t0: nat, s1: nat, t1: nat)
    requires gdp.Valid() && tile < 8 && IsRectangle(s0, t0, s1, t1)
    requires LoadsRectangle(rdram, gdp.tiles[tile], gdp.image, s0, t0, s1, t1)
    modifies gdp`tiles, gdp`loadTileIdx, gdp.tmem
    ensures gdp.Valid() && gdp.loadTileIdx == tile && |gdp.tiles| == |old(gdp.tiles)|
    ensures forall tx, ty :: 0 <= tx <= s1 - s0 && 0 <= ty <= t1 - t0 ==>
      Shows(gdp.tmem[..], rdram, gdp.tiles[tile], gdp.image, s0, t0, tx, ty)
  {
    hide LoadsRectangle, TileReadable, TmemAfterTile, RawTexel, Reads, TexelAddress, ImageTexel, Coord;
    ghost var tm, t, image := gdp.tmem[..], gdp.tiles[tile], gdp.image;
    assert IsFixed(4 * s0, s0) && IsFixed(4 * t0, t0) && IsFixed(4 * s1, s1) && IsFixed(4 * t1, t1);
    CornersShowImage(tm, rdram, t, image, s0, t0, s1, t1, 4 * s0, 4 * t0, 4 * s1, 4 * t1, 0, 0);
    gdp.LoadTile(rdram, tile, 4 * s0, 4 * t0, 4 * s1, 4 * t1, false);
    forall tx, ty | 0 <= tx <= s1 - s0 && 0 <= ty <= t1 - t0
      ensures Shows(gdp.tmem[..], rdram, gdp.tiles[tile], gdp.image, s0, t0, tx, ty)
    {
      CornersShowImage(tm, rdram, t, image, s0, t0, s1, t1, 4 * s0, 4 * t0, 4 * s1, 4 * t1, tx, ty);
    }
  }

  /** The index of word (s, t) of a 32-bit image. */
  function ImageWord(image: TextureImage, s: nat, t: nat): nat {
    image.address / 4 + t * image.width + s
  }

  /** After gDPLoadTile for 32 bits a fetch yields word (uls + tx, ult + ty) of the image, byte-reversed. */
  lemma TileShowsImage32(tm: seq<u8>, rdram: Rdram, t: Tile, image: TextureImage, clampWidth: nat, tx: nat, ty: nat)
    requires |tm| == 4096 && t.size == 3 && Loads(t, false) && |rdram| > 0
    requires var plan := TilePlan32(t, image);
      plan.Readable(rdram) && plan.Separate() && tx < plan.width && ty < plan.height
    requires clampWidth >= 1
    ensures TileReadable(rdram, t, image) && Line32(clampWidth, t.line) >= 0
    ensures var w := ImageWord(image, t.uls + tx, t.ult + ty);
      4 * w + 4 <= |rdram| &&
      Merged(TmemAfterTile(tm, rdram, t, image, false), FetchPtr(t.tmem, Line32(clampWidth, t.line), tx, ty))
      == Reversed(rdram, w)
  {
    var plan := TilePlan32(t, image);
    SplitThenMerge(tm, rdram, plan, clampWidth, tx, ty);
    assert plan.Word(ty, tx) == ImageWord(image, t.uls + tx, t.ult + ty);
  }

  /** The tile loads a rectangle of a 32-bit image, in rows that do not overlap and fit a bank. */
  ghost predicate LoadsRectangle32(rdram: Rdram, t: Tile, image: TextureImage, s0: nat, t0: nat, s1: nat, t1: nat) {
    && s0 <= s1 < 1024 && t0 <= t1 < 1024 && t.size == 3 && t.line > 0
    && s1 - s0 + 1 <= 4 * t.line && t.line * (t1 - t0 + 1) <= 256
    && 4 * ImageWord(image, s1, t1) + 4 <= |rdram|
  }

  lemma WordsInside(rdram: Rdram, t: Tile, image: TextureImage, s0: nat, t0: nat, s1: nat, t1: nat)
    requires LoadsRectangle32(rdram, t, image, s0, t0, s1, t1)
    requires t.uls == s0 && t.ult == t0 && t.lrs == s1 && t.lrt == t1
    ensures Loads(t, false) && TilePlan32(t, image).Readable(rdram) && TilePlan32(t, image).Separate()
  {
    var plan := TilePlan32(t, image);
    forall j, i | 0 <= j < plan.height && 0 <= i < plan.width
      ensures 4 * plan.Word(j, i) + 4 <= |rdram|
    {
      MulMonotone(image.width, j + t0, t1);
      assert (j + t0) * image.width <= t1 * image.width;
    }
  }

  /** gDPLoadTile for the corners (s0, t0) and (s1, t1) of a 32-bit image, given in fixed point with any fractions. */
  lemma CornersShowImage32(tm: seq<u8>, rdram: Rdram, t: Tile, image: TextureImage, s0: nat, t0: nat, s1: nat, t1: nat,
                           uls: nat, ult: nat, lrs: nat, lrt: nat, clampWidth: nat, tx: nat, ty: nat)
    requires |tm| == 4096 && LoadsRectangle32(rdram, t, image, s0, t0, s1, t1) && |rdram| > 0 && clampWidth >= 1
    requires IsFixed(uls, s0) && IsFixed(ult, t0) && IsFixed(lrs, s1) && IsFixed(lrt, t1)
    requires tx <= s1 - s0 && ty <= t1 - t0
    ensures var r, w := Resized(t, uls, ult, lrs, lrt), ImageWord(image, s0 + tx, t0 + ty);
      && Loads(r, false) && TileReadable(rdram, r, image) && Line32(clampWidth, t.line) >= 0 && 4 * w + 4 <= |rdram|
      && Merged(TmemAfterTile(tm, rdram, r, image, false), FetchPtr(t.tmem, Line32(clampWidth, t.line), tx, ty))
         == Reversed(rdram, w)
  {
    hide IsFixed, Coord, TmemAfterTile, TileReadable, Merged, Reversed, FetchPtr, Line32, ImageWord;
    FixedIs(uls, s0);
    FixedIs(ult, t0);
    FixedIs(lrs, s1);
    FixedIs(lrt, t1);
    var r := Resized(t, uls, ult, lrs, lrt);
    WordsInside(rdram, r, image, s0, t0, s1, t1);
    TileShowsImage32(tm, rdram, r, image, clampWidth, tx, ty);
  }

  // -------------------------------------------------------------------------
  // Block and tile commands

  /** The tile command's rectangle covers a contiguous image of `h` lines of `w` qwords. */
  predicate CoversImage(t: Tile, image: TextureImage, w: nat, h: nat) {
    && 1 <= t.size <= 2 && t.size == image.size && image.bpl == 8 * w && t.line == w
    && t.uls == 0 && t.ult == 0 && t.lrs + 1 == QwordTexels(t.size) * w < 1024 && t.lrt + 1 == h < 1024
  }

  lemma CoveringPlan(t: Tile, image: TextureImage, w: nat, h: nat)
    requires CoversImage(t, image, w, h) && w >= 1 && h >= 1
    ensures TilePlan(t, image) == Contiguous(image.address, t.tmem, w) && TileHeight(t) == h
  {
    assert TileWidth(t) == QwordTexels(t.size) * w;
    if t.size == 1 {
      DivisionIs(8 * w, 8, w, 0);
    } else {
      DivisionIs(4 * w, 4, w, 0);
    }
  }

  /** The size of a block of `n` qwords. */
  lemma BlockOfQwords(t: Tile, n: nat)
    requires 1 <= t.size <= 2 && n >= 1 && QwordTexels(t.size) * n < 0x1000
    ensures BlockBytes(t, 0, QwordTexels(t.size) * n - 1) == 8 * n
  {
    DivisionIs(8 * n, 8, n, 0);
  }

  /**
   * gDPLoadBlock of a whole image, with the dxt of its line length, and gDPLoadTile of it leave the same TMEM, below
   * the bound on the rounding error of dxt.
   */
  lemma BlockCommandIsTileCommand(tm: seq<u8>, rdram: Rdram, block: Tile, t: Tile, image: TextureImage, w: nat, h: nat)
    requires |tm| == 4096 && w >= 1 && h >= 1 && CoversImage(t, image, w, h)
    requires block.size == t.size && block.tmem == t.tmem
    requires w * h <= 512 && QwordTexels(t.size) * (w * h) < 0x1000
    requires image.address + 8 * (w * h) < |rdram|
    requires ExcessFits(w, w * h)
    ensures TileReadable(rdram, t, image)
    ensures TmemAfterBlock(tm, rdram, block, image, 0, 0, QwordTexels(t.size) * (w * h) - 1, CalculateDXT(w))
         == TmemAfterTile(tm, rdram, t, image, false)
  {
    CoveringPlan(t, image, w, h);
    CoveredRows(rdram, t, image, w, h);
    TileIsTileTmem(tm, rdram, t, image, w, h);
    BlockIsBlockTmem(tm, rdram, block, image, w, h);
    BlockIsTile(tm, rdram, image.address, t.tmem, w, h);
  }

  lemma TileIsTileTmem(tm: seq<u8>, rdram: Rdram, t: Tile, image: TextureImage, w: nat, h: nat)
    requires Fits(tm, rdram, image.address, w, h) && 1 <= t.size <= 2 && Loads(t, false) && h >= 1
    requires TilePlan(t, image) == Contiguous(image.address, t.tmem, w) && TileRows(t, image, |rdram| - 1) == h
    ensures TileReadable(rdram, t, image)
    ensures TmemAfterTile(tm, rdram, t, image, false) == TileTmem(tm, rdram, image.address, t.tmem, w, h)
  {
    ContiguousReadable(rdram, image.address, t.tmem, w, h);
  }

  lemma BlockIsBlockTmem(tm: seq<u8>, rdram: Rdram, t: Tile, image: TextureImage, w: nat, h: nat)
    requires Fits(tm, rdram, image.address, w, h) && 1 <= t.size <= 2 && w >= 1 && w * h >= 1
    requires QwordTexels(t.size) * (w * h) < 0x1000
    ensures TmemAfterBlock(tm, rdram, t, image, 0, 0, QwordTexels(t.size) * (w * h) - 1, CalculateDXT(w))
         == BlockTmem(tm, rdram, image.address, t.tmem, w, h)
  {
    ExcessNonNegative(w);
    BlockOfQwords(t, w * h);
    DivisionIs(8 * (w * h), 8, w * h, 0);
  }

  lemma CoveredRows(rdram: Rdram, t: Tile, image: TextureImage, w: nat, h: nat)
    requires CoversImage(t, image, w, h) && w >= 1 && h >= 1 && image.address + 8 * (w * h) < |rdram|
    ensures TileRows(t, image, |rdram| - 1) == h && Loads(t, false) && w * h >= 1
  {
    var plan := TilePlan(t, image);
    CoveringPlan(t, image, w, h);
    ContiguousReadable(rdram, image.address, t.tmem, w, h);
    forall y | 0 <= y < h
      ensures plan.Address(y) < |rdram| - 1
    {
      MulMonotone(w, y + 1, h);
      assert w * (y + 1) == w * y + w;
      assert plan.Address(y) == image.address + 8 * (w * y);
    }
    RowCountExact(plan, |rdram| - 1, h);
    MulAtLeast(h, w);
    assert w * h == h * w;
  }

  /** The whole qwords that hold `texels` texels. */
  function QwordBytes(t: Tile, texels: nat): nat {
    RoundedUp(TexelBytes(texels, t.size), 8)
  }

  /** A block is as large as the texels it names exactly if they are fewer than 4096, the most the command can name. */
  lemma BlockBytesExactly(t: Tile, uls: nat, lrs: nat)
    requires uls <= lrs <= 0xFFF && t.size <= 3
    ensures BlockBytes(t, uls, lrs) == QwordBytes(t, lrs - uls + 1) <==> lrs - uls < 0xFFF
    ensures lrs - uls == 0xFFF ==> BlockBytes(t, uls, lrs) == 0
  {
    if lrs - uls == 0xFFF {
      assert TexelBytes(0x1000, t.size) >= 0x800;
    }
  }

  /** TMEM after a block load of all the texels named. */
  ghost function NamedLoaded(tm: seq<u8>, rdram: Rdram, t: Tile, image: TextureImage, uls: nat, ult: nat, lrs: nat,
                             dxt: nat): seq<u8>
    requires |tm| == 4096 && uls <= lrs && NamedReadable(rdram, t, image, uls, ult, lrs)
  {
    var address, bytes := TexelAddress(image, uls, ult), QwordBytes(t, lrs - uls + 1);
    if dxt == 0 then Copied(tm, 8 * t.tmem, rdram, address, bytes)
    else BlockLoaded(tm, rdram, address, t.tmem, bytes / 8, dxt)
  }

  /** The texels named lie inside RDRAM. */
  predicate NamedReadable(rdram: Rdram, t: Tile, image: TextureImage, uls: nat, ult: nat, lrs: nat)
    requires uls <= lrs
  {
    TexelAddress(image, uls, ult) + QwordBytes(t, lrs - uls + 1) < |rdram|
  }

  /** What a block load does with the texels it names: it loads them all, or, if they are 4096, none of them. */
  lemma BlockLoadsNamed(tm: seq<u8>, rdram: Rdram, t: Tile, image: TextureImage, uls: nat, ult: nat, lrs: nat, dxt: nat)
    requires |tm| == 4096 && uls <= lrs <= 0xFFF && t.size < 3 && NamedReadable(rdram, t, image, uls, ult, lrs)
    ensures TmemAfterBlock(tm, rdram, t, image, uls, ult, lrs, dxt)
         == if lrs - uls == 0xFFF then tm else NamedLoaded(tm, rdram, t, image, uls, ult, lrs, dxt)
  {
    BlockBytesExactly(t, uls, lrs);
    QwordBytesWhole(t, lrs - uls + 1);
  }

  /** A block that reaches the last byte of RDRAM or beyond is not loaded at all. */
  lemma BlockPastEnd(tm: seq<u8>, rdram: Rdram, t: Tile, image: TextureImage, uls: nat, ult: nat, lrs: nat, dxt: nat)
    requires |tm| == 4096 && uls <= lrs <= 0xFFF && lrs - uls < 0xFFF && t.size < 3
    requires !NamedReadable(rdram, t, image, uls, ult, lrs)
    ensures TmemAfterBlock(tm, rdram, t, image, uls, ult, lrs, dxt) == tm
  {
    hide QwordBytes, BlockBytes, Copied, BlockLoaded, TexelBytes;
    BlockBytesExactly(t, uls, lrs);
  }

  lemma QwordBytesWhole(t: Tile, texels: nat)
    ensures QwordBytes(t, texels) % 8 == 0
    ensures texels > 1 ==> QwordBytes(t, texels) > 0
  {
  }

  /** A block load stores the texels it names, whatever TMEM and RDRAM hold. */
  ghost predicate LoadsNamed(t: Tile, image: TextureImage, uls: nat, ult: nat, lrs: nat, dxt: nat)
    requires uls <= lrs
  {
    forall tm: seq<u8>, rdram: Rdram | |tm| == 4096 && NamedReadable(rdram, t, image, uls, ult, lrs) ::
      TmemAfterBlock(tm, rdram, t, image, uls, ult, lrs, dxt) == NamedLoaded(tm, rdram, t, image, uls, ult, lrs, dxt)
  }

  /** RDRAM that holds nothing but ones. */
  function Ones(words: nat): (rdram: Rdram)
    ensures |rdram| == 4 * words && forall i :: 0 <= i < |rdram| ==> rdram[i] == 1
  {
    var s: seq<u8> := seq(4 * words, _ => 1);
    s
  }

  /** The last byte copied is there. */
  lemma LastCopied(tm: seq<u8>, d: nat, words: nat, a: nat, n: nat)
    requires |tm| == 4096 && n > 0 && a + n <= 4 * words
    ensures 1 in Copied(tm, d, Ones(words), a, n)
  {
    assert Copied(tm, d, Ones(words), a, n)[(d + n - 1) % 4096] == 1;
  }

  /** Exchanging halves loses no byte. */
  lemma {:induction false} OneStays(mem: seq<u8>, t: nat, odd: nat -> bool, n: nat)
    requires |mem| == 4096 && 1 in mem
    ensures 1 in LinesSwapped(mem, t, odd, n)
    decreases n
  {
    if n > 0 {
      OneStays(mem, t, odd, n - 1);
      var before, q := LinesSwapped(mem, t, odd, n - 1), (t + n - 1) % 512;
      var p :| 0 <= p < 4096 && before[p] == 1;
      var p' := if p / 8 == q then Xor4(p) else p;
      WordsSwappedAt(before, q, p');
      WordsSwappedAt(before, q, p);
      assert Xor4(Xor4(p)) == p;
    }
  }

  /** 4096 texels of ones would leave a one in empty TMEM. */
  lemma FullBlockDiffers(t: Tile, image: TextureImage, uls: nat, ult: nat, lrs: nat, dxt: nat)
    requires uls <= lrs <= 0xFFF && t.size < 3 && lrs - uls == 0xFFF
    ensures !LoadsNamed(t, image, uls, ult, lrs, dxt)
  {
    hide Copied, LinesSwapped, OddLines, TexelAddress;
    var bytes, a := QwordBytes(t, 0x1000), TexelAddress(image, uls, ult);
    var tm, words := Cleared(4096), a + bytes + 1;
    QwordBytesWhole(t, 0x1000);
    BlockLoadsNamed(tm, Ones(words), t, image, uls, ult, lrs, dxt);
    LastCopied(tm, 8 * t.tmem, words, a, bytes);
    OneStays(Copied(tm, 8 * t.tmem, Ones(words), a, bytes), t.tmem, OddLines(dxt), bytes / 8);
    assert 1 !in tm;
  }

  /** A block load stores the texels it names exactly if they are fewer than 4096. */
  lemma LoadsNamedExactly(t: Tile, image: TextureImage, uls: nat, ult: nat, lrs: nat, dxt: nat)
    requires uls <= lrs <= 0xFFF && t.size < 3
    ensures LoadsNamed(t, image, uls, ult, lrs, dxt) <==> lrs - uls < 0xFFF
  {
    hide TmemAfterBlock, NamedLoaded, NamedReadable;
    if lrs - uls < 0xFFF {
      forall tm: seq<u8>, rdram: Rdram | |tm| == 4096 && NamedReadable(rdram, t, image, uls, ult, lrs)
        ensures TmemAfterBlock(tm, rdram, t, image, uls, ult, lrs, dxt)
                == NamedLoaded(tm, rdram, t, image, uls, ult, lrs, dxt)
      {
        BlockLoadsNamed(tm, rdram, t, image, uls, ult, lrs, dxt);
      }
    } else {
      FullBlockDiffers(t, image, uls, ult, lrs, dxt);
    }
  }
}
