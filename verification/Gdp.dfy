/** The texture load commands of GLideN64/src/gDP.cpp as methods on the graphics state they write. */
module Gdp {
  import opened Arith
  import opened BlockTile
  import opened Convert
  import opened Machine
  import opened Tile32
  import opened TileLoad

  datatype LoadType = LoadBlockType | LoadTileType

  /** The fields of gDPTile that loading uses; `size` is G_IM_SIZ_4b .. G_IM_SIZ_32b, that is 0 .. 3. */
  datatype Tile = Tile(size: nat, line: nat, tmem: nat, uls: nat, ult: nat, lrs: nat, lrt: nat,
                       loadType: LoadType, imageAddress: nat)

  datatype TextureImage = TextureImage(address: nat, size: nat, width: nat, bpl: nat)

  /** `_SHIFTR(v, 2, 10)` */
  function Coord(v: nat): nat {
    v / 4 % 1024
  }

  function Resized(t: Tile, uls: nat, ult: nat, lrs: nat, lrt: nat): Tile {
    t.(uls := Coord(uls), ult := Coord(ult), lrs := Coord(lrs), lrt := Coord(lrt))
  }

  /** The low twelve bits of `v` are a 10.2 fixed-point number: texel `c` and some quarters of a texel. */
  predicate IsFixed(v: nat, c: nat) {
    c < 1024 && (v - 4 * c) % 4096 < 4
  }

  /** The texel of a command's argument is the whole part of the number in its low twelve bits, and no other one. */
  lemma FixedExactly(high: nat, c: nat, quarters: nat, c': nat)
    requires c < 1024 && quarters < 4
    ensures Coord(4096 * high + 4 * c + quarters) == c
    ensures IsFixed(4096 * high + 4 * c + quarters, c') <==> c' == c
  {
    var v := 4096 * high + 4 * c + quarters;
    DivisionIs(v, 4, 1024 * high + c, quarters);
    DivisionIs(v / 4, 1024, high, c);
    if c' < 1024 {
      var d := 4 * c + quarters - 4 * c';
      DivisionIs(4096 * high + d, 4096, if d < 0 then high - 1 else high, if d < 0 then 4096 + d else d);
    }
  }

  lemma FixedIs(v: nat, c: nat)
    ensures IsFixed(v, c) <==> Coord(v) == c
  {
    FixedExactly(v / 4 / 1024, v / 4 % 1024, v % 4, c);
  }

  /** Texels per qword of the image, `wmask + 1`. */
  function QwordTexels(size: nat): (n: nat)
    ensures n >= 1
    ensures if 1 <= size <= 3 then TexelBytes(n, size) == 8 else n == 1
  {
    if size == 1 then 8 else if size == 2 then 4 else if size == 3 then 2 else 1
  }

  /** `n` rounded up to a multiple of `unit`. */
  function RoundedUp(n: nat, unit: nat): nat
    requires unit >= 1
  {
    if n % unit == 0 then n else n - n % unit + unit
  }

  function TileWidth(t: Tile): nat { (t.lrs - t.uls + 1) % 1024 }

  function TileHeight(t: Tile): nat { (t.lrt - t.ult + 1) % 1024 }

  function TilePlan(t: Tile, image: TextureImage): Plan {
    Plan(image.address + t.ult * image.bpl + TexelBytes(t.uls, image.size), image.bpl, t.tmem, t.line,
         TexelBytes(RoundedUp(TileWidth(t), QwordTexels(image.size)), t.size))
  }

  function TilePlan32(t: Tile, image: TextureImage): Plan32
    requires t.uls <= t.lrs && t.ult <= t.lrt
  {
    Plan32(image.address / 4, image.width, t.uls, t.ult, t.lrs - t.uls + 1, t.lrt - t.ult + 1, t.tmem, t.line)
  }

  /** gDPLoadTile reaches its copy loops. */
  predicate Loads(t: Tile, fbTexture: bool) {
    t.uls <= t.lrs && t.ult <= t.lrt && t.line != 0 && !fbTexture
  }

  function TileRows(t: Tile, image: TextureImage, rdramSize: nat): nat {
    RowCount(TilePlan(t, image), rdramSize, TileHeight(t))
  }

  /** The reads of a tile load stay inside RDRAM. */
  ghost predicate TileReadable(rdram: Rdram, t: Tile, image: TextureImage)
    requires t.uls <= t.lrs && t.ult <= t.lrt
  {
    |rdram| > 0 &&
    if t.size == 3 then TilePlan32(t, image).Readable(rdram)
    else TilePlan(t, image).Readable(rdram, TileRows(t, image, |rdram| - 1))
  }

  /** TMEM after gDPLoadTile. */
  ghost function TmemAfterTile(tm: seq<u8>, rdram: Rdram, t: Tile, image: TextureImage, fbTexture: bool): (r: seq<u8>)
    requires |tm| == 4096 && (Loads(t, fbTexture) ==> TileReadable(rdram, t, image))
    ensures |r| == 4096
  {
    if !Loads(t, fbTexture) then tm
    else if t.size == 3 then TileStored(tm, rdram, TilePlan32(t, image), TilePlan32(t, image).height)
    else RowsLoaded(tm, rdram, TilePlan(t, image), TileRows(t, image, |rdram| - 1))
  }

  function BlockBytes(t: Tile, uls: nat, lrs: nat): nat {
    RoundedUp(TexelBytes((lrs - uls + 1) % 0x1000, t.size), 8)
  }

  function BlockAddress(image: TextureImage, uls: nat, ult: nat): nat {
    image.address + ult * image.bpl + TexelBytes(uls, image.size)
  }

  /** TMEM after gDPLoadBlock. */
  ghost function TmemAfterBlock(tm: seq<u8>, rdram: Rdram, t: Tile, image: TextureImage, uls: nat, ult: nat, lrs: nat,
                                dxt: nat): seq<u8>
    requires |tm| == 4096
  {
    var bytes, address := BlockBytes(t, uls, lrs), BlockAddress(image, uls, ult);
    if bytes == 0 || address + bytes > |rdram| - 1 then tm
    else if dxt == 0 then Copied(tm, 8 * t.tmem, rdram, address, bytes)
    else BlockLoaded(tm, rdram, address, t.tmem, bytes / 8, dxt)
  }

  /** Whole qwords of a block. */
  method BlockSize(t: Tile, uls: nat, lrs: nat) returns (bytes: nat)
    ensures bytes == BlockBytes(t, uls, lrs) && bytes % 8 == 0
  {
    var width := (lrs - uls + 1) % 0x1000;
    bytes := TexelBytes(width, t.size);
    if bytes % 8 != 0 {
      bytes := bytes - bytes % 8 + 8;
    }
  }

  class Gdp {
    var tiles: seq<Tile>
    var loadTileIdx: nat
    var image: TextureImage
    const tmem: array<u8>

    ghost predicate Valid()
      reads this
    {
      |tiles| == 8 && loadTileIdx < 8 && tmem.Length == 4096
    }

    constructor (tiles: seq<Tile>, image: TextureImage)
      requires |tiles| == 8
      ensures Valid() && this.tiles == tiles && this.image == image && fresh(tmem)
    {
      this.tiles, this.image, loadTileIdx := tiles, image, 0;
      tmem := new u8[4096];
    }

    method SetTileSize(tile: nat, uls: nat, ult: nat, lrs: nat, lrt: nat)
      requires Valid() && tile < 8
      modifies this`tiles
      ensures Valid() && tiles == old(tiles)[tile := Resized(old(tiles)[tile], uls, ult, lrs, lrt)]
      ensures var t := tiles[tile];
        && IsFixed(uls, t.uls) && IsFixed(ult, t.ult) && IsFixed(lrs, t.lrs) && IsFixed(lrt, t.lrt)
        && t == old(tiles)[tile].(uls := t.uls, ult := t.ult, lrs := t.lrs, lrt := t.lrt)
    {
      FixedIs(uls, Coord(uls));
      FixedIs(ult, Coord(ult));
      FixedIs(lrs, Coord(lrs));
      FixedIs(lrt, Coord(lrt));
      tiles := tiles[tile := tiles[tile].(uls := Coord(uls), ult := Coord(ult), lrs := Coord(lrs), lrt := Coord(lrt))];
    }

    /** gDPLoadTile; `fbTexture` is what CheckForFrameBufferTexture answers. */
    method LoadTile(rdram: Rdram, tile: nat, uls: nat, ult: nat, lrs: nat, lrt: nat, fbTexture: bool)
      requires Valid() && tile < 8
      requires var t := Resized(tiles[tile], uls, ult, lrs, lrt); Loads(t, fbTexture) ==> TileReadable(rdram, t, image)
      modifies this`tiles, this`loadTileIdx, tmem
      ensures Valid() && loadTileIdx == tile
      ensures var t := Resized(old(tiles)[tile], uls, ult, lrs, lrt);
        && tiles == old(tiles)[tile := t.(loadType := LoadTileType, imageAddress := image.address)]
        && tmem[..] == TmemAfterTile(old(tmem[..]), rdram, t, image, fbTexture)
    {
      hide RowsLoaded, TileStored, TexelBytes;
      SetTileSize(tile, uls, ult, lrs, lrt);
      loadTileIdx := tile;
      tiles := tiles[tile := tiles[tile].(loadType := LoadTileType, imageAddress := image.address)];
      var t := tiles[tile];
      if t.lrs < t.uls || t.lrt < t.ult {
        return;
      }
      var width, height := (t.lrs - t.uls + 1) % 1024, (t.lrt - t.ult + 1) % 1024;
      var bpl := 8 * t.line;
      var unit := QwordTexels(image.size);
      var alignedWidth := width;
      if width % unit != 0 {
        alignedWidth := width - width % unit + unit;
      }
      var bpr := TexelBytes(alignedWidth, t.size);
      if t.line == 0 {
        return;
      }
      var address := image.address + t.ult * image.bpl + TexelBytes(t.uls, image.size);
      if fbTexture {
        return;
      }
      if t.size == 3 {
        LoadTile32b(rdram, tmem, image.address, image.width, t.uls, t.ult, t.lrs, t.lrt, t.tmem, t.line,
                    TilePlan32(t, image));
      } else {
        LoadRows(rdram, tmem, address, t.tmem, t.line, bpr, bpl, image.bpl, height);
      }
    }

    /** gDPLoadBlock for 4, 8 and 16-bit tiles. */
    method LoadBlock(rdram: Rdram, tile: nat, uls: nat, ult: nat, lrs: nat, dxt: nat)
      requires Valid() && tile < 8 && tiles[tile].size < 3 && |rdram| > 0
      modifies this`tiles, this`loadTileIdx, tmem
      ensures Valid() && loadTileIdx == tile
      ensures var t := Resized(old(tiles)[tile], uls, ult, lrs, dxt);
        && tiles == old(tiles)[tile := t.(loadType := LoadBlockType, imageAddress := image.address)]
        && tmem[..] == TmemAfterBlock(old(tmem[..]), rdram, t, image, uls, ult, lrs, dxt)
    {
      SetTileSize(tile, uls, ult, lrs, dxt);
      loadTileIdx := tile;
      tiles := tiles[tile := tiles[tile].(loadType := LoadBlockType, imageAddress := image.address)];
      var t := tiles[tile];
      var bytes := BlockSize(t, uls, lrs);
      var address := image.address + ult * image.bpl + TexelBytes(uls, image.size);
      if bytes == 0 || address + bytes > |rdram| - 1 {
        return;
      }
      LoadQwords(rdram, tmem, address, t.tmem, bytes, dxt);
    }
  }
}
