/** 32-bit texels: the split over two TMEM banks by gDPLoadTile32b and the merge in _getTextureDestData. */
module Tile32 {
  import opened Arith
  import opened Convert
  import opened Machine

  /** A 32-bit tile load: `width` by `height` texels, `imageWidth` texels per image row, first word at `word`. */
  datatype Plan32 = Plan32(word: nat, imageWidth: nat, uls: nat, ult: nat, width: nat, height: nat, tmem: nat,
                           line: nat)
  {
    /** RDRAM word of texel `i` of row `j`. */
    function Word(j: nat, i: nat): nat {
      word + (j + ult) * imageWidth + uls + i
    }

    /** Half-word where row `j` starts. */
    function Line(j: nat): nat {
      4 * tmem + 4 * line * j
    }

    /** TMEM half-word of texel `i` of row `j` in the lower bank. */
    function Ptr(j: nat, i: nat): nat {
      var at := Line(j) + i;
      (if j % 2 == 1 then Xor3(at) else Xor1(at)) % 1024
    }

    ghost predicate Readable(rdram: Rdram) {
      forall j, i :: 0 <= j < height && 0 <= i < width ==> 4 * Word(j, i) + 4 <= |rdram|
    }

    /** Rows do not reach into each other and a bank holds them all. */
    predicate Separate() {
      width <= 4 * line && line * height <= 256
    }
  }

  /** `tm16[ptr] = c >> 16; tm16[ptr | 0x400] = c & 0xffff` for the host word `c` at RDRAM word `w`. */
  ghost function TexelStored(tm: seq<u8>, rdram: Rdram, ptr: nat, w: nat): (r: seq<u8>)
    requires |tm| == 4096 && ptr < 1024 && 4 * w + 4 <= |rdram|
    ensures |r| == 4096
  {
    tm[2 * ptr := rdram[4 * w + 2]][2 * ptr + 1 := rdram[4 * w + 3]]
      [2 * (ptr + 1024) := rdram[4 * w]][2 * (ptr + 1024) + 1 := rdram[4 * w + 1]]
  }

  /** TMEM after the first `i` texels of row `j`. */
  ghost function RowStored(tm: seq<u8>, rdram: Rdram, plan: Plan32, j: nat, i: nat): (r: seq<u8>)
    requires |tm| == 4096 && plan.Readable(rdram) && j < plan.height && i <= plan.width
    ensures |r| == 4096
  {
    if i == 0 then tm
    else TexelStored(RowStored(tm, rdram, plan, j, i - 1), rdram, plan.Ptr(j, i - 1), plan.Word(j, i - 1))
  }

  /** TMEM after the first `rows` rows. */
  ghost function TileStored(tm: seq<u8>, rdram: Rdram, plan: Plan32, rows: nat): (r: seq<u8>)
    requires |tm| == 4096 && plan.Readable(rdram) && rows <= plan.height
    ensures |r| == 4096
  {
    if rows == 0 then tm
    else RowStored(TileStored(tm, rdram, plan, rows - 1), rdram, plan, rows - 1, plan.width)
  }

  // -------------------------------------------------------------------------
  // Addressing

  /** Inside an aligned group of four, the xor permutes. */
  function Lane(odd: bool, r: nat): (l: nat)
    requires r < 4
    ensures l < 4
  {
    if odd then 3 - r else if r == 0 then 1 else if r == 1 then 0 else if r == 2 then 3 else 2
  }

  lemma PtrSplit(plan: Plan32, j: nat, i: nat)
    ensures plan.Ptr(j, i) == 4 * ((plan.tmem + plan.line * j + i / 4) % 256) + Lane(j % 2 == 1, i % 4)
  {
    var g, r := plan.tmem + plan.line * j + i / 4, i % 4;
    var at := plan.Line(j) + i;
    assert at == 4 * g + r;
    DivisionIs(at, 4, g, r);
    DivisionIs(at, 2, 2 * g + r / 2, r % 2);
    var lane := Lane(j % 2 == 1, r);
    DivisionIs(4 * g + lane, 1024, g / 256, 4 * (g % 256) + lane);
  }

  /** Different texels of a separate load use different half-words. */
  lemma PtrInjective(plan: Plan32, j: nat, i: nat, j': nat, i': nat)
    requires plan.Separate() && j < plan.height && j' < plan.height && i < plan.width && i' < plan.width
    requires plan.Ptr(j, i) == plan.Ptr(j', i')
    ensures j == j' && i == i'
  {
    PtrSplit(plan, j, i);
    PtrSplit(plan, j', i');
    GroupBound(plan, j, i);
    GroupBound(plan, j', i');
    GroupsDistinct(plan.tmem, plan.line, j, i / 4, i % 4, j', i' / 4, i' % 4);
  }

  lemma GroupsDistinct(t: nat, line: nat, j: nat, q: nat, r: nat, j': nat, q': nat, r': nat)
    requires q < line && q' < line && r < 4 && r' < 4 && line * j + q < 256 && line * j' + q' < 256
    requires 4 * ((t + line * j + q) % 256) + Lane(j % 2 == 1, r)
             == 4 * ((t + line * j' + q') % 256) + Lane(j' % 2 == 1, r')
    ensures j == j' && q == q' && r == r'
  {
    SameGroup(t, line * j + q, line * j' + q');
    DivisionUnique(line, j, q, j', q');
  }

  lemma SameGroup(t: nat, a: nat, b: nat)
    requires a < 256 && b < 256 && (t + a) % 256 == (t + b) % 256
    ensures a == b
  {
  }

  lemma GroupBound(plan: Plan32, j: nat, i: nat)
    requires plan.Separate() && j < plan.height && i < plan.width
    ensures i / 4 < plan.line && plan.line * j + i / 4 < 256
  {
    MulMonotone(plan.line, j + 1, plan.height);
    assert plan.line * (j + 1) == plan.line * j + plan.line;
  }

  // -------------------------------------------------------------------------
  // The loops of gDPLoadTile32b

  /** One texel: the halves of the host word go to the two banks, low byte first. */
  method StoreTexel(rdram: Rdram, tmem: array<u8>, ptr: nat, w: nat)
    requires tmem.Length == 4096 && ptr < 1024 && 4 * w + 4 <= |rdram|
    modifies tmem
    ensures tmem[..] == TexelStored(old(tmem[..]), rdram, ptr, w)
  {
    tmem[2 * ptr] := rdram[4 * w + 2];
    tmem[2 * ptr + 1] := rdram[4 * w + 3];
    tmem[2 * (ptr + 1024)] := rdram[4 * w];
    tmem[2 * (ptr + 1024) + 1] := rdram[4 * w + 1];
  }

  method StoreRow(rdram: Rdram, tmem: array<u8>, row: nat, tline: nat, j: nat, width: nat, ghost plan: Plan32)
    requires tmem.Length == 4096 && plan.Readable(rdram) && j < plan.height && width == plan.width
    requires tline == plan.Line(j) && row == plan.Word(j, 0)
    modifies tmem
    ensures tmem[..] == RowStored(old(tmem[..]), rdram, plan, j, width)
  {
    for i := 0 to width
      invariant tmem[..] == RowStored(old(tmem[..]), rdram, plan, j, i)
    {
      var ptr := (if j % 2 == 1 then Xor3(tline + i) else Xor1(tline + i)) % 1024;
      assert ptr == plan.Ptr(j, i) && row + i == plan.Word(j, i);
      StoreTexel(rdram, tmem, ptr, row + i);
    }
  }

  lemma TileStep(tm: seq<u8>, rdram: Rdram, plan: Plan32, j: nat)
    requires |tm| == 4096 && plan.Readable(rdram) && j < plan.height
    ensures TileStored(tm, rdram, plan, j + 1) == RowStored(TileStored(tm, rdram, plan, j), rdram, plan, j, plan.width)
  {
  }

  method LoadTile32b(rdram: Rdram, tmem: array<u8>, imageAddress: nat, imageWidth: nat,
                     uls: nat, ult: nat, lrs: nat, lrt: nat, tileTmem: nat, tileLine: nat, ghost plan: Plan32)
    requires tmem.Length == 4096 && uls <= lrs && ult <= lrt && plan.Readable(rdram)
    requires plan == Plan32(imageAddress / 4, imageWidth, uls, ult, lrs - uls + 1, lrt - ult + 1, tileTmem, tileLine)
    modifies tmem
    ensures tmem[..] == TileStored(old(tmem[..]), rdram, plan, plan.height)
  {
    var width, height := lrs - uls + 1, lrt - ult + 1;
    var line, tbase, addr := 4 * tileLine, 4 * tileTmem, imageAddress / 4;
    for j := 0 to height
      invariant tmem[..] == TileStored(old(tmem[..]), rdram, plan, j)
    {
      var tline := tbase + line * j;
      var s := (j + ult) * imageWidth + uls;
      assert tline == plan.Line(j) && addr + s == plan.Word(j, 0);
      TileStep(old(tmem[..]), rdram, plan, j);
      StoreRow(rdram, tmem, addr + s, tline, j, width, plan);
    }
  }

  // -------------------------------------------------------------------------
  // What the banks hold

  /** The two banks hold RDRAM word `w` at half-word `ptr`. */
  ghost predicate Holds(tm: seq<u8>, rdram: Rdram, ptr: nat, w: nat)
    requires |tm| == 4096 && ptr < 1024 && 4 * w + 4 <= |rdram|
  {
    tm[2 * ptr] == rdram[4 * w + 2] && tm[2 * ptr + 1] == rdram[4 * w + 3] &&
    tm[2 * (ptr + 1024)] == rdram[4 * w] && tm[2 * (ptr + 1024) + 1] == rdram[4 * w + 1]
  }

  lemma HoldsAfterStore(tm: seq<u8>, rdram: Rdram, ptr: nat, w: nat, ptr': nat, w': nat)
    requires |tm| == 4096 && ptr < 1024 && 4 * w + 4 <= |rdram| && ptr' < 1024 && 4 * w' + 4 <= |rdram|
    requires (ptr == ptr' && w == w') || (ptr != ptr' && Holds(tm, rdram, ptr, w))
    ensures Holds(TexelStored(tm, rdram, ptr', w'), rdram, ptr, w)
  {
  }

  /** Storing the first `n` texels of row `j'` leaves texel (j, i) in place once it is there. */
  lemma {:induction false} RowKeeps(tm: seq<u8>, rdram: Rdram, plan: Plan32, j': nat, n: nat, j: nat, i: nat)
    requires |tm| == 4096 && plan.Readable(rdram) && plan.Separate()
    requires j < plan.height && i < plan.width && j' < plan.height && n <= plan.width
    requires (j == j' && i < n) || Holds(tm, rdram, plan.Ptr(j, i), plan.Word(j, i))
    ensures Holds(RowStored(tm, rdram, plan, j', n), rdram, plan.Ptr(j, i), plan.Word(j, i))
  {
    if n > 0 {
      if j == j' && i == n - 1 {
      } else {
        RowKeeps(tm, rdram, plan, j', n - 1, j, i);
      }
      if plan.Ptr(j, i) == plan.Ptr(j', n - 1) {
        PtrInjective(plan, j, i, j', n - 1);
      }
      HoldsAfterStore(RowStored(tm, rdram, plan, j', n - 1), rdram, plan.Ptr(j, i), plan.Word(j, i),
                      plan.Ptr(j', n - 1), plan.Word(j', n - 1));
    }
  }

  /** After a separate load every texel is in its place. */
  lemma {:induction false} TileHolds(tm: seq<u8>, rdram: Rdram, plan: Plan32, rows: nat, j: nat, i: nat)
    requires |tm| == 4096 && plan.Readable(rdram) && plan.Separate()
    requires j < rows <= plan.height && i < plan.width
    ensures Holds(TileStored(tm, rdram, plan, rows), rdram, plan.Ptr(j, i), plan.Word(j, i))
  {
    if j < rows - 1 {
      TileHolds(tm, rdram, plan, rows - 1, j, i);
    }
    RowKeeps(TileStored(tm, rdram, plan, rows - 1), rdram, plan, rows - 1, plan.width, j, i);
  }

  // -------------------------------------------------------------------------
  // The merge

  function SwapWord(lo: u8, hi: u8): int {
    (lo as int) * 0x100 + (hi as int)
  }

  /** `(swapword(tm16[ptr | 0x400]) << 16) | swapword(tm16[ptr])`. */
  function Merged(tm: seq<u8>, ptr: nat): int
    requires |tm| == 4096 && ptr < 1024
  {
    SwapWord(tm[2 * (ptr + 1024)], tm[2 * (ptr + 1024) + 1]) * 0x1_0000 + SwapWord(tm[2 * ptr], tm[2 * ptr + 1])
  }

  /** The N64's four bytes of RDRAM word `w`, first byte lowest: the host word reversed. */
  function Reversed(rdram: Rdram, w: nat): int
    requires 4 * w + 4 <= |rdram|
  {
    (rdram[4 * w + 3] as int) + (rdram[4 * w + 2] as int) * 0x100
    + (rdram[4 * w + 1] as int) * 0x1_0000 + (rdram[4 * w] as int) * 0x100_0000
  }

  /** The line stride _getTextureDestData works out for 32-bit textures. */
  function Line32(clampWidth: nat, line: nat): int {
    var wid64 := 4 * clampWidth;
    var padded := if wid64 % 16 != 0 then wid64 + 16 else wid64;
    var qwords := (padded - padded % 16) / 8;
    var excess := (2 * line - qwords) * 8;
    var width := 2 * (if qwords < 1 then 1 else qwords);
    width + excess / 4
  }

  /** It is four half-words per qword of the tile's line, unless the clamp width is zero. */
  lemma Line32IsLine(clampWidth: nat, line: nat)
    ensures Line32(clampWidth, line) == 4 * line <==> clampWidth >= 1
  {
    var wid64 := 4 * clampWidth;
    var padded := if wid64 % 16 != 0 then wid64 + 16 else wid64;
    var qwords := (padded - padded % 16) / 8;
    assert (2 * line - qwords) * 8 / 4 == (2 * line - qwords) * 2;
    if clampWidth >= 1 {
      assert padded >= 16;
    }
  }

  /** The half-word _getTextureDestData reads for texel (tx, ty). */
  function FetchPtr(tmem: nat, line32: int, tx: nat, ty: nat): nat
    requires line32 >= 0
  {
    var at := 4 * tmem + line32 * ty + tx;
    (if ty % 2 == 1 then Xor3(at) else Xor1(at)) % 1024
  }

  lemma HeldIsMerged(tm: seq<u8>, rdram: Rdram, ptr: nat, w: nat)
    requires |tm| == 4096 && ptr < 1024 && 4 * w + 4 <= |rdram| && Holds(tm, rdram, ptr, w)
    ensures Merged(tm, ptr) == Reversed(rdram, w)
  {
  }

  /** Split and merge undo each other: every texel of the tile is fetched back as its source word, byte-reversed. */
  lemma SplitThenMerge(tm: seq<u8>, rdram: Rdram, plan: Plan32, clampWidth: nat, tx: nat, ty: nat)
    requires |tm| == 4096 && plan.Readable(rdram) && plan.Separate()
    requires clampWidth >= 1 && tx < plan.width && ty < plan.height
    ensures Line32(clampWidth, plan.line) >= 0
    ensures Merged(TileStored(tm, rdram, plan, plan.height), FetchPtr(plan.tmem, Line32(clampWidth, plan.line), tx, ty))
         == Reversed(rdram, plan.Word(ty, tx))
  {
    hide TileStored, Holds, Merged, Reversed;
    Line32IsLine(clampWidth, plan.line);
    TileHolds(tm, rdram, plan, plan.height, ty, tx);
    HeldIsMerged(TileStored(tm, rdram, plan, plan.height), rdram, plan.Ptr(ty, tx), plan.Word(ty, tx));
  }
}
