/**
 * The address ranges of GLideN64/src/FrameBuffer.cpp as values: what each operation of FrameBufferList does to them.
 */
module FrameBuffers {
  import opened Arith
  import opened Machine

  /** The fields of FrameBuffer that decide its range and its fate; the range is inclusive at both ends. */
  datatype Buf = Buf(start: nat, end: nat, width: nat, height: nat, size: nat, scale: real, cfb: bool, swapCount: nat)
  {
    predicate Contains(a: nat) {
      start <= a <= end
    }

    /** `m_width << m_size >> 1` */
    function Stride(): nat {
      TexelBytes(width, size)
    }

    /** updateEndAddress: at least one row, cut at the end of RDRAM. */
    function Ended(rdramSize: nat): Buf {
      var last := start + TexelBytes(width * (if height < 1 then 1 else height), size) - 1;
      this.(end := if last < 0 then rdramSize else if rdramSize < last then rdramSize else last)
    }
  }

  /** The list and the position of the current buffer in it, -1 for none. */
  datatype State = State(list: seq<Buf>, cur: int)
  {
    predicate WellFormed() {
      -1 <= cur < |list|
    }
  }

  /** findBuffer: the first buffer in list order whose range contains `a`, else -1. */
  function FindBuffer(list: seq<Buf>, a: nat): (i: int)
    ensures -1 <= i < |list|
    ensures i >= 0 ==> list[i].Contains(a)
    ensures forall k :: 0 <= k < (if i < 0 then |list| else i) ==> !list[k].Contains(a)
  {
    if list == [] then -1
    else if list[0].Contains(a) then 0
    else var i := FindBuffer(list[1..], a); if i < 0 then -1 else i + 1
  }

  function Erased<T>(list: seq<T>, i: nat): (r: seq<T>)
    requires i < |list|
    ensures |r| == |list| - 1
    ensures forall k :: 0 <= k < |r| ==> r[k] == list[if k < i then k else k + 1]
  {
    list[..i] + list[i + 1..]
  }

  /** Position of the current buffer after entry `i` was erased; erasing the current buffer itself leaves none. */
  function Shifted(cur: int, i: nat): int {
    if cur == i then -1 else if cur > i then cur - 1 else cur
  }

  function Removed(s: State, i: nat): (r: State)
    requires i < |s.list|
    ensures s.WellFormed() ==> r.WellFormed()
  {
    State(Erased(s.list, i), Shifted(s.cur, i))
  }

  /** `buf1` runs into `buf2` by fewer than five whole rows of the same format and ends before it. */
  predicate IsOverlapping(buf1: Buf, buf2: Buf)
    requires buf1.end + 1 >= buf2.start
  {
    buf1.end < buf2.end && buf1.width == buf2.width && buf1.size == buf2.size && buf1.Stride() > 0 &&
    (buf1.end - buf2.start + 1) % buf1.Stride() == 0 && (buf1.end - buf2.start + 1) / buf1.Stride() < 5
  }

  // -------------------------------------------------------------------------
  // removeIntersections

  /** Entry `i` against the current buffer: it or the current buffer is trimmed, it is erased, or nothing happens. */
  function Met(s: State, i: nat): (r: State)
    requires 0 <= s.cur < |s.list| && i < |s.list| && i != s.cur
    ensures 0 <= r.cur < |r.list| && |s.list| - 1 <= |r.list| <= |s.list|
  {
    var b, c := s.list[i], s.list[s.cur];
    if b.Contains(c.start) then
      if IsOverlapping(b, c) then s.(list := s.list[i := b.(end := if c.start == 0 then 0xFFFF_FFFF else c.start - 1)])
      else Removed(s, i)
    else if c.Contains(b.start) then
      if IsOverlapping(c, b)
        then s.(list := s.list[s.cur := c.(end := if b.start == 0 then 0xFFFF_FFFF else b.start - 1)])
      else Removed(s, i)
    else s
  }

  /** The loop of removeIntersections over the entries in front of position `p`, back to front. */
  function Swept(s: State, p: nat): (r: State)
    requires 0 <= s.cur < |s.list| && p <= |s.list|
    ensures 0 <= r.cur < |r.list|
    decreases p
  {
    if p == 0 then s
    else if p - 1 == s.cur then Swept(s, p - 1)
    else Swept(Met(s, p - 1), p - 1)
  }

  function IntersectionsRemoved(s: State): (r: State)
    requires s.WellFormed()
    ensures r.WellFormed()
  {
    if s.cur < 0 then s else Swept(s, |s.list|)
  }

  // -------------------------------------------------------------------------
  // removeIntersections on any list

  ghost predicate Disjoint(a: Buf, b: Buf) {
    a.end < b.start || b.end < a.start
  }

  /** `a` is `b` with, at most, an earlier end. */
  ghost predicate Shrunk(a: Buf, b: Buf) {
    a == b.(end := a.end) && a.end <= b.end
  }

  /** The current buffer has a range, and if that starts at address 0 no other buffer contains address 0. */
  ghost predicate CurrentSound(s: State) {
    && 0 <= s.cur < |s.list|
    && s.list[s.cur].start <= s.list[s.cur].end
    && (s.list[s.cur].start > 0 || forall i :: 0 <= i < |s.list| && i != s.cur ==> !s.list[i].Contains(0))
  }

  /** Every other entry from `p` on is disjoint from the current buffer. */
  ghost predicate ClearFrom(s: State, p: int)
    requires 0 <= s.cur < |s.list| && 0 <= p
  {
    forall j :: p <= j < |s.list| && j != s.cur ==> Disjoint(s.list[j], s.list[s.cur])
  }

  /** One meeting: the current range only shrinks, entry `i` leaves it, later entries stay clear. */
  lemma MetClears(s: State, i: nat)
    requires CurrentSound(s) && i < |s.list| && i != s.cur && ClearFrom(s, i + 1)
    ensures var r := Met(s, i); CurrentSound(r) && ClearFrom(r, i) && Shrunk(r.list[r.cur], s.list[s.cur])
  {
    var b, c, r := s.list[i], s.list[s.cur], Met(s, i);
    if b.Contains(c.start) || c.Contains(b.start) {
      if |r.list| == |s.list| - 1 {
        forall j | 0 <= j < |r.list| && j != r.cur
          ensures r.list[j] == s.list[if j < i then j else j + 1]
        {
        }
      }
    }
  }

  /** After removeIntersections the current range is disjoint from every survivor, and it has not grown. */
  lemma {:induction false} SweptClears(s: State, p: nat)
    requires CurrentSound(s) && p <= |s.list| && ClearFrom(s, p)
    ensures var r := Swept(s, p); CurrentSound(r) && ClearFrom(r, 0) && Shrunk(r.list[r.cur], s.list[s.cur])
    decreases p
  {
    hide Met, Disjoint;
    if p > 0 {
      if p - 1 == s.cur {
        SweptClears(s, p - 1);
      } else {
        MetClears(s, p - 1);
        SweptClears(Met(s, p - 1), p - 1);
      }
    }
  }

  /** `b` comes from an entry other than the current buffer, with at most an earlier end. */
  ghost predicate FromOther(b: Buf, s: State) {
    exists i :: 0 <= i < |s.list| && i != s.cur && Shrunk(b, s.list[i])
  }

  lemma MetShrinks(s: State, i: nat, j: nat)
    requires CurrentSound(s) && i < |s.list| && i != s.cur
    requires j < |Met(s, i).list| && j != Met(s, i).cur
    ensures FromOther(Met(s, i).list[j], s)
  {
    var r := Met(s, i);
    if |r.list| == |s.list| - 1 {
      var k := if j < i then j else j + 1;
      assert r.list[j] == s.list[k];
      assert Shrunk(r.list[j], s.list[k]);
    } else {
      assert Shrunk(r.list[j], s.list[j]);
    }
  }

  /** No survivor of removeIntersections has grown or is new. */
  lemma {:induction false} SweptShrinks(s: State, p: nat, j: nat)
    requires CurrentSound(s) && p <= |s.list| && ClearFrom(s, p)
    requires j < |Swept(s, p).list| && j != Swept(s, p).cur
    ensures FromOther(Swept(s, p).list[j], s)
    decreases p
  {
    if p == 0 {
      assert Shrunk(s.list[j], s.list[j]);
    } else if p - 1 == s.cur {
      SweptShrinks(s, p - 1, j);
    } else {
      MetClears(s, p - 1);
      SweptShrinks(Met(s, p - 1), p - 1, j);
      MetFromOther(s, p - 1, Swept(s, p).list[j]);
    }
  }

  lemma MetFromOther(s: State, i: nat, b: Buf)
    requires CurrentSound(s) && i < |s.list| && i != s.cur && FromOther(b, Met(s, i))
    ensures FromOther(b, s)
  {
    var m := Met(s, i);
    var j :| 0 <= j < |m.list| && j != m.cur && Shrunk(b, m.list[j]);
    MetShrinks(s, i, j);
    var k :| 0 <= k < |s.list| && k != s.cur && Shrunk(m.list[j], s.list[k]);
    assert Shrunk(b, s.list[k]);
  }

  /** `b` is in the list, and not as the current buffer. */
  ghost predicate IsOther(b: Buf, s: State) {
    exists i :: 0 <= i < |s.list| && i != s.cur && s.list[i] == b
  }

  lemma MetKeeps(s: State, i: nat, b: Buf)
    requires CurrentSound(s) && i < |s.list| && i != s.cur
    requires IsOther(b, s) && b.start <= b.end && Disjoint(b, s.list[s.cur])
    ensures IsOther(b, Met(s, i))
  {
    var r := Met(s, i);
    var k :| 0 <= k < |s.list| && k != s.cur && s.list[k] == b;
    var k' := if |r.list| == |s.list| || k < i then k else k - 1;
    assert r.list[k'] == b;
  }

  /** Every buffer that did not meet the current range is left as it was. */
  lemma {:induction false} SweptKeeps(s: State, p: nat, b: Buf)
    requires CurrentSound(s) && p <= |s.list| && ClearFrom(s, p)
    requires IsOther(b, s) && b.start <= b.end && Disjoint(b, s.list[s.cur])
    ensures IsOther(b, Swept(s, p))
    decreases p
  {
    hide Met;
    if p > 0 {
      if p - 1 == s.cur {
        SweptKeeps(s, p - 1, b);
      } else {
        MetClears(s, p - 1);
        MetKeeps(s, p - 1, b);
        SweptKeeps(Met(s, p - 1), p - 1, b);
      }
    }
  }

  // -------------------------------------------------------------------------
  // The invariant of the list

  /** A range inside RDRAM and a format saveBuffer accepts; products of these stay below 2^32. */
  predicate Sound(b: Buf, top: nat) {
    b.start <= b.end <= top && 1 <= b.width <= 640 && 1 <= b.size <= 3 && b.height <= 0xFFFF
  }

  /**
   * All buffers are sound, the others are pairwise disjoint, and none of them contains the start of the current one.
   */
  ghost predicate Inv(s: State, top: nat) {
    && s.WellFormed()
    && (forall i :: 0 <= i < |s.list| ==> Sound(s.list[i], top))
    && (forall i, j :: 0 <= i < j < |s.list| && i != s.cur && j != s.cur ==> Disjoint(s.list[i], s.list[j]))
    && (s.cur >= 0 ==> forall i :: 0 <= i < |s.list| && i != s.cur ==> !s.list[i].Contains(s.list[s.cur].start))
  }

  /** All buffers, the current one included, are pairwise disjoint. */
  ghost predicate Settled(s: State, top: nat) {
    && s.WellFormed()
    && (forall i :: 0 <= i < |s.list| ==> Sound(s.list[i], top))
    && (forall i, j :: 0 <= i < j < |s.list| ==> Disjoint(s.list[i], s.list[j]))
  }

  lemma InvRemoved(s: State, top: nat, i: nat)
    requires Inv(s, top) && i < |s.list|
    ensures Inv(Removed(s, i), top)
  {
  }

  lemma SettledRemoved(s: State, top: nat, i: nat)
    requires Settled(s, top) && i < |s.list|
    ensures Settled(Removed(s, i), top)
  {
  }

  lemma InvMet(s: State, top: nat, i: nat)
    requires Inv(s, top) && 0 <= s.cur && i < |s.list| && i != s.cur
    ensures Inv(Met(s, i), top)
  {
    var b, c := s.list[i], s.list[s.cur];
    if c.Contains(b.start) {
      if !IsOverlapping(c, b) {
        InvRemoved(s, top, i);
      }
    }
  }

  lemma {:induction false} InvSwept(s: State, top: nat, p: nat)
    requires Inv(s, top) && 0 <= s.cur && p <= |s.list|
    ensures Inv(Swept(s, p), top)
    decreases p
  {
    hide Met;
    if p > 0 {
      SweptStep(s, p);
      if p - 1 == s.cur {
        InvSwept(s, top, p - 1);
      } else {
        InvMet(s, top, p - 1);
        InvSwept(Met(s, p - 1), top, p - 1);
      }
    }
  }

  lemma SweptStep(s: State, p: nat)
    requires 0 <= s.cur < |s.list| && 0 < p <= |s.list|
    ensures Swept(s, p) == if p - 1 == s.cur then Swept(s, p - 1) else Swept(Met(s, p - 1), p - 1)
  {
  }

  /** removeIntersections settles a list that satisfies the invariant. */
  lemma SweptSettles(s: State, top: nat)
    requires Inv(s, top)
    ensures Settled(IntersectionsRemoved(s), top)
  {
    if s.cur >= 0 {
      InvSwept(s, top, |s.list|);
      SweptClears(s, |s.list|);
    }
  }

  // -------------------------------------------------------------------------
  // The operations

  /** What the operations read from the configuration, the window and the video interface. */
  datatype Env = Env(rdramSize: nat, viWidth: nat, viHeight: nat, enabled: bool, copyAux: bool, hackSnap: bool,
                     windowScale: real, nativeResFactor: nat, swapCount: nat)
  {
    function Scale(): real {
      if nativeResFactor == 0 then windowScale else nativeResFactor as real
    }

    /** FrameBuffer::init */
    function Created(address: nat, size: nat, width: nat, asCfb: bool): Buf {
      var scale := if width != viWidth && copyAux then 1.0
                   else if nativeResFactor != 0 && enabled then nativeResFactor as real
                   else if windowScale < 1.0 then 1.0 else windowScale;
      Buf(address, 0, width, if asCfb then viHeight else 1, size, scale, asCfb, swapCount).Ended(rdramSize)
    }
  }

  /** removeBuffer: the first buffer that starts at `address`. */
  function FindStart(list: seq<Buf>, address: nat): (i: int)
    ensures -1 <= i < |list|
    ensures i >= 0 ==> list[i].start == address
    ensures forall k :: 0 <= k < (if i < 0 then |list| else i) ==> list[k].start != address
  {
    if list == [] then -1
    else if list[0].start == address then 0
    else var i := FindStart(list[1..], address); if i < 0 then -1 else i + 1
  }

  function BufferRemoved(s: State, address: nat): (r: State)
    ensures s.WellFormed() ==> r.WellFormed()
  {
    var i := FindStart(s.list, address);
    if i < 0 then s else Removed(s, i)
  }

  /** removeAux: every buffer from position `p` on that is not as wide as the screen. */
  function AuxRemoved(s: State, viWidth: nat, p: nat): State
    requires p <= |s.list|
    decreases |s.list| - p
  {
    if p == |s.list| then s
    else if s.list[p].width != viWidth then AuxRemoved(Removed(s, p), viWidth, p)
    else AuxRemoved(s, viWidth, p + 1)
  }

  function CurrentEnded(s: State, rdramSize: nat): State
    requires 0 <= s.cur < |s.list|
  {
    s.(list := s.list[s.cur := s.list[s.cur].Ended(rdramSize)])
  }

  /** updateCurrentBufferEndAddress */
  function EndUpdated(s: State, rdramSize: nat): (r: State)
    requires s.WellFormed()
    ensures r.WellFormed()
  {
    if s.cur < 0 then s else IntersectionsRemoved(CurrentEnded(s, rdramSize))
  }

  /** setBufferChanged, with the colour image height it has worked out. */
  function Changed(s: State, colorHeight: nat): State
    requires s.WellFormed()
  {
    if s.cur < 0 then s
    else
      var b := s.list[s.cur];
      s.(list := s.list[s.cur := b.(height := if b.height < colorHeight then colorHeight else b.height, cfb := false)])
  }

  /** isSubBuffer: drawing goes on inside `b`. */
  predicate IsSubBuffer(b: Buf, env: Env, address: nat, size: nat, width: nat)
    requires b.Contains(address) && TexelBytes(width, size) > 0
  {
    b.swapCount == env.swapCount && !b.cfb && b.width == width && b.size == size &&
    ((address - b.start) % TexelBytes(width, size) != 0 || (b.end - address + 1) / TexelBytes(width, size) > 5)
  }

  /** isOverlappingBuffer: fewer than five rows of `b` are left past `address`. */
  predicate IsOverlappingBuffer(b: Buf, address: nat, size: nat, width: nat)
    requires b.Contains(address) && TexelBytes(width, size) > 0
  {
    b.width == width && b.size == size && (b.end - address + 1) / TexelBytes(width, size) < 5
  }

  /** saveBuffer up to the search: an auxiliary current buffer is dropped, or its range is brought up to date. */
  function Prepared(s: State, env: Env): (r: State)
    requires s.WellFormed()
    ensures r.WellFormed()
  {
    EndUpdated(if s.cur >= 0 && env.copyAux && !env.hackSnap && s.list[s.cur].width != env.viWidth
               then BufferRemoved(s, s.list[s.cur].start) else s, env.rdramSize)
  }

  /** saveBuffer's search for the buffer at `address`. */
  function Selected(s: State, address: nat, width: nat): (r: State)
    requires s.WellFormed()
    ensures r.WellFormed()
    ensures r.cur >= 0 && r.list[r.cur].start != address ==> r.list[r.cur].Contains(address)
  {
    if s.cur < 0 || s.list[s.cur].start != address || s.list[s.cur].width != width
    then s.(cur := FindBuffer(s.list, address)) else s
  }

  /** A fresh buffer in front of the list becomes the current one. */
  function Prepended(s: State, b: Buf): State {
    State([b] + s.list, 0)
  }

  /** saveBuffer once the buffer at `address`, if any, is current. */
  function Settlement(s: State, env: Env, address: nat, size: nat, width: nat, asCfb: bool): State
    requires s.WellFormed() && TexelBytes(width, size) > 0
    requires s.cur >= 0 && s.list[s.cur].start != address ==> s.list[s.cur].Contains(address)
  {
    if s.cur < 0 then Prepended(s, env.Created(address, size, width, asCfb))
    else
      var b := s.list[s.cur];
      if b.start != address then
        if IsSubBuffer(b, env, address, size, width) then s
        else if IsOverlappingBuffer(b, address, size, width) then
          Prepended(State(s.list[s.cur := b.(end := address - 1)], -1), env.Created(address, size, width, asCfb))
        else Prepended(BufferRemoved(s, b.start), env.Created(address, size, width, asCfb))
      else if b.width != width || b.size < size || b.scale != env.Scale() then
        Prepended(BufferRemoved(s, b.start), env.Created(address, size, width, asCfb))
      else s.(list := s.list[s.cur := b.(size := size, swapCount := env.swapCount)])
  }

  /** saveBuffer */
  function Saved(s: State, env: Env, address: nat, size: nat, width: nat, asCfb: bool): State
    requires s.WellFormed() && TexelBytes(width, size) > 0
  {
    if width > 640 then s
    else if !env.enabled then
      if s.list == [] && env.viHeight != 0 then State([env.Created(env.viWidth * 2, 2, env.viWidth, false)], s.cur)
        else s
    else
      Settlement(Selected(Prepared(s, env), address, width), env, address, size, width, asCfb)
  }

  // -------------------------------------------------------------------------
  // Every operation keeps the invariant

  /** updateEndAddress gives a range inside RDRAM, and `(m_width * height) << m_size` does not leave 32 bits. */
  lemma EndedSound(b: Buf, top: nat)
    requires b.start <= top && 1 <= b.width <= 640 && 1 <= b.size <= 3 && b.height <= 0xFFFF
    ensures Sound(b.Ended(top), top)
    ensures b.width * (if b.height < 1 then 1 else b.height) * 8 < 0x1_0000_0000
  {
    var h := if b.height < 1 then 1 else b.height;
    assert b.width * h >= 1 by { assert b.width * h >= b.width * 1; }
    assert b.width * h <= 640 * h;
  }

  /** Address `a` is a byte of pixel (x, y) of the buffer. */
  ghost predicate InPixel(b: Buf, x: nat, y: nat, a: nat) {
    var bytes := if b.size == 1 then 1 else if b.size == 2 then 2 else 4;
    var first := b.start + bytes * (b.width * y + x);
    first <= a < first + bytes
  }

  /** Address `a` is a byte of the buffer's picture, which has at least one row. */
  ghost predicate InPicture(b: Buf, a: nat) {
    exists x: nat, y: nat :: x < b.width && y < (if b.height < 1 then 1 else b.height) && InPixel(b, x, y, a)
  }

  /** An updated range holds the bytes of the picture that lie in RDRAM, and no others. */
  lemma EndedExactly(b: Buf, top: nat, a: nat)
    requires b.start <= top && 1 <= b.width && 1 <= b.size <= 3
    ensures b.Ended(top).Contains(a) <==> a <= top && InPicture(b, a)
  {
    hide InPicture;
    var h := if b.height < 1 then 1 else b.height;
    BytesOfPicture(b.width, h, b.size);
    PictureExactly(b, h, a);
  }

  lemma PictureExactly(b: Buf, h: nat, a: nat)
    requires 1 <= b.width && 1 <= b.size <= 3 && h == if b.height < 1 then 1 else b.height
    ensures InPicture(b, a) <==> b.start <= a < b.start + TexelBytes(1, b.size) * (b.width * h)
  {
    hide InPixel, TexelBytes;
    if b.start <= a < b.start + TexelBytes(1, b.size) * (b.width * h) {
      var x, y := PixelAt(b, h, a);
    }
    if InPicture(b, a) {
      var x: nat, y: nat :| x < b.width && y < h && InPixel(b, x, y, a);
      InPixelBound(b, h, x, y, a);
    }
  }

  lemma PixelAt(b: Buf, h: nat, a: nat) returns (x: nat, y: nat)
    requires 1 <= b.width && 1 <= b.size <= 3 && b.start <= a < b.start + TexelBytes(1, b.size) * (b.width * h)
    ensures x < b.width && y < h && InPixel(b, x, y, a)
  {
    var bytes := TexelBytes(1, b.size);
    x, y := PixelOf(bytes, b.width, h, a - b.start);
  }

  lemma InPixelBound(b: Buf, h: nat, x: nat, y: nat, a: nat)
    requires 1 <= b.size <= 3 && x < b.width && y < h && InPixel(b, x, y, a)
    ensures b.start <= a < b.start + TexelBytes(1, b.size) * (b.width * h)
  {
    PixelInside(TexelBytes(1, b.size), b.width, h, x, y);
  }

  lemma BytesOfPicture(width: nat, h: nat, size: nat)
    requires 1 <= width && 1 <= h && 1 <= size <= 3
    ensures TexelBytes(width * h, size) == TexelBytes(1, size) * (width * h) >= 1
  {
    MulAtLeast(h, width);
    assert width * h == h * width;
  }

  lemma PixelOf(bytes: nat, width: nat, h: nat, k: nat) returns (x: nat, y: nat)
    requires bytes >= 1 && width >= 1 && k < bytes * (width * h)
    ensures x < width && y < h && bytes * (width * y + x) <= k < bytes * (width * y + x) + bytes
  {
    var pixel := k / bytes;
    assert k == bytes * pixel + k % bytes;
    if pixel >= width * h {
      MulMonotone(bytes, width * h, pixel);
    }
    x, y := pixel % width, pixel / width;
    assert pixel == width * y + x;
    if y >= h {
      MulMonotone(width, h, y);
    }
  }

  lemma PixelInside(bytes: nat, width: nat, h: nat, x: nat, y: nat)
    requires x < width && y < h
    ensures 0 <= bytes * (width * y + x) && bytes * (width * y + x) + bytes <= bytes * (width * h)
  {
    MulMonotone(width, y + 1, h);
    assert width * (y + 1) == width * y + width;
    MulMonotone(bytes, width * y + x + 1, width * h);
    assert bytes * (width * y + x + 1) == bytes * (width * y + x) + bytes;
  }

  lemma InvCurrentEnded(s: State, top: nat)
    requires Inv(s, top) && 0 <= s.cur
    ensures Inv(CurrentEnded(s, top), top)
  {
    EndedSound(s.list[s.cur], top);
  }

  lemma InvBufferRemoved(s: State, top: nat, address: nat)
    requires Inv(s, top)
    ensures Inv(BufferRemoved(s, address), top)
  {
    if FindStart(s.list, address) >= 0 {
      InvRemoved(s, top, FindStart(s.list, address));
    }
  }

  lemma {:induction false} InvAuxRemoved(s: State, top: nat, viWidth: nat, p: nat)
    requires Inv(s, top) && p <= |s.list|
    ensures Inv(AuxRemoved(s, viWidth, p), top)
    decreases |s.list| - p
  {
    if p < |s.list| {
      if s.list[p].width != viWidth {
        var r := Removed(s, p);
        InvRemoved(s, top, p);
        InvAuxRemoved(r, top, viWidth, p);
        assert AuxRemoved(s, viWidth, p) == AuxRemoved(r, viWidth, p);
      } else {
        InvAuxRemoved(s, top, viWidth, p + 1);
      }
    }
  }

  lemma EndUpdatedSettles(s: State, top: nat)
    requires Inv(s, top)
    ensures Settled(EndUpdated(s, top), top)
  {
    if s.cur >= 0 {
      InvCurrentEnded(s, top);
      SweptSettles(CurrentEnded(s, top), top);
    }
  }

  lemma {:induction false} SweptNothing(s: State, p: nat)
    requires 0 <= s.cur < |s.list| && p <= |s.list| && ClearFrom(s, 0)
    requires forall i :: 0 <= i < |s.list| ==> s.list[i].start <= s.list[i].end
    ensures Swept(s, p) == s
  {
    if p > 0 {
      SweptNothing(s, p - 1);
      assert p - 1 != s.cur ==> Met(s, p - 1) == s;
    }
  }

  // What removeIntersections does, in rows

  /** The bytes of a row of pixels. */
  function RowBytes(b: Buf): nat {
    b.width * (if b.size == 1 then 1 else if b.size == 2 then 2 else 4)
  }

  /** `b` ends inside `c`, one to four whole rows behind its start, and both have the same format. */
  predicate EndsInRowsOf(b: Buf, c: Buf) {
    var over := b.end + 1 - c.start;
    && b.start <= c.start && b.end < c.end && b.width == c.width && b.size == c.size
    && over in {RowBytes(b), 2 * RowBytes(b), 3 * RowBytes(b), 4 * RowBytes(b)}
  }

  lemma OverlapsInRows(b: Buf, c: Buf)
    requires b.start <= c.start <= b.end && 1 <= b.width && 1 <= b.size <= 3
    ensures IsOverlapping(b, c) <==> EndsInRowsOf(b, c)
  {
    var row, over := RowBytes(b), b.end + 1 - c.start;
    assert row == b.Stride() >= 1;
    WholeRows(over, row);
  }

  lemma WholeRows(over: int, row: nat)
    requires over >= 1 && row >= 1
    ensures over % row == 0 && over / row < 5 <==> over in {row, 2 * row, 3 * row, 4 * row}
  {
    assert over == row * (over / row) + over % row;
    forall k: nat | k < 5 && over == k * row
      ensures over / row == k && over % row == 0
    {
      DivisionIs(over, row, k, 0);
    }
    if over / row >= 5 {
      MulMonotone(row, 5, over / row);
    }
  }

  /** One meeting, whatever the list: who is trimmed, who is erased. */
  lemma MetExactly(s: State, top: nat, i: nat)
    requires CurrentSound(s) && i < |s.list| && i != s.cur && Sound(s.list[i], top) && Sound(s.list[s.cur], top)
    ensures var b, c, r := s.list[i], s.list[s.cur], Met(s, i);
      if Disjoint(b, c) then r == s
      else if b.start <= c.start && EndsInRowsOf(b, c) then r == s.(list := s.list[i := b.(end := c.start - 1)])
      else if c.start < b.start && EndsInRowsOf(c, b) then r == s.(list := s.list[s.cur := c.(end := b.start - 1)])
      else r == Removed(s, i)
  {
    hide IsOverlapping, EndsInRowsOf;
    var b, c := s.list[i], s.list[s.cur];
    if b.Contains(c.start) {
      OverlapsInRows(b, c);
    } else if c.Contains(b.start) {
      OverlapsInRows(c, b);
    }
  }

  /** `b` stays where `c` is current: it does not meet `c`, or `c` ends in its first rows. */
  predicate Outlives(b: Buf, c: Buf) {
    b.end < c.start || c.end < b.start || EndsInRowsOf(c, b)
  }

  /** What removeIntersections leaves of `s` in `r`, as far as buffer `b` is concerned. */
  ghost predicate SweptTo(s: State, r: State, b: Buf)
    requires 0 <= s.cur < |s.list| && 0 <= r.cur < |r.list|
  {
    var c := s.list[s.cur];
    && (IsOther(b, r) <==> IsOther(b, s) && Outlives(b, c))
    && (IsOther(b, s) && EndsInRowsOf(c, b) && b.start > 0 ==> r.list[r.cur] == c.(end := b.start - 1))
    && ((forall o :: IsOther(o, s) ==> !EndsInRowsOf(c, o)) ==> r.list[r.cur] == c)
  }

  /** Others that stay, and the end of the current buffer if it is trimmed, through a meeting that erases entry `i`. */
  lemma MetErases(s: State, top: nat, i: nat, b: Buf)
    requires Inv(s, top) && 0 <= s.cur && i < |s.list| && i != s.cur
    ensures IsOther(b, Removed(s, i)) <==> IsOther(b, s) && b != s.list[i]
  {
    var r := Removed(s, i);
    if IsOther(b, s) && b != s.list[i] {
      var k :| 0 <= k < |s.list| && k != s.cur && s.list[k] == b;
      assert r.list[if k < i then k else k - 1] == b;
    }
    if IsOther(b, r) {
      var k :| 0 <= k < |r.list| && k != r.cur && r.list[k] == b;
      assert s.list[if k < i then k else k + 1] == b;
      assert Disjoint(b, s.list[i]);
    }
  }

  /** A buffer the current one ends in is the only one of its kind, and every other buffer that meets it is erased. */
  lemma TrimmedFate(s: State, top: nat, i: nat, b: Buf)
    requires Inv(s, top) && 0 <= s.cur && i < |s.list| && i != s.cur && EndsInRowsOf(s.list[s.cur], s.list[i])
    requires IsOther(b, s)
    ensures var c, o := s.list[s.cur], s.list[i];
      && o.start > c.start
      && var c' := c.(end := o.start - 1);
         && (Outlives(b, c') <==> Outlives(b, c))
         && !EndsInRowsOf(c', b)
         && (EndsInRowsOf(c, b) ==> b == o)
  {
    var k :| 0 <= k < |s.list| && k != s.cur && s.list[k] == b;
    assert k != i ==> Disjoint(b, s.list[i]);
  }

  lemma TrimmedOthers(s: State, top: nat, i: nat, b: Buf)
    requires Inv(s, top) && 0 <= s.cur && i < |s.list| && i != s.cur && EndsInRowsOf(s.list[s.cur], s.list[i])
    ensures s.list[i].start > 0
    ensures var r := s.(list := s.list[s.cur := s.list[s.cur].(end := s.list[i].start - 1)]);
      IsOther(b, r) <==> IsOther(b, s)
  {
    var r := s.(list := s.list[s.cur := s.list[s.cur].(end := s.list[i].start - 1)]);
    if IsOther(b, s) {
      var k :| 0 <= k < |s.list| && k != s.cur && s.list[k] == b;
      assert r.list[k] == b;
    }
    if IsOther(b, r) {
      var k :| 0 <= k < |r.list| && k != r.cur && r.list[k] == b;
      assert s.list[k] == b;
    }
  }

  lemma MetStep(s: State, top: nat, i: nat, r: State, b: Buf)
    requires Inv(s, top) && 0 <= s.cur < |s.list| && i < |s.list| && i != s.cur && 0 <= r.cur < |r.list|
    requires forall o :: SweptTo(Met(s, i), r, o)
    ensures SweptTo(s, r, b)
  {
    hide IsOverlapping, EndsInRowsOf, IsOther;
    var c, o, m := s.list[s.cur], s.list[i], Met(s, i);
    MetExactly(s, top, i);
    assert SweptTo(m, r, b);
    if c.start < o.start && EndsInRowsOf(c, o) && !Disjoint(o, c) {
      MetTrims(s, top, i, r, b);
    } else if !Disjoint(o, c) {
      MetErased(s, top, i, r, b);
    }
  }

  lemma MetTrims(s: State, top: nat, i: nat, r: State, b: Buf)
    requires Inv(s, top) && 0 <= s.cur < |s.list| && i < |s.list| && i != s.cur && 0 <= r.cur < |r.list|
    requires EndsInRowsOf(s.list[s.cur], s.list[i]) && s.list[i].start > 0
    requires var m := s.(list := s.list[s.cur := s.list[s.cur].(end := s.list[i].start - 1)]);
      forall o :: SweptTo(m, r, o)
    ensures SweptTo(s, r, b)
  {
    hide EndsInRowsOf, Inv;
    var c, o := s.list[s.cur], s.list[i];
    var m := s.(list := s.list[s.cur := c.(end := o.start - 1)]);
    assert SweptTo(m, r, b);
    TrimmedOthers(s, top, i, b);
    if IsOther(b, s) {
      TrimmedFate(s, top, i, b);
    }
    forall x | IsOther(x, m)
      ensures !EndsInRowsOf(m.list[m.cur], x)
    {
      TrimmedOthers(s, top, i, x);
      TrimmedFate(s, top, i, x);
    }
    assert IsOther(o, s);
  }

  lemma MetErased(s: State, top: nat, i: nat, r: State, b: Buf)
    requires Inv(s, top) && 0 <= s.cur < |s.list| && i < |s.list| && i != s.cur && 0 <= r.cur < |r.list|
    requires !Outlives(s.list[i], s.list[s.cur])
    requires forall o :: SweptTo(Removed(s, i), r, o)
    ensures SweptTo(s, r, b)
  {
    hide EndsInRowsOf, Inv;
    var m := Removed(s, i);
    assert SweptTo(m, r, b);
    MetErases(s, top, i, b);
    forall x | (forall o :: IsOther(o, s) ==> !EndsInRowsOf(s.list[s.cur], o)) && IsOther(x, m)
      ensures !EndsInRowsOf(m.list[m.cur], x)
    {
      MetErases(s, top, i, x);
    }
  }

  /**
   * removeIntersections on a list that satisfies the invariant: exactly those other buffers stay, as they are, that do
   * not meet the current one or in whose first one to four rows it ends, and of the latter there is at most one, before
   * which the current buffer is cut.
   */
  lemma {:induction false} SweptExactly(s: State, top: nat, p: nat, b: Buf)
    requires Inv(s, top) && 0 <= s.cur < |s.list| && p <= |s.list| && ClearFrom(s, p)
    ensures SweptTo(s, Swept(s, p), b)
    decreases p
  {
    hide Met, Inv, SweptTo, Disjoint;
    if p == 0 {
      SweptToSame(s, top, b);
    } else {
      SweptStep(s, p);
      if p - 1 == s.cur {
        SweptExactly(s, top, p - 1, b);
      } else {
        InvSound(s, top);
        MetClears(s, p - 1);
        InvMet(s, top, p - 1);
        var m, r := Met(s, p - 1), Swept(s, p);
        forall o
          ensures SweptTo(m, r, o)
        {
          SweptExactly(m, top, p - 1, o);
        }
        MetStep(s, top, p - 1, Swept(s, p), b);
      }
    }
  }

  lemma InvSound(s: State, top: nat)
    requires Inv(s, top) && 0 <= s.cur
    ensures CurrentSound(s)
  {
  }

  lemma SweptToSame(s: State, top: nat, b: Buf)
    requires Inv(s, top) && 0 <= s.cur && ClearFrom(s, 0)
    ensures SweptTo(s, s, b)
  {
    if IsOther(b, s) {
      var k :| 0 <= k < |s.list| && k != s.cur && s.list[k] == b;
      assert Disjoint(s.list[k], s.list[s.cur]);
    }
  }

  /**
   * updateCurrentBufferEndAddress: the buffers that stay are those that do not meet the current buffer's whole picture,
   * or in whose first rows it ends.
   */
  lemma EndUpdatedExactly(s: State, top: nat, b: Buf)
    requires Inv(s, top) && 0 <= s.cur
    ensures var r := EndUpdated(s, top);
      0 <= r.cur < |r.list| && SweptTo(CurrentEnded(s, top), r, b) &&
      (IsOther(b, r) <==> IsOther(b, s) && Outlives(b, s.list[s.cur].Ended(top)))
  {
    hide Outlives, Met, Disjoint;
    var e := CurrentEnded(s, top);
    InvCurrentEnded(s, top);
    SweptExactly(e, top, |s.list|, b);
    if IsOther(b, s) {
      var k :| 0 <= k < |s.list| && k != s.cur && s.list[k] == b;
      assert e.list[k] == b;
    }
    if IsOther(b, e) {
      var k :| 0 <= k < |e.list| && k != e.cur && e.list[k] == b;
      assert s.list[k] == b;
    }
  }

  /**
   * Where no other buffer lies in the way, updateCurrentBufferEndAddress gives the current buffer exactly the bytes of
   * its picture, changes no other buffer, and findBuffer finds the current buffer exactly at these bytes.
   */
  lemma EndUpdatedFound(s: State, top: nat, a: nat)
    requires Inv(s, top) && 0 <= s.cur && ClearFrom(CurrentEnded(s, top), 0)
    ensures var r, b := EndUpdated(s, top), s.list[s.cur];
      && r.cur == s.cur && |r.list| == |s.list|
      && r.list == s.list[s.cur := b.(end := r.list[s.cur].end)]
      && (r.list[s.cur].Contains(a) <==> a <= top && InPicture(b, a))
      && (FindBuffer(r.list, a) == s.cur <==> a <= top && InPicture(b, a))
  {
    hide InPicture;
    InvCurrentEnded(s, top);
    SweptNothing(CurrentEnded(s, top), |s.list|);
    EndUpdatedSettles(s, top);
    EndedExactly(s.list[s.cur], top, a);
    var r := EndUpdated(s, top);
    if r.list[s.cur].Contains(a) {
      SettledUnique(r, top, s.cur, a);
    }
  }

  lemma PreparedSettles(s: State, env: Env)
    requires Inv(s, env.rdramSize)
    ensures Settled(Prepared(s, env), env.rdramSize)
  {
    if s.cur >= 0 {
      InvBufferRemoved(s, env.rdramSize, s.list[s.cur].start);
      EndUpdatedSettles(BufferRemoved(s, s.list[s.cur].start), env.rdramSize);
    }
    EndUpdatedSettles(s, env.rdramSize);
  }

  /** No buffer contains `address`. */
  ghost predicate Free(list: seq<Buf>, address: nat) {
    forall i :: 0 <= i < |list| ==> !list[i].Contains(address)
  }

  /** In a settled list at most one buffer contains an address, and at most one starts at it. */
  lemma SettledUnique(s: State, top: nat, i: nat, a: nat)
    requires Settled(s, top) && i < |s.list| && s.list[i].Contains(a)
    ensures forall j :: 0 <= j < |s.list| && j != i ==> !s.list[j].Contains(a)
  {
  }

  lemma InvPrepended(s: State, top: nat, b: Buf)
    requires Settled(s, top) && Sound(b, top) && Free(s.list, b.start)
    ensures Inv(Prepended(s, b), top)
  {
  }

  /** Removing the buffer that contains an address leaves the address free. */
  lemma RemovedFrees(s: State, top: nat, address: nat)
    requires Settled(s, top) && 0 <= s.cur && s.list[s.cur].Contains(address)
    ensures var r := BufferRemoved(s, s.list[s.cur].start); Settled(r, top) && Free(r.list, address)
  {
    var b := s.list[s.cur];
    SettledUnique(s, top, s.cur, address);
    SettledUnique(s, top, s.cur, b.start);
    var i := FindStart(s.list, b.start);
    assert i == s.cur;
    SettledRemoved(s, top, i);
  }

  lemma TrimmedFrees(s: State, top: nat, address: nat)
    requires Settled(s, top) && 0 <= s.cur && s.list[s.cur].Contains(address) && s.list[s.cur].start != address
    ensures var r := State(s.list[s.cur := s.list[s.cur].(end := address - 1)], -1);
      Settled(r, top) && Free(r.list, address)
  {
    SettledUnique(s, top, s.cur, address);
  }

  /** The arguments and surroundings saveBuffer is called with. */
  ghost predicate SaveSound(env: Env, address: nat, size: nat, width: nat) {
    address <= env.rdramSize && 1 <= size <= 3 && 1 <= width && env.viHeight <= 0xFFFF &&
    (!env.enabled ==> 1 <= env.viWidth <= 640 && 2 * env.viWidth <= env.rdramSize)
  }

  lemma InvSettlement(s: State, env: Env, address: nat, size: nat, width: nat, asCfb: bool)
    requires Settled(s, env.rdramSize) && SaveSound(env, address, size, width) && width <= 640
    requires if s.cur >= 0 then s.list[s.cur].Contains(address) else Free(s.list, address)
    ensures var r := Settlement(s, env, address, size, width, asCfb);
      Inv(r, env.rdramSize) && r.cur >= 0 && r.list[r.cur].Contains(address)
  {
    hide Free, IsSubBuffer, IsOverlappingBuffer, BufferRemoved;
    var top, b := env.rdramSize, env.Created(address, size, width, asCfb);
    EndedSound(Buf(address, 0, width, if asCfb then env.viHeight else 1, size, b.scale, asCfb, env.swapCount), top);
    if s.cur < 0 {
      InvPrepended(s, top, b);
    } else {
      RemovedFrees(s, top, address);
      InvPrepended(BufferRemoved(s, s.list[s.cur].start), top, b);
      if s.list[s.cur].start != address {
        TrimmedFrees(s, top, address);
        InvPrepended(State(s.list[s.cur := s.list[s.cur].(end := address - 1)], -1), top, b);
      }
    }
  }

  /**
   * saveBuffer keeps the invariant, and when buffers are in use it ends with a current buffer that contains the
   * address.
   */
  lemma InvSaved(s: State, env: Env, address: nat, size: nat, width: nat, asCfb: bool)
    requires Inv(s, env.rdramSize) && SaveSound(env, address, size, width)
    ensures var r := Saved(s, env, address, size, width, asCfb);
      Inv(r, env.rdramSize) && (width <= 640 && env.enabled ==> r.cur >= 0 && r.list[r.cur].Contains(address))
  {
    var top := env.rdramSize;
    if width <= 640 {
      if env.enabled {
        var t := Prepared(s, env);
        PreparedSettles(s, env);
        InvSettlement(Selected(t, address, width), env, address, size, width, asCfb);
      } else {
        var start := env.viWidth * 2;
        var scale := env.Created(start, 2, env.viWidth, false).scale;
        EndedSound(Buf(start, 0, env.viWidth, 1, 2, scale, false, env.swapCount), top);
      }
    }
  }

  // What saveBuffer does, in rows

  /** saveBuffer starts without the current buffer if that is auxiliary and copied, else with its range updated. */
  lemma PreparedExactly(s: State, env: Env)
    requires Inv(s, env.rdramSize)
    ensures Prepared(s, env) ==
      if s.cur >= 0 && s.list[s.cur].width != env.viWidth && env.copyAux && !env.hackSnap
      then State(Erased(s.list, s.cur), -1) else EndUpdated(s, env.rdramSize)
  {
    if s.cur >= 0 {
      assert FindStart(s.list, s.list[s.cur].start) == s.cur;
    }
  }

  /** The buffer saveBuffer goes on with is the one that contains the address, although it may not search for it. */
  lemma SelectedFinds(s: State, top: nat, address: nat, width: nat)
    requires Settled(s, top)
    ensures Selected(s, address, width) == State(s.list, FindBuffer(s.list, address))
  {
    if s.cur >= 0 && s.list[s.cur].start == address {
      SettledUnique(s, top, s.cur, address);
    }
  }

  /** The buffer has the picture asked for, of no more bytes a pixel than before, and the current scale. */
  predicate Continues(b: Buf, env: Env, address: nat, size: nat, width: nat) {
    b.start == address && b.width == width && size <= b.size &&
    b.scale == if env.nativeResFactor > 0 then env.nativeResFactor as real else env.windowScale
  }

  predicate SameFormat(b: Buf, size: nat, width: nat) {
    b.width == width && b.size == size
  }

  /**
   * The address is drawn to as a part of the buffer: it is one of this frame, and the address does not begin a row, or
   * has six whole rows behind it.
   */
  predicate DrawnInside(b: Buf, env: Env, address: nat, size: nat, width: nat) {
    && b.start < address && SameFormat(b, size, width) && b.swapCount == env.swapCount && !b.cfb
    && (BeginsRow(b, address) ==> address + 6 * RowBytes(b) <= b.end + 1)
  }

  predicate BeginsRow(b: Buf, address: nat) {
    exists y: nat :: y <= address && address == b.start + y * RowBytes(b)
  }

  /** Fewer than five whole rows of the buffer lie behind the address. */
  predicate CutOff(b: Buf, address: nat, size: nat, width: nat) {
    b.start < address && SameFormat(b, size, width) && b.end + 1 < address + 5 * RowBytes(b)
  }

  lemma RowsBehind(over: int, row: nat, n: nat)
    requires over >= 0 && row >= 1
    ensures over / row >= n <==> over >= n * row
  {
    assert over == row * (over / row) + over % row;
    if over / row >= n {
      MulMonotone(row, n, over / row);
    } else {
      MulMonotone(row, over / row + 1, n);
      assert row * (over / row + 1) == row * (over / row) + row;
    }
  }

  lemma BeginsRowExactly(b: Buf, address: nat)
    requires b.start <= address && RowBytes(b) >= 1
    ensures BeginsRow(b, address) <==> (address - b.start) % RowBytes(b) == 0
  {
    var row, over := RowBytes(b), address - b.start;
    if over % row == 0 {
      assert over == over / row * row;
      MulMonotone(over / row, 1, row);
      assert address == b.start + (over / row) * row;
    }
    if BeginsRow(b, address) {
      var y: nat :| y <= address && address == b.start + y * row;
      DivisionIs(over, row, y, 0);
    }
  }

  lemma PartExactly(b: Buf, top: nat, env: Env, address: nat, size: nat, width: nat)
    requires Sound(b, top) && b.Contains(address) && b.start != address && TexelBytes(width, size) > 0
    ensures IsSubBuffer(b, env, address, size, width) <==> DrawnInside(b, env, address, size, width)
    ensures IsOverlappingBuffer(b, address, size, width) <==> CutOff(b, address, size, width)
  {
    hide BeginsRow;
    if SameFormat(b, size, width) {
      var row, behind := RowBytes(b), b.end - address + 1;
      assert row == TexelBytes(width, size);
      RowsBehind(behind, row, 6);
      RowsBehind(behind, row, 5);
      BeginsRowExactly(b, address);
    }
  }

  /** A new buffer: at the address, in the format asked for, holding the bytes of one row, or of the screen's rows. */
  lemma CreatedExactly(env: Env, address: nat, size: nat, width: nat, asCfb: bool, a: nat)
    requires address <= env.rdramSize && 1 <= width && 1 <= size <= 3
    ensures var b := env.Created(address, size, width, asCfb);
      && b.start == address && SameFormat(b, size, width) && b.cfb == asCfb && b.swapCount == env.swapCount
      && b.height == (if asCfb then env.viHeight else 1)
      && (b.Contains(a) <==> a <= env.rdramSize && InPicture(b, a))
  {
    hide InPicture;
    var b := env.Created(address, size, width, asCfb);
    EndedExactly(b, env.rdramSize, a);
  }

  /** What saveBuffer makes of a list in which `b`, at position `i`, contains the address; `n` is a new buffer. */
  ghost predicate SavedTo(t: State, r: State, n: Buf, env: Env, address: nat, size: nat, width: nat) {
    var i := FindBuffer(t.list, address);
    if i < 0 then r == State([n] + t.list, 0)
    else
      var b := t.list[i];
      if Continues(b, env, address, size, width) then
        r == State(t.list[i := b.(size := size, swapCount := env.swapCount)], i)
      else if DrawnInside(b, env, address, size, width) then r == State(t.list, i)
      else if CutOff(b, address, size, width) then r == State([n] + t.list[i := b.(end := address - 1)], 0)
      else r == State([n] + Erased(t.list, i), 0)
  }

  lemma SettlementExactly(t: State, env: Env, address: nat, size: nat, width: nat, asCfb: bool)
    requires Settled(t, env.rdramSize) && SaveSound(env, address, size, width) && width <= 640
    ensures SavedTo(t, Settlement(Selected(t, address, width), env, address, size, width, asCfb),
                    env.Created(address, size, width, asCfb), env, address, size, width)
  {
    hide IsSubBuffer, IsOverlappingBuffer, BeginsRow;
    var i := FindBuffer(t.list, address);
    SelectedFinds(t, env.rdramSize, address, width);
    if i >= 0 {
      var b := t.list[i];
      SettledUnique(t, env.rdramSize, i, address);
      SettledUnique(t, env.rdramSize, i, b.start);
      assert FindStart(t.list, b.start) == i;
      if b.start != address {
        PartExactly(b, env.rdramSize, env, address, size, width);
      }
    }
  }

  /**
   * saveBuffer on a list that satisfies the invariant, told by the only buffer that contains the address: it goes on
   * with it as its own, draws inside it, cuts it off, or replaces it, and changes no other buffer.
   */
  lemma SavedExactly(s: State, env: Env, address: nat, size: nat, width: nat, asCfb: bool)
    requires Inv(s, env.rdramSize) && SaveSound(env, address, size, width)
    ensures width > 640 ==> Saved(s, env, address, size, width, asCfb) == s
    ensures width <= 640 && !env.enabled ==>
      Saved(s, env, address, size, width, asCfb) ==
      if s.list == [] && env.viHeight > 0
      then State([env.Created(2 * env.viWidth, 2, env.viWidth, false)], s.cur) else s
    ensures width <= 640 && env.enabled ==>
      SavedTo(Prepared(s, env), Saved(s, env, address, size, width, asCfb),
              env.Created(address, size, width, asCfb), env, address, size, width)
  {
    PreparedSettles(s, env);
    if width <= 640 && env.enabled {
      SettlementExactly(Prepared(s, env), env, address, size, width, asCfb);
    }
  }

  /**
   * The next saveBuffer for the same picture, unless it begins by dropping the buffer, goes on with a buffer just created
   * exactly if that got the current scale: an auxiliary one that is copied has the N64's, and no buffer has less.
   */
  lemma CreatedContinues(env: Env, address: nat, size: nat, width: nat, asCfb: bool)
    requires env.enabled && address <= env.rdramSize && 1 <= width && 1 <= size <= 3
    ensures Continues(env.Created(address, size, width, asCfb), env, address, size, width) <==>
      var scale := if env.nativeResFactor > 0 then env.nativeResFactor as real else env.windowScale;
      if width != env.viWidth && env.copyAux then scale == 1.0 else scale >= 1.0
  {
  }

  /**
   * setBufferChanged keeps the invariant; it makes the current buffer one that holds the rows drawn, and changes no
   * other. The range grows only when it is updated.
   */
  lemma InvChanged(s: State, top: nat, colorHeight: nat)
    requires Inv(s, top) && colorHeight <= 0xFFFF
    ensures Inv(Changed(s, colorHeight), top)
    ensures var r := Changed(s, colorHeight);
      if s.cur < 0 then r == s
      else
        && r.cur == s.cur && |r.list| == |s.list|
        && (forall i :: 0 <= i < |s.list| && i != s.cur ==> r.list[i] == s.list[i])
        && var b, b' := s.list[s.cur], r.list[s.cur];
           && b'.height >= b.height && b'.height >= colorHeight && b'.height in {b.height, colorHeight} && !b'.cfb
           && b' == b.(height := b'.height, cfb := false)
  {
  }

  // -------------------------------------------------------------------------
  // Runs

  datatype Op =
    | Save(env: Env, address: nat, size: nat, width: nat, asCfb: bool)
    | SetChanged(colorHeight: nat)
    | UpdateEnd
    | Remove(address: nat)
    | RemoveAux(viWidth: nat)

  ghost predicate OpSound(op: Op, rdramSize: nat) {
    match op
    case Save(env, address, size, width, _) => env.rdramSize == rdramSize && SaveSound(env, address, size, width)
    case SetChanged(colorHeight) => colorHeight <= 0xFFFF
    case _ => true
  }

  ghost function Step(s: State, op: Op, rdramSize: nat): (r: State)
    requires Inv(s, rdramSize) && OpSound(op, rdramSize)
    ensures Inv(r, rdramSize)
  {
    match op
    case Save(env, address, size, width, asCfb) =>
      InvSaved(s, env, address, size, width, asCfb); Saved(s, env, address, size, width, asCfb)
    case SetChanged(colorHeight) => InvChanged(s, rdramSize, colorHeight); Changed(s, colorHeight)
    case UpdateEnd => EndUpdatedSettles(s, rdramSize); EndUpdated(s, rdramSize)
    case Remove(address) => InvBufferRemoved(s, rdramSize, address); BufferRemoved(s, address)
    case RemoveAux(viWidth) => InvAuxRemoved(s, rdramSize, viWidth, 0); AuxRemoved(s, viWidth, 0)
  }

  ghost function Run(s: State, ops: seq<Op>, rdramSize: nat): (r: State)
    requires Inv(s, rdramSize) && forall op <- ops :: OpSound(op, rdramSize)
    ensures Inv(r, rdramSize)
    decreases ops
  {
    if ops == [] then s else Run(Step(s, ops[0], rdramSize), ops[1..], rdramSize)
  }

  // -------------------------------------------------------------------------
  // What the invariant is for

  /** removeAux leaves the buffers as wide as the screen, in their order, and the current one if it is one of them. */
  lemma {:induction false} AuxRemovedExactly(s: State, viWidth: nat, p: nat)
    requires s.WellFormed() && p <= |s.list| && forall i :: 0 <= i < p ==> s.list[i].width == viWidth
    ensures var r := AuxRemoved(s, viWidth, p);
      && r.WellFormed() && r.list == OfWidth(s.list, viWidth)
      && (s.cur >= 0 && s.list[s.cur].width == viWidth ==> r.cur >= 0 && r.list[r.cur] == s.list[s.cur])
      && (s.cur < 0 || s.list[s.cur].width != viWidth ==> r.cur < 0)
    decreases |s.list| - p
  {
    if p == |s.list| {
      AllOfWidth(s.list, viWidth);
    } else if s.list[p].width != viWidth {
      var r := Removed(s, p);
      AuxRemovedExactly(r, viWidth, p);
      OfWidthWithout(s.list, viWidth, p);
      assert AuxRemoved(s, viWidth, p) == AuxRemoved(r, viWidth, p);
    } else {
      AuxRemovedExactly(s, viWidth, p + 1);
    }
  }

  function OfWidth(list: seq<Buf>, width: nat): seq<Buf> {
    if list == [] then []
    else (if list[0].width == width then [list[0]] else []) + OfWidth(list[1..], width)
  }

  lemma {:induction false} AllOfWidth(list: seq<Buf>, width: nat)
    requires forall i :: 0 <= i < |list| ==> list[i].width == width
    ensures OfWidth(list, width) == list
  {
    if list != [] {
      AllOfWidth(list[1..], width);
    }
  }

  lemma {:induction false} OfWidthWithout(list: seq<Buf>, width: nat, i: nat)
    requires i < |list| && list[i].width != width
    ensures OfWidth(Erased(list, i), width) == OfWidth(list, width)
  {
    if i == 0 {
      assert Erased(list, 0) == list[1..];
    } else {
      OfWidthWithout(list[1..], width, i - 1);
      assert Erased(list, i)[1..] == Erased(list[1..], i - 1);
    }
  }

  /** In a settled list the answer of findBuffer does not depend on the order of the list. */
  lemma FindOrderFree(s: State, top: nat, list: seq<Buf>, a: nat)
    requires Settled(s, top) && (forall b :: b in list <==> b in s.list)
    ensures var i, j := FindBuffer(s.list, a), FindBuffer(list, a);
      (i >= 0 <==> j >= 0) && (i >= 0 ==> s.list[i] == list[j])
  {
    var i, j := FindBuffer(s.list, a), FindBuffer(list, a);
    if i >= 0 {
      assert s.list[i] in list;
    }
    if j >= 0 {
      assert list[j] in s.list;
    }
  }

  /**
   * On every run from the empty list, right after the end address of the current buffer was updated, at most one buffer
   * contains any address, so findBuffer finds the same one in whatever order the buffers are listed.
   */
  lemma FindAfterRun(ops: seq<Op>, rdramSize: nat, list: seq<Buf>, a: nat)
    requires forall op <- ops :: OpSound(op, rdramSize)
    requires forall b :: b in list <==> b in EndUpdated(Run(State([], -1), ops, rdramSize), rdramSize).list
    ensures var s := EndUpdated(Run(State([], -1), ops, rdramSize), rdramSize);
      && Settled(s, rdramSize)
      && var i, j := FindBuffer(s.list, a), FindBuffer(list, a);
         (i >= 0 <==> j >= 0) && (i >= 0 ==> s.list[i] == list[j])
  {
    var s := Run(State([], -1), ops, rdramSize);
    EndUpdatedSettles(s, rdramSize);
    FindOrderFree(EndUpdated(s, rdramSize), rdramSize, list, a);
  }
}
