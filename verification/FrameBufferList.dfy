/**
 * FrameBuffer and FrameBufferList of GLideN64/src/FrameBuffer.cpp as objects; their methods refine the functions of
 * FrameBuffers.
 */
module FrameBufferLists {
  import opened FrameBuffers
  import opened Machine

  class FrameBuffer {
    var startAddress: nat
    var endAddress: nat
    var width: nat
    var height: nat
    var size: nat
    var scale: real
    var cfb: bool
    var swapCount: nat

    ghost function Snap(): Buf
      reads this
    {
      Buf(startAddress, endAddress, width, height, size, scale, cfb, swapCount)
    }

    constructor (env: Env, address: nat, size: nat, width: nat, asCfb: bool)
      ensures Snap() == env.Created(address, size, width, asCfb)
    {
      startAddress, this.width, this.size := address, width, size;
      height := if asCfb then env.viHeight else 1;
      if width != env.viWidth && env.copyAux {
        scale := 1.0;
      } else if env.nativeResFactor != 0 && env.enabled {
        scale := env.nativeResFactor as real;
      } else {
        scale := if env.windowScale < 1.0 then 1.0 else env.windowScale;
      }
      cfb, swapCount, endAddress := asCfb, env.swapCount, 0;
      new;
      UpdateEndAddress(env.rdramSize);
    }

    method UpdateEndAddress(rdramSize: nat)
      modifies this`endAddress
      ensures Snap() == old(Snap()).Ended(rdramSize)
    {
      var h := if height < 1 then 1 else height;
      var last := startAddress + TexelBytes(width * h, size) - 1;
      endAddress := if last < 0 then rdramSize else if rdramSize < last then rdramSize else last;
    }
  }

  ghost function Snaps(list: seq<FrameBuffer>): (r: seq<Buf>)
    reads list
    ensures |r| == |list|
  {
    seq(|list|, i requires 0 <= i < |list| reads list => list[i].Snap())
  }

  lemma SnapsErased(list: seq<FrameBuffer>, i: nat)
    requires i < |list|
    ensures Snaps(Erased(list, i)) == Erased(Snaps(list), i)
  {
  }

  class FrameBufferList {
    var list: seq<FrameBuffer>
    var current: FrameBuffer?
    ghost var cur: int

    ghost predicate Valid()
      reads this
    {
      && (forall i, j :: 0 <= i < j < |list| ==> list[i] != list[j])
      && -1 <= cur < |list|
      && current == (if cur < 0 then null else list[cur])
    }

    ghost function View(): State
      reads this, list
    {
      State(Snaps(list), cur)
    }

    constructor ()
      ensures Valid() && View() == State([], -1)
    {
      list, current, cur := [], null, -1;
    }

    /** findBuffer: the buffer at the returned position, or none. */
    method Find(a: nat) returns (i: int)
      ensures i == FindBuffer(Snaps(list), a)
    {
      var k := 0;
      while k < |list|
        invariant k <= |list|
        invariant forall j :: 0 <= j < k ==> !list[j].Snap().Contains(a)
      {
        if list[k].startAddress <= a <= list[k].endAddress {
          FindBufferIs(Snaps(list), a, k);
          return k;
        }
        k := k + 1;
      }
      FindBufferIs(Snaps(list), a, -1);
      return -1;
    }

    /** Sets the end of entry `i`. */
    method SetEnd(i: nat, end: nat)
      requires Valid() && i < |list|
      modifies list
      ensures Valid()
      ensures var s := old(View()); View() == State(s.list[i := s.list[i].(end := end)], s.cur)
    {
      list[i].endAddress := end;
    }

    /** `m_list.erase(iter)`, clearing the current pointer if it pointed there. */
    method Erase(i: nat)
      requires Valid() && i < |list|
      modifies this`list, this`cur, this`current
      ensures Valid() && View() == Removed(old(View()), i)
      ensures forall k :: 0 <= k < |list| ==> list[k] in old(list)
      ensures i != old(cur) ==> current == old(current)
    {
      if list[i] == current {
        current := null;
      }
      SnapsErased(list, i);
      cur := Shifted(cur, i);
      list := Erased(list, i);
    }

    /** The meeting of entry `i` with the current buffer, one round of removeIntersections. */
    method Meet(i: nat)
      requires Valid() && current != null && i < |list| && list[i] != current
      modifies this`list, this`cur, this`current, list
      ensures Valid() && current == old(current) && View() == Met(old(View()), i)
      ensures forall k :: 0 <= k < |list| ==> list[k] in old(list)
    {
      var b := list[i];
      ghost var s := View();
      assert s.list[i] == b.Snap() && s.list[s.cur] == current.Snap();
      if b.startAddress <= current.startAddress && b.endAddress >= current.startAddress {
        var overlaps := Overlaps(b, current);
        if overlaps {
          SetEnd(i, if current.startAddress == 0 then 0xFFFF_FFFF else current.startAddress - 1);
        } else {
          Erase(i);
        }
      } else if current.startAddress <= b.startAddress && current.endAddress >= b.startAddress {
        var overlaps := Overlaps(current, b);
        if overlaps {
          SetCurrentEnd(if b.startAddress == 0 then 0xFFFF_FFFF else b.startAddress - 1);
        } else {
          Erase(i);
        }
      }
    }

    method SetCurrentEnd(end: nat)
      requires Valid() && current != null
      modifies list
      ensures Valid()
      ensures var s := old(View()); View() == State(s.list[s.cur := s.list[s.cur].(end := end)], s.cur)
    {
      current.endAddress := end;
    }

    /** One round of removeIntersections. */
    method Round(i: nat)
      requires Valid() && current != null && i < |list|
      modifies this`list, this`cur, this`current, list
      ensures Valid() && current == old(current) && i <= |list|
      ensures forall k :: 0 <= k < |list| ==> list[k] in old(list)
      ensures Swept(View(), i) == old(Swept(View(), i + 1))
    {
      ghost var s := View();
      SweptStep(s, i + 1);
      if list[i] != current {
        Meet(i);
      }
    }

    /** removeIntersections: back to front, each entry once, although entries are erased on the way. */
    method RemoveIntersections()
      requires Valid() && current != null
      modifies this`list, this`cur, this`current, list
      ensures Valid() && current == old(current) && View() == IntersectionsRemoved(old(View()))
      ensures forall k :: 0 <= k < |list| ==> list[k] in old(list)
    {
      var i := |list|;
      while i > 0
        invariant 0 <= i <= |list| && Valid() && current == old(current)
        invariant Swept(View(), i) == old(Swept(View(), |list|))
        invariant forall k :: 0 <= k < |list| ==> list[k] in old(list)
      {
        i := i - 1;
        Round(i);
      }
    }

    /** updateCurrentBufferEndAddress */
    method UpdateCurrentBufferEndAddress(rdramSize: nat)
      requires Valid()
      modifies this`list, this`cur, this`current, list
      ensures Valid() && View() == EndUpdated(old(View()), rdramSize)
      ensures forall k :: 0 <= k < |list| ==> list[k] in old(list)
    {
      if current == null {
        return;
      }
      UpdateCurrentEnd(rdramSize);
      RemoveIntersections();
    }

    method UpdateCurrentEnd(rdramSize: nat)
      requires Valid() && current != null
      modifies list
      ensures Valid() && View() == CurrentEnded(old(View()), rdramSize)
    {
      current.UpdateEndAddress(rdramSize);
    }

    method RemoveBuffer(address: nat)
      requires Valid()
      modifies this`list, this`cur, this`current
      ensures Valid() && View() == BufferRemoved(old(View()), address)
      ensures forall k :: 0 <= k < |list| ==> list[k] in old(list)
    {
      var i := 0;
      while i < |list|
        invariant i <= |list| && list == old(list) && current == old(current) && cur == old(cur)
        invariant forall k :: 0 <= k < i ==> list[k].Snap().start != address
      {
        if list[i].startAddress == address {
          FindStartIs(Snaps(list), address, i);
          Erase(i);
          return;
        }
        i := i + 1;
      }
      FindStartIs(Snaps(list), address, -1);
    }

    /** One round of removeAux: the entry at `i` is erased or passed. */
    method AuxRound(viWidth: nat, i: nat) returns (next: nat)
      requires Valid() && i < |list|
      modifies this`list, this`cur, this`current
      ensures Valid() && next <= |list| && |list| - next < old(|list|) - i
      ensures forall k :: 0 <= k < |list| ==> list[k] in old(list)
      ensures AuxRemoved(View(), viWidth, next) == old(AuxRemoved(View(), viWidth, i))
    {
      next := i;
      if list[i].width != viWidth {
        Erase(i);
      } else {
        next := i + 1;
      }
    }

    /** removeAux */
    method RemoveAux(viWidth: nat)
      requires Valid()
      modifies this`list, this`cur, this`current
      ensures Valid() && View() == AuxRemoved(old(View()), viWidth, 0)
      ensures forall k :: 0 <= k < |list| ==> list[k] in old(list)
    {
      var i: nat := 0;
      while i < |list|
        invariant i <= |list| && Valid()
        invariant AuxRemoved(View(), viWidth, i) == old(AuxRemoved(View(), viWidth, 0))
        invariant forall k :: 0 <= k < |list| ==> list[k] in old(list)
        decreases |list| - i
      {
        i := AuxRound(viWidth, i);
      }
    }

    /** setBufferChanged for the colour image height and scissor it works with; returns the new colour image height. */
    method SetBufferChanged(colorHeight0: nat, maxY: nat, scissorLry: nat) returns (colorHeight: nat)
      requires Valid()
      modifies list
      ensures var h := if colorHeight0 < maxY then maxY else colorHeight0;
        colorHeight == if h < scissorLry then h else scissorLry
      ensures Valid() && View() == Changed(old(View()), colorHeight)
    {
      colorHeight := if colorHeight0 < maxY then maxY else colorHeight0;
      colorHeight := if colorHeight < scissorLry then colorHeight else scissorLry;
      if current != null {
        current.height := if current.height < colorHeight then colorHeight else current.height;
        current.cfb := false;
      }
    }

    /** `m_list.emplace_front()`, initialised and made current. */
    method CreateFront(env: Env, address: nat, size: nat, width: nat, asCfb: bool)
      requires Valid()
      modifies this`list, this`cur, this`current
      ensures Valid() && View() == Prepended(old(View()), env.Created(address, size, width, asCfb))
    {
      var buffer := new FrameBuffer(env, address, size, width, asCfb);
      list := [buffer] + list;
      current := buffer;
      cur := 0;
    }

    /** The start of saveBuffer: an auxiliary current buffer is dropped, or its range is brought up to date. */
    method Prepare(env: Env)
      requires Valid()
      modifies this`list, this`cur, this`current, list
      ensures Valid() && View() == Prepared(old(View()), env)
      ensures forall k :: 0 <= k < |list| ==> list[k] in old(list)
    {
      if current != null && env.copyAux && !env.hackSnap {
        if current.width != env.viWidth {
          RemoveBuffer(current.startAddress);
        }
      }
      UpdateCurrentBufferEndAddress(env.rdramSize);
    }

    /** saveBuffer's choice of the buffer to go on with. */
    method Select(address: nat, width: nat)
      requires Valid()
      modifies this`cur, this`current
      ensures Valid() && View() == Selected(old(View()), address, width)
    {
      if current == null || current.startAddress != address || current.width != width {
        var i := Find(address);
        cur := i;
        current := if i < 0 then null else list[i];
      }
    }

    /** The rest of saveBuffer. */
    method Settle(env: Env, address: nat, size: nat, width: nat, asCfb: bool)
      requires Valid() && TexelBytes(width, size) > 0
      requires current != null && current.startAddress != address ==> current.Snap().Contains(address)
      modifies this`list, this`cur, this`current, list
      ensures Valid() && View() == Settlement(old(View()), env, address, size, width, asCfb)
    {
      hide IsSubBuffer, IsOverlappingBuffer, BufferRemoved, Prepended, TexelBytes;
      ghost var s := View();
      if current != null {
        assert s.list[s.cur] == current.Snap();
        if current.startAddress != address {
          var sub := SubBuffer(current, env, address, size, width);
          var overlapping := OverlappingBuffer(current, address, size, width);
          if sub {
            return;
          } else if overlapping {
            SetCurrentEnd(address - 1);
            current := null;
            cur := -1;
          } else {
            RemoveBuffer(current.startAddress);
          }
        } else if current.width != width || current.size < size || current.scale != env.Scale() {
          RemoveBuffer(current.startAddress);
        } else {
          current.size := size;
          current.swapCount := env.swapCount;
          return;
        }
      }
      CreateFront(env, address, size, width, asCfb);
    }

    method SaveBuffer(env: Env, address: nat, size: nat, width: nat, asCfb: bool)
      requires Valid() && TexelBytes(width, size) > 0
      modifies this`list, this`cur, this`current, list
      ensures Valid() && View() == Saved(old(View()), env, address, size, width, asCfb)
    {
      if width > 640 {
        return;
      }
      if !env.enabled {
        if list == [] && env.viHeight != 0 {
          var buffer := new FrameBuffer(env, env.viWidth * 2, 2, env.viWidth, false);
          list := [buffer];
        }
        return;
      }
      Prepare(env);
      Select(address, width);
      Settle(env, address, size, width, asCfb);
    }
  }

  /** isSubBuffer */
  method SubBuffer(b: FrameBuffer, env: Env, address: nat, size: nat, width: nat) returns (r: bool)
    requires b.Snap().Contains(address) && TexelBytes(width, size) > 0
    ensures r == IsSubBuffer(b.Snap(), env, address, size, width)
  {
    if b.swapCount == env.swapCount && !b.cfb && b.width == width && b.size == size {
      var stride := TexelBytes(width, size);
      var diffFromStart := address - b.startAddress;
      if diffFromStart % stride != 0 {
        return true;
      }
      var diffFromEnd := b.endAddress - address + 1;
      if diffFromEnd / stride > 5 {
        return true;
      }
    }
    return false;
  }

  /** isOverlappingBuffer */
  method OverlappingBuffer(b: FrameBuffer, address: nat, size: nat, width: nat) returns (r: bool)
    requires b.Snap().Contains(address) && TexelBytes(width, size) > 0
    ensures r == IsOverlappingBuffer(b.Snap(), address, size, width)
  {
    if b.width == width && b.size == size {
      var stride := TexelBytes(width, size);
      var diffEnd := b.endAddress - address + 1;
      return diffEnd / stride < 5;
    }
    return false;
  }

  /** isOverlapping */
  method Overlaps(buf1: FrameBuffer, buf2: FrameBuffer) returns (r: bool)
    requires buf1.endAddress + 1 >= buf2.startAddress
    ensures r == IsOverlapping(buf1.Snap(), buf2.Snap())
  {
    if buf1.endAddress < buf2.endAddress && buf1.width == buf2.width && buf1.size == buf2.size {
      var diff := buf1.endAddress - buf2.startAddress + 1;
      var stride := TexelBytes(buf1.width, buf1.size);
      return stride > 0 && diff % stride == 0 && diff / stride < 5;
    }
    return false;
  }

  lemma {:induction false} FindStartIs(list: seq<Buf>, address: nat, i: int)
    requires -1 <= i < |list|
    requires i >= 0 ==> list[i].start == address
    requires forall k :: 0 <= k < (if i < 0 then |list| else i) ==> list[k].start != address
    ensures FindStart(list, address) == i
  {
  }

  lemma {:induction false} FindBufferIs(list: seq<Buf>, a: nat, i: int)
    requires -1 <= i < |list|
    requires i >= 0 ==> list[i].Contains(a)
    requires forall k :: 0 <= k < (if i < 0 then |list| else i) ==> !list[k].Contains(a)
    ensures FindBuffer(list, a) == i
  {
  }
}
