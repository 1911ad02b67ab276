/** The copy kernels of GLideN64/src/convert.cpp, over TMEM seen as 4096 bytes. */
module Convert {
  import opened Arith
  import opened Machine

  /** RDRAM as the emulator holds it: 32-bit words in host order, so the N64 byte `a` sits at index `a ^ 3`. */
  predicate IsRdram(s: seq<u8>) { |s| % 4 == 0 }

  type Rdram = s: seq<u8> | IsRdram(s)

  /** The N64's own byte at address `a`. */
  function ByteAt(rdram: Rdram, a: nat): u8
    requires a < |rdram|
  {
    assert Xor3(a) < |rdram| by { MirrorInside(rdram, a); }
    rdram[Xor3(a)]
  }

  lemma MirrorInside(rdram: Rdram, a: nat)
    requires a < |rdram|
    ensures Xor3(a) < |rdram|
  {
  }

  // -------------------------------------------------------------------------
  // UnswapCopyWrap

  /**
   * `dest` after the N64 bytes `srcIdx .. srcIdx + n` were stored, in this order, from `destIdx` on, wrapping in TMEM.
   */
  ghost function Copied(dest: seq<u8>, destIdx: nat, src: Rdram, srcIdx: nat, n: nat): (r: seq<u8>)
    requires |dest| == 4096 && srcIdx + n <= |src|
    ensures |r| == |dest|
  {
    if n == 0 then dest
    else Copied(dest, destIdx, src, srcIdx, n - 1)[(destIdx + n - 1) % 4096 := ByteAt(src, srcIdx + n - 1)]
  }

  lemma CopiedStep(dest: seq<u8>, destIdx: nat, src: Rdram, srcIdx: nat, n: nat, p: nat, v: u8)
    requires |dest| == 4096 && srcIdx + n < |src|
    requires p == (destIdx + n) % 4096 && v == ByteAt(src, srcIdx + n)
    ensures Copied(dest, destIdx, src, srcIdx, n + 1) == Copied(dest, destIdx, src, srcIdx, n)[p := v]
  {
  }

  lemma CopiedNothing(dest: seq<u8>, destIdx: nat, src: Rdram, srcIdx: nat)
    requires |dest| == 4096 && srcIdx <= |src|
    ensures Copied(dest, destIdx, src, srcIdx, 0) == dest
  {
  }

  /** Two copies in a row are one copy. */
  lemma {:induction false} CopiedAppend(dest: seq<u8>, destIdx: nat, src: Rdram, srcIdx: nat, n: nat, k: nat)
    requires |dest| == 4096 && srcIdx + n + k <= |src|
    ensures Copied(Copied(dest, destIdx, src, srcIdx, n), destIdx + n, src, srcIdx + n, k)
         == Copied(dest, destIdx, src, srcIdx, n + k)
  {
    if k > 0 {
      CopiedAppend(dest, destIdx, src, srcIdx, n, k - 1);
      var p := (destIdx + (n + k - 1)) % 4096;
      CopiedStep(dest, destIdx, src, srcIdx, n + k - 1, p, ByteAt(src, srcIdx + n + k - 1));
      CopiedStep(Copied(dest, destIdx, src, srcIdx, n), destIdx + n, src, srcIdx + n, k - 1, p,
                 ByteAt(src, srcIdx + n + k - 1));
    }
  }

  /** Position `p` of TMEM is the `n`-th one counted from `d`. */
  lemma Wrapped(p: nat, d: nat, n: nat)
    requires p < 4096 && n < 4096
    ensures p == (d + n) % 4096 <==> (p - d) % 4096 == n
  {
  }

  /**
   * Until a copy laps itself, the `k`-th byte from `destIdx` on is the N64 byte `srcIdx + k`, whatever the alignment.
   */
  lemma {:induction false} CopiedAt(dest: seq<u8>, destIdx: nat, src: Rdram, srcIdx: nat, n: nat, p: nat, k: nat)
    requires |dest| == 4096 && p < 4096 && n <= 4096 && srcIdx + n <= |src| && k == (p - destIdx) % 4096
    ensures Copied(dest, destIdx, src, srcIdx, n)[p] == if k < n then ByteAt(src, srcIdx + k) else dest[p]
  {
    if n > 0 {
      CopiedAt(dest, destIdx, src, srcIdx, n - 1, p, k);
      Wrapped(p, destIdx, n - 1);
    }
  }

  /** Stores to four distinct indices commute. */
  lemma StoresCommute(s: seq<u8>, i0: nat, i1: nat, i2: nat, i3: nat, v0: u8, v1: u8, v2: u8, v3: u8)
    requires i0 < |s| && i1 < |s| && i2 < |s| && i3 < |s|
    requires i0 != i1 && i0 != i2 && i0 != i3 && i1 != i2 && i1 != i3 && i2 != i3
    ensures s[i0 := v0][i1 := v1][i2 := v2][i3 := v3] == s[i3 := v3][i2 := v2][i1 := v1][i0 := v0]
  {
  }

  lemma FourWrapped(d: nat, i0: nat, i1: nat, i2: nat, i3: nat)
    requires i0 == d % 4096 && i1 == (d + 1) % 4096 && i2 == (d + 2) % 4096 && i3 == (d + 3) % 4096
    ensures i0 != i1 && i0 != i2 && i0 != i3 && i1 != i2 && i1 != i3 && i2 != i3
  {
  }

  lemma WordMirrored(src: Rdram, a: nat)
    requires a + 4 <= |src| && a % 4 == 0
    ensures ByteAt(src, a) == src[a + 3] && ByteAt(src, a + 1) == src[a + 2]
    ensures ByteAt(src, a + 2) == src[a + 1] && ByteAt(src, a + 3) == src[a]
  {
  }

  /** A host-order word stored back to front is four bytes copied front to back. */
  lemma CopiedWord(dest: seq<u8>, destIdx: nat, src: Rdram, srcIdx: nat, n: nat, i0: nat, i1: nat, i2: nat, i3: nat)
    requires |dest| == 4096 && srcIdx + n + 4 <= |src| && (srcIdx + n) % 4 == 0
    requires i0 == (destIdx + n) % 4096 && i1 == (destIdx + n + 1) % 4096
    requires i2 == (destIdx + n + 2) % 4096 && i3 == (destIdx + n + 3) % 4096
    ensures
      Copied(dest, destIdx, src, srcIdx, n + 4)
      == Copied(dest, destIdx, src, srcIdx, n)
           [i3 := src[srcIdx + n]][i2 := src[srcIdx + n + 1]][i1 := src[srcIdx + n + 2]][i0 := src[srcIdx + n + 3]]
  {
    hide Copied;
    var a := srcIdx + n;
    WordMirrored(src, a);
    FourWrapped(destIdx + n, i0, i1, i2, i3);
    var c := Copied(dest, destIdx, src, srcIdx, n);
    CopiedStep(dest, destIdx, src, srcIdx, n, i0, src[a + 3]);
    CopiedStep(dest, destIdx, src, srcIdx, n + 1, i1, src[a + 2]);
    CopiedStep(dest, destIdx, src, srcIdx, n + 2, i2, src[a + 1]);
    CopiedStep(dest, destIdx, src, srcIdx, n + 3, i3, src[a]);
    StoresCommute(c, i0, i1, i2, i3, src[a + 3], src[a + 2], src[a + 1], src[a]);
  }

  /** The leading and the trailing loop of UnswapCopyWrap: bytes of one word, read backwards from the mirrored index. */
  method CopyInsideWord(src: Rdram, srcIdx0: nat, dest: array<u8>, destIdx0: nat, numBytes: nat)
    requires dest.Length == 4096 && srcIdx0 + numBytes <= |src|
    requires srcIdx0 % 4 + numBytes <= 4
    modifies dest
    ensures dest[..] == Copied(old(dest[..]), destIdx0, src, srcIdx0, numBytes)
  {
    hide Copied;
    var srcIdx: int, destIdx := Xor3(srcIdx0), destIdx0;
    CopiedNothing(dest[..], destIdx0, src, srcIdx0);
    for i := 0 to numBytes
      invariant destIdx == destIdx0 + i && srcIdx == Xor3(srcIdx0) - i
      invariant dest[..] == Copied(old(dest[..]), destIdx0, src, srcIdx0, i)
    {
      assert srcIdx == Xor3(srcIdx0 + i);
      MirrorInside(src, srcIdx0 + i);
      CopiedStep(old(dest[..]), destIdx0, src, srcIdx0, i, destIdx % 4096, src[srcIdx]);
      dest[destIdx % 4096] := src[srcIdx];
      destIdx := destIdx + 1;
      srcIdx := srcIdx - 1;
    }
  }

  /** The dword loop of UnswapCopyWrap: whole words, each stored back to front. */
  method CopyWords(src: Rdram, srcIdx0: nat, dest: array<u8>, destIdx0: nat, numDWords: nat)
    requires dest.Length == 4096 && srcIdx0 + 4 * numDWords <= |src|
    requires srcIdx0 % 4 == 0
    modifies dest
    ensures dest[..] == Copied(old(dest[..]), destIdx0, src, srcIdx0, 4 * numDWords)
  {
    hide Copied;
    var srcIdx, destIdx := srcIdx0, destIdx0;
    CopiedNothing(dest[..], destIdx0, src, srcIdx0);
    for w := 0 to numDWords
      invariant srcIdx == srcIdx0 + 4 * w && destIdx == destIdx0 + 4 * w
      invariant dest[..] == Copied(old(dest[..]), destIdx0, src, srcIdx0, 4 * w)
    {
      var i3, i2, i1, i0 := (destIdx + 3) % 4096, (destIdx + 2) % 4096, (destIdx + 1) % 4096, (destIdx + 0) % 4096;
      CopiedWord(old(dest[..]), destIdx0, src, srcIdx0, 4 * w, i0, i1, i2, i3);
      dest[i3] := src[srcIdx]; srcIdx := srcIdx + 1;
      dest[i2] := src[srcIdx]; srcIdx := srcIdx + 1;
      dest[i1] := src[srcIdx]; srcIdx := srcIdx + 1;
      dest[i0] := src[srcIdx]; srcIdx := srcIdx + 1;
      destIdx := destIdx + 4;
    }
  }

  /** UnswapCopyWrap from a word boundary on: whole words, then trailing bytes. */
  method CopyAligned(src: Rdram, srcIdx: nat, dest: array<u8>, destIdx: nat, numBytes: nat)
    requires dest.Length == 4096 && srcIdx + numBytes <= |src| && srcIdx % 4 == 0
    modifies dest
    ensures dest[..] == Copied(old(dest[..]), destIdx, src, srcIdx, numBytes)
  {
    hide Copied, ByteAt;
    var numDWords, trailingBytes := numBytes / 4, numBytes % 4;
    CopyWords(src, srcIdx, dest, destIdx, numDWords);
    CopyInsideWord(src, srcIdx + 4 * numDWords, dest, destIdx + 4 * numDWords, trailingBytes);
    CopiedAppend(old(dest[..]), destIdx, src, srcIdx, 4 * numDWords, trailingBytes);
  }

  /**
   * GLideN64's copy out of host-order RDRAM into TMEM (destMask 0xFFF): leading bytes up to a word boundary,
   * whole words, trailing bytes.
   */
  method UnswapCopyWrap(src: Rdram, srcIdx: nat, dest: array<u8>, destIdx: nat, numBytes: nat)
    requires dest.Length == 4096 && srcIdx + numBytes <= |src|
    modifies dest
    ensures dest[..] == Copied(old(dest[..]), destIdx, src, srcIdx, numBytes)
  {
    hide Copied, ByteAt;
    CopiedNothing(dest[..], destIdx, src, srcIdx);
    var leadingBytes := srcIdx % 4;
    if leadingBytes != 0 {
      leadingBytes := 4 - leadingBytes;
      if leadingBytes > numBytes {
        leadingBytes := numBytes;
      }
      CopyInsideWord(src, srcIdx, dest, destIdx, leadingBytes);
    }
    if leadingBytes < numBytes {
      BoundaryReached(srcIdx, leadingBytes);
      CopyAligned(src, srcIdx + leadingBytes, dest, destIdx + leadingBytes, numBytes - leadingBytes);
      CopiedAppend(old(dest[..]), destIdx, src, srcIdx, leadingBytes, numBytes - leadingBytes);
    }
  }

  lemma BoundaryReached(srcIdx: nat, leadingBytes: nat)
    requires leadingBytes == if srcIdx % 4 == 0 then 0 else 4 - srcIdx % 4
    ensures (srcIdx + leadingBytes) % 4 == 0
  {
  }

  // -------------------------------------------------------------------------
  // DWordInterleaveWrap

  /** Where byte `p` comes from when the 32-bit words `i` and `j` change places. */
  function SwappedIndex(p: int, i: nat, j: nat): int {
    if 4 * i <= p < 4 * i + 4 then p - 4 * i + 4 * j
    else if 4 * j <= p < 4 * j + 4 then p - 4 * j + 4 * i
    else p
  }

  /** `mem` with its 32-bit words `i` and `j` exchanged. */
  ghost function WordsSwapped(mem: seq<u8>, i: nat, j: nat): (r: seq<u8>)
    requires 4 * i + 4 <= |mem| && 4 * j + 4 <= |mem|
    ensures |r| == |mem|
  {
    seq(|mem|, p requires 0 <= p < |mem| => mem[SwappedIndex(p, i, j)])
  }

  /** Exchanging the two words of qword `q` moves byte `p` of it to `p ^ 4`. */
  lemma WordsSwappedAt(mem: seq<u8>, q: nat, p: nat)
    requires 8 * q + 8 <= |mem| && p < |mem|
    ensures p / 8 == q ==> Xor4(p) < |mem|
    ensures WordsSwapped(mem, 2 * q, 2 * q + 1)[p] == if p / 8 == q then mem[Xor4(p)] else mem[p]
  {
    if p / 8 == q {
      HalfMoved(p, q);
    }
  }

  lemma QwordSwappedAt(before: seq<u8>, after: seq<u8>, q: nat, p: nat)
    requires 8 * q + 8 <= |before| && p < |before| && after == WordsSwapped(before, 2 * q, 2 * q + 1)
    ensures p / 8 == q ==> Xor4(p) < |before|
    ensures after[p] == if p / 8 == q then before[Xor4(p)] else before[p]
  {
    WordsSwappedAt(before, q, p);
  }

  lemma HalfMoved(p: nat, q: nat)
    requires p / 8 == q
    ensures 8 * q <= p < 8 * q + 8 && Xor4(p) == if p < 8 * q + 4 then p + 4 else p - 4
  {
  }

  /** `mem` after the `n` word pairs from `srcIdx` on, wrapping in TMEM, were exchanged one after the other. */
  ghost function Interleaved(mem: seq<u8>, srcIdx: nat, n: nat): (r: seq<u8>)
    requires |mem| == 4096
    ensures |r| == |mem|
  {
    if n == 0 then mem
    else WordsSwapped(Interleaved(mem, srcIdx, n - 1), (srcIdx + 2 * (n - 1)) % 1024, (srcIdx + 2 * (n - 1) + 1) % 1024)
  }

  /** One more pair. */
  lemma InterleavedStep(mem: seq<u8>, srcIdx: nat, n: nat, i: nat, j: nat)
    requires |mem| == 4096 && i == (srcIdx + 2 * n) % 1024 && j == (srcIdx + 2 * n + 1) % 1024
    ensures Interleaved(mem, srcIdx, n + 1) == WordsSwapped(Interleaved(mem, srcIdx, n), i, j)
  {
  }

  /** `p0 = src[i]; src[i] = src[j]; src[j] = p0` on 32-bit words. */
  method SwapWords(mem: array<u8>, i: nat, j: nat)
    requires 4 * i + 4 <= mem.Length && 4 * j + 4 <= mem.Length
    modifies mem
    ensures mem[..] == WordsSwapped(old(mem[..]), i, j)
  {
    var p0 := mem[4 * i..4 * i + 4];
    forall b | 0 <= b < 4 {
      mem[4 * i + b] := mem[4 * j + b];
    }
    forall b | 0 <= b < 4 {
      mem[4 * j + b] := p0[b];
    }
    SameBytes(mem[..], old(mem[..]), i, j);
  }

  lemma SameBytes(after: seq<u8>, before: seq<u8>, i: nat, j: nat)
    requires 4 * i + 4 <= |before| && 4 * j + 4 <= |before| == |after|
    requires forall p :: 0 <= p < |before| ==> after[p] == before[SwappedIndex(p, i, j)]
    ensures after == WordsSwapped(before, i, j)
  {
  }

  /** GLideN64's in-place exchange of the 32-bit halves of consecutive TMEM qwords (srcMask 0x3FF). */
  method DWordInterleaveWrap(src: array<u8>, srcIdx0: nat, numQWords: nat)
    requires src.Length == 4096
    modifies src
    ensures src[..] == Interleaved(old(src[..]), srcIdx0, numQWords)
  {
    hide WordsSwapped, SwappedIndex;
    var srcIdx := srcIdx0;
    for n := 0 to numQWords
      invariant srcIdx == srcIdx0 + 2 * n
      invariant src[..] == Interleaved(old(src[..]), srcIdx0, n)
    {
      var idx0, idx1 := srcIdx % 1024, (srcIdx + 1) % 1024;
      InterleavedStep(old(src[..]), srcIdx0, n, idx0, idx1);
      SwapWords(src, idx0, idx1);
      srcIdx := srcIdx + 2;
    }
  }

  /** On an even index, one more pair is one more qword. */
  lemma InterleavedQword(mem: seq<u8>, q: nat, n: nat, last: nat)
    requires |mem| == 4096 && last == (q + n) % 512
    ensures Interleaved(mem, 2 * q, n + 1) == WordsSwapped(Interleaved(mem, 2 * q, n), 2 * last, 2 * last + 1)
  {
    hide Interleaved, WordsSwapped;
    WrappedPair(q + n, last);
    InterleavedStep(mem, 2 * q, n, 2 * last, 2 * last + 1);
  }

  lemma WrappedPair(q: nat, last: nat)
    requires last == q % 512
    ensures (2 * q) % 1024 == 2 * last && (2 * q + 1) % 1024 == 2 * last + 1
  {
    DivisionUnique(1024, q / 512, 2 * last, (2 * q) / 1024, (2 * q) % 1024);
    DivisionUnique(1024, q / 512, 2 * last + 1, (2 * q + 1) / 1024, (2 * q + 1) % 1024);
  }

  lemma WrappedQword(q: nat, d: nat, n: nat)
    requires q < 512 && n < 512
    ensures q == (d + n) % 512 <==> (q - d) % 512 == n
  {
  }

  /** Until an interleave laps itself, byte `p` of each of the `n` qwords from `q` on comes from `p ^ 4`. */
  lemma InterleavedAt(mem: seq<u8>, q: nat, n: nat, p: nat, k: nat)
    requires |mem| == 4096 && p < 4096 && n <= 512 && k == (p / 8 - q) % 512
    ensures Interleaved(mem, 2 * q, n)[p] == if k < n then mem[Xor4(p)] else mem[p]
  {
    SameQword(p);
    QwordInterleaved(mem, q, n, p, Xor4(p), p / 8, k);
  }

  lemma QwordStep(before: seq<u8>, after: seq<u8>, mem: seq<u8>, q: nat, n: nat, p: nat, x: nat, w: nat, k: nat)
    requires |mem| == 4096 && 0 < n <= 512 && p < 4096 && x == Xor4(p) && p == Xor4(x) && w == p / 8 == x / 8
    requires w < 512 && k == (w - q) % 512 && x < 4096
    requires before == Interleaved(mem, 2 * q, n - 1) && after == Interleaved(mem, 2 * q, n)
    ensures after[p] == if k == n - 1 then before[x] else before[p]
  {
    hide Interleaved, WordsSwapped, Xor4;
    var last := (q + n - 1) % 512;
    InterleavedQword(mem, q, n - 1, last);
    WrappedQword(w, q, n - 1);
    QwordSwappedAt(before, after, last, p);
  }

  /** The same for the mirrored positions `p` and `x` of one qword `w`. */
  lemma {:induction false} QwordInterleaved(mem: seq<u8>, q: nat, n: nat, p: nat, x: nat, w: nat, k: nat)
    requires |mem| == 4096 && n <= 512 && p < 4096 && x == Xor4(p) && p == Xor4(x) && w == p / 8 == x / 8
    requires w < 512 && k == (w - q) % 512
    ensures x < 4096
    ensures Interleaved(mem, 2 * q, n)[p] == if k < n then mem[x] else mem[p]
  {
    if n > 0 {
      QwordInterleaved(mem, q, n - 1, p, x, w, k);
      QwordInterleaved(mem, q, n - 1, x, p, w, k);
      QwordStep(Interleaved(mem, 2 * q, n - 1), Interleaved(mem, 2 * q, n), mem, q, n, p, x, w, k);
    }
  }

  lemma SameQword(p: nat)
    requires p < 4096
    ensures Xor4(p) < 4096 && Xor4(p) / 8 == p / 8 && Xor4(Xor4(p)) == p
  {
  }
}
