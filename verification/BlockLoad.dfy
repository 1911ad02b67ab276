/** The dxt loop of gDPLoadBlock (GLideN64/src/gDP.cpp) and the TMEM a block load leaves. */
module BlockLoad {
  import opened Arith
  import opened Convert
  import opened Machine

  /** TMEM after each of the first `n` qwords from `t` on that `odd` selects had its 32-bit halves exchanged. */
  ghost function LinesSwapped(mem: seq<u8>, t: nat, odd: nat -> bool, n: nat): (r: seq<u8>)
    requires |mem| == 4096
    ensures |r| == 4096
  {
    if n == 0 then mem
    else
      var before := LinesSwapped(mem, t, odd, n - 1);
      var q := (t + n - 1) % 512;
      if odd(n - 1) then WordsSwapped(before, 2 * q, 2 * q + 1) else before
  }

  /** A run of `line` selected qwords, from qword `k` up to qword `n`, is one interleave. */
  lemma {:induction false} RunIsInterleave(mem: seq<u8>, t: nat, odd: nat -> bool, k: nat, line: nat, n: nat, s: nat)
    requires |mem| == 4096 && n == k + line && s == t + k && forall i :: k <= i < n ==> odd(i)
    ensures LinesSwapped(mem, t, odd, n) == Interleaved(LinesSwapped(mem, t, odd, k), 2 * s, line)
  {
    if line > 0 {
      RunIsInterleave(mem, t, odd, k, line - 1, n - 1, s);
      LastOfRun(LinesSwapped(mem, t, odd, k), mem, t, odd, line, n, s);
    }
  }

  lemma LastOfRun(start: seq<u8>, mem: seq<u8>, t: nat, odd: nat -> bool, line: nat, n: nat, s: nat)
    requires |mem| == |start| == 4096 && 0 < line && 0 < n && odd(n - 1) && s + line == t + n
    requires LinesSwapped(mem, t, odd, n - 1) == Interleaved(start, 2 * s, line - 1)
    ensures LinesSwapped(mem, t, odd, n) == Interleaved(start, 2 * s, line)
  {
    hide Interleaved, WordsSwapped;
    InterleavedQword(start, s, line - 1, (t + n - 1) % 512);
  }

  /** The code's 32-bit dxt counter when it reaches qword `k`. */
  function Counter(dxt: nat, k: nat): nat {
    if k == 0 then 0 else (Counter(dxt, k - 1) + dxt) % U32_RANGE
  }

  /** `dxtCounter & 0x800` */
  predicate Bit11(counter: nat) {
    (counter / 0x800) % 2 == 1
  }

  /** The qwords the counter puts on odd lines. */
  function OddLines(dxt: nat): nat -> bool {
    (k: nat) => Bit11(Counter(dxt, k))
  }

  /** A run of qwords that are not selected changes nothing. */
  lemma {:induction false} SkippedRun(mem: seq<u8>, t: nat, odd: nat -> bool, k: nat, n: nat)
    requires |mem| == 4096 && k <= n && forall i :: k <= i < n ==> !odd(i)
    ensures LinesSwapped(mem, t, odd, n) == LinesSwapped(mem, t, odd, k)
  {
    if k < n {
      SkippedRun(mem, t, odd, k, n - 1);
    }
  }

  /**
   * The two inner loops: pass over the qwords from `k` on whose bit 11 stays as it is at `k`, until it changes
   * or no qword is left.
   */
  method PassLine(dxt: nat, bit: bool, ghost k: nat, qwords0: nat, dxtCounter0: nat)
    returns (count: nat, qwords: nat, dxtCounter: nat)
    requires qwords0 > 0 && dxtCounter0 == Counter(dxt, k) && Bit11(dxtCounter0) == bit
    ensures count > 0 && count + qwords == qwords0
    ensures forall i :: k <= i < k + count ==> OddLines(dxt)(i) == bit
    ensures qwords > 0 ==> dxtCounter == Counter(dxt, k + count) && Bit11(dxtCounter) != bit
  {
    hide Bit11;
    count, qwords, dxtCounter := 0, qwords0, dxtCounter0;
    while true
      invariant count + qwords == qwords0 && qwords > 0
      invariant dxtCounter == Counter(dxt, k + count) && Bit11(dxtCounter) == bit
      invariant forall i :: k <= i < k + count ==> OddLines(dxt)(i) == bit
      decreases qwords
    {
      count := count + 1;
      qwords := qwords - 1;
      if qwords == 0 {
        break;
      }
      dxtCounter := (dxtCounter + dxt) % U32_RANGE;
      if Bit11(dxtCounter) != bit {
        break;
      }
    }
  }

  /**
   * One round of the dxt loop: an even run is skipped, the odd run after it is interleaved; it may stop inside either.
   */
  method PassTwoLines(tmem: array<u8>, tmemAddr0: nat, dxt: nat, qwords0: nat, dxtCounter0: nat,
                      ghost mem: seq<u8>, ghost t: nat, ghost k: nat)
    returns (tmemAddr: nat, qwords: nat, dxtCounter: nat, ghost n: nat)
    requires tmem.Length == |mem| == 4096 && qwords0 > 0 && tmemAddr0 == t + k
    requires dxtCounter0 == Counter(dxt, k) && !Bit11(dxtCounter0)
    requires tmem[..] == LinesSwapped(mem, t, OddLines(dxt), k)
    modifies tmem
    ensures k < n && n + qwords == k + qwords0 && tmemAddr == t + n
    ensures qwords > 0 ==> dxtCounter == Counter(dxt, n) && !Bit11(dxtCounter)
    ensures tmem[..] == LinesSwapped(mem, t, OddLines(dxt), n)
  {
    hide LinesSwapped, Interleaved, Counter, Bit11;
    var count;
    count, qwords, dxtCounter := PassLine(dxt, false, k, qwords0, dxtCounter0);
    n := k + count;
    SkippedRun(mem, t, OddLines(dxt), k, n);
    tmemAddr := tmemAddr0 + count;
    if qwords > 0 {
      ghost var start := n;
      count, qwords, dxtCounter := PassLine(dxt, true, start, qwords, dxtCounter);
      n := start + count;
      DWordInterleaveWrap(tmem, 2 * tmemAddr, count);
      RunIsInterleave(mem, t, OddLines(dxt), start, count, n, tmemAddr);
      tmemAddr := tmemAddr + count;
    }
  }

  /** The dxt loop of gDPLoadBlock over `qwords0` qwords. */
  method InterleaveOddLines(tmem: array<u8>, tmemAddr0: nat, dxt: nat, qwords0: nat)
    requires tmem.Length == 4096 && qwords0 > 0
    modifies tmem
    ensures tmem[..] == LinesSwapped(old(tmem[..]), tmemAddr0, OddLines(dxt), qwords0)
  {
    var tmemAddr, dxtCounter, qwords := tmemAddr0, 0, qwords0;
    ghost var k := 0;
    while qwords > 0
      invariant k + qwords == qwords0 && tmemAddr == tmemAddr0 + k
      invariant qwords > 0 ==> dxtCounter == Counter(dxt, k) && !Bit11(dxtCounter)
      invariant tmem[..] == LinesSwapped(old(tmem[..]), tmemAddr0, OddLines(dxt), k)
      decreases qwords
    {
      tmemAddr, qwords, dxtCounter, k :=
        PassTwoLines(tmem, tmemAddr, dxt, qwords, dxtCounter, old(tmem[..]), tmemAddr0, k);
    }
  }

  /** The counter is the product modulo 2^32. */
  lemma {:induction false} CounterIsProduct(dxt: nat, k: nat)
    ensures Counter(dxt, k) == (k * dxt) % U32_RANGE
  {
    if k > 0 {
      CounterIsProduct(dxt, k - 1);
      CounterStep((k - 1) * dxt, dxt);
      assert k * dxt == (k - 1) * dxt + dxt;
    }
  }

  lemma CounterStep(x: nat, dxt: nat)
    ensures (x % U32_RANGE + dxt) % U32_RANGE == (x + dxt) % U32_RANGE
  {
    var m := U32_RANGE;
    var y := x % m + dxt;
    DivisionUnique(m, x / m + y / m, y % m, (x + dxt) / m, (x + dxt) % m);
  }

  /** Wrapping at 2^32 does not reach bit 11: a qword's line is odd exactly when bit 11 of `k * dxt` is set. */
  lemma OddLineIsBit11(dxt: nat, k: nat)
    ensures OddLines(dxt)(k) <==> (k * dxt / 0x800) % 2 == 1
  {
    CounterIsProduct(dxt, k);
    LowBits(k * dxt, k * dxt / U32_RANGE, k * dxt % U32_RANGE);
  }

  lemma LowBits(x: nat, q: nat, r: nat)
    requires x == q * U32_RANGE + r
    ensures (x / 0x800) % 2 == (r / 0x800) % 2
  {
    DivisionUnique(0x800, q * 0x20_0000 + r / 0x800, r % 0x800, x / 0x800, x % 0x800);
    assert (q * 0x20_0000 + r / 0x800) % 2 == (r / 0x800) % 2 by {
      var h := r / 0x800;
      DivisionUnique(2, q * 0x10_0000 + h / 2, h % 2, (q * 0x20_0000 + h) / 2, (q * 0x20_0000 + h) % 2);
    }
  }
}
