/**
 * CalculateDXT, Txl2Words and ReverseDXT of GLideN64/src/Textures.cpp: the 1.11 fixed-point reciprocal of a line
 * length.
 */
module Dxt {
  import opened Arith

  /** 2048 / txl2words, rounded up. */
  function CalculateDXT(txl2words: nat): nat {
    if txl2words == 0 then 1 else (2048 + txl2words - 1) / txl2words
  }

  function Txl2Words(width: nat, size: nat): (w: nat)
    requires size < 4
    ensures w >= 1
  {
    var words := if size == 0 then width / 16 else width * (if size == 1 then 1 else if size == 2 then 2 else 4) / 8;
    if words < 1 then 1 else words
  }

  /** The bits of a texel of a size code. */
  function TexelBits(size: nat): nat {
    if size == 0 then 4 else if size == 1 then 8 else if size == 2 then 16 else 32
  }

  /** The whole 64-bit words that a line of texels fills, but at least one. */
  lemma WordsOfLine(width: nat, size: nat)
    requires size < 4
    ensures var words, bits := Txl2Words(width, size), width * TexelBits(size);
      bits < 64 * (words + 1) && (64 * words <= bits || words == 1)
  {
    var n := width * TexelBits(size) / 4;
    assert size == 1 ==> n == 2 * width;
    assert size == 2 ==> n == 4 * width;
    assert size == 3 ==> n == 8 * width;
  }

  // -------------------------------------------------------------------------
  // Division by a variable, as bounds on products

  lemma QuotientIs(x: nat, m: nat, q: nat)
    requires m > 0 && q * m <= x < q * m + m
    ensures x / m == q
  {
    DivisionUnique(m, q, x - q * m, x / m, x % m);
  }

  lemma QuotientBounds(x: nat, m: nat)
    requires m > 0
    ensures (x / m) * m <= x < (x / m) * m + m
  {
  }

  /** `a <= x / m` for naturals. */
  lemma AtMostQuotient(a: nat, x: nat, m: nat)
    requires m > 0
    ensures a <= x / m <==> a * m <= x
  {
    QuotientBounds(x, m);
    if a <= x / m {
      MulMonotone(m, a, x / m);
    } else {
      MulMonotone(m, x / m + 1, a);
    }
  }

  /** The dxt of a line is the least number of 2048ths that its words together bring to a whole line. */
  lemma DxtRoundsUp(words: nat)
    ensures var dxt := CalculateDXT(words);
      if words == 0 then dxt == 1 else (dxt - 1) * words < 2048 <= dxt * words
  {
    if words > 0 {
      QuotientBounds(2047 + words, words);
      var dxt := CalculateDXT(words);
      assert (dxt - 1) * words == dxt * words - words;
    }
  }

  // -------------------------------------------------------------------------
  // ReverseDXT

  /** The line lengths with a given dxt are an interval. */
  lemma LengthsOfDxt(val: nat, w: nat)
    requires val > 1 && w >= 1
    ensures CalculateDXT(w) == val <==> 2047 / val < w <= 2047 / (val - 1)
  {
    // ceil(2048 / w) == val  <=>  val * w <= 2047 + w < val * w + w  <=>  (val - 1) * w <= 2047 < val * w
    var x := 2047 + w;
    assert (val - 1) * w == val * w - w;
    if CalculateDXT(w) == val {
      QuotientBounds(x, w);
    } else if (val - 1) * w <= 2047 < val * w {
      QuotientIs(x, w, val);
    }
    AtMostQuotient(w, 2047, val - 1);
    AtMostQuotient(w, 2047, val);
  }

  /** `val` is the dxt of some line length. */
  ghost predicate IsDxt(val: nat) {
    exists w :: w >= 1 && CalculateDXT(w) == val
  }

  /**
   * Recovers a line length from a dxt value. For the dxt of any line of at most 2047 words it finds a line length with
   * that dxt, and the texture's own line length if that has it. (The parameter `lrs` of the code is never read.)
   */
  method ReverseDXT(val: nat, width: nat, size: nat) returns (words: int)
    requires val > 1 && size < 4
    ensures val <= 2048 && IsDxt(val) ==> words >= 1 && CalculateDXT(words) == val
    ensures val <= 2048 && CalculateDXT(Txl2Words(width, size)) == val ==> words == Txl2Words(width, size)
    ensures val <= 2048 && IsDxt(val) && CalculateDXT(Txl2Words(width, size)) != val ==> IsMiddle(val, words)
    ensures val <= 2048 && !IsDxt(val) ==> words == 2047 / val
    ensures val > 2048 ==> words == 0
  {
    hide *;
    ghost var own := Txl2Words(width, size);
    if val == 0x800 {
      Chosen(val, 1, 1, own, 1);
      return 1;
    }
    var low := 2047 / val;
    NextToInterval(val);
    if CalculateDXT(low) > val {
      low := low + 1;
    }
    var high := 2047 / (val - 1);
    words := Choose(low, high, Txl2Words(width, size));
    if val < 2048 {
      Chosen(val, low, high, own, words);
    }
  }

  /** What the choice between the ends of the interval means. */
  lemma Chosen(val: nat, low: nat, high: nat, own: nat, words: nat)
    requires 1 < val <= 2048 && own >= 1 && low == 2047 / val + 1 && high == 2047 / (val - 1)
    requires low <= high ==> low <= words <= high
    requires if low <= own <= high then words == own else words == (low + high) / 2
    ensures IsDxt(val) ==> words >= 1 && CalculateDXT(words) == val
    ensures CalculateDXT(own) == val ==> words == own
    ensures IsDxt(val) && CalculateDXT(own) != val ==> IsMiddle(val, words)
    ensures !IsDxt(val) ==> words == 2047 / val
  {
    hide CalculateDXT, IsMiddle, IsDxt;
    Interval(val);
    IntervalMiddle(val, own, words);
  }

  /** The end of ReverseDXT: the only candidate, else the texture's own length if it is one, else the middle. */
  method Choose(low: nat, high: nat, own: nat) returns (words: nat)
    ensures low <= high ==> low <= words <= high
    ensures low <= own <= high ==> words == own
    ensures !(low <= own <= high) ==> words == (low + high) / 2
  {
    if low == high {
      return low;
    }
    for i := low to if low <= high then high + 1 else low
      invariant !(low <= own < i)
    {
      if own == i {
        return i;
      }
    }
    return (low + high) / 2;
  }

  /** The length in front of the interval has a larger dxt; no line has a dxt above 2048. */
  lemma NextToInterval(val: nat)
    requires val > 1
    ensures val < 2048 ==> CalculateDXT(2047 / val) > val
    ensures val > 2048 ==> 2047 / val == 2047 / (val - 1) == 0 && CalculateDXT(0) <= val
  {
    if val < 2048 {
      var low := 2047 / val;
      AtMostQuotient(1, 2047, val);
      AtMostQuotient(low, 2047, val);
      assert val * low == low * val && (val + 1) * low == val * low + low;
      AtMostQuotient(val + 1, 2047 + low, low);
    }
  }

  lemma Interval(val: nat)
    requires val > 1
    ensures IsDxt(val) <==> 2047 / val < 2047 / (val - 1)
  {
    if w :| w >= 1 && CalculateDXT(w) == val {
      LengthsOfDxt(val, w);
    }
    if 2047 / val < 2047 / (val - 1) {
      LengthsOfDxt(val, 2047 / val + 1);
      assert CalculateDXT(2047 / val + 1) == val;
    }
  }

  /** Among the line lengths with a dxt, as many are shorter as are longer, or one fewer. */
  ghost predicate IsMiddle(val: nat, words: int) {
    exists low: nat, high: nat :: 0 <= 2 * words - low - high + 1 <= 1 && AreLengths(val, low, high)
  }

  /** Exactly the lengths from `low` to `high` have the dxt. */
  ghost predicate AreLengths(val: nat, low: nat, high: nat) {
    1 <= low <= high && forall w :: w >= 1 ==> (CalculateDXT(w) == val <==> low <= w <= high)
  }

  /** What is chosen between the ends of the interval. */
  lemma IntervalMiddle(val: nat, own: nat, words: nat)
    requires 1 < val <= 2048 && own >= 1
    ensures var low, high := 2047 / val + 1, 2047 / (val - 1);
      && (low <= words <= high ==> CalculateDXT(words) == val)
      && (CalculateDXT(own) == val <==> low <= own <= high)
      && (low <= high && words == (low + high) / 2 ==> IsMiddle(val, words))
      && (low > high ==> (low + high) / 2 == 2047 / val)
  {
    var low, high := 2047 / val + 1, 2047 / (val - 1);
    forall w | w >= 1
      ensures CalculateDXT(w) == val <==> low <= w <= high
    {
      LengthsOfDxt(val, w);
    }
    QuotientOrder(2047, val);
    assert low <= high ==> AreLengths(val, low, high);
  }

  lemma QuotientOrder(x: nat, val: nat)
    requires val > 1
    ensures x / val <= x / (val - 1)
  {
    AtMostQuotient(x / val, x, val - 1);
    QuotientBounds(x, val);
    assert x / val * val == x / val * (val - 1) + x / val;
  }

  /** Lines of 1 to 2047 words have a dxt that ReverseDXT takes: all of them round-trip. */
  lemma LineHasDxt(w: nat)
    requires 1 <= w < 2048
    ensures 1 < CalculateDXT(w) <= 2048 && IsDxt(CalculateDXT(w))
  {
    AtMostQuotient(2, 2047 + w, w);
    AtMostQuotient(2049, 2047 + w, w);
    assert 2049 * w == 2048 * w + w;
  }
}
