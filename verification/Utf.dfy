/** The transcoders of libretro-common/encodings/encoding_utf.c. */
module Utf {
  import opened Bits
  import opened Machine

  // -------------------------------------------------------------------------
  // The two encodings as the standards define them

  /** A code point that is not half of a surrogate pair. */
  predicate Scalar(p: nat) {
    p < 0x11_0000 && !(0xD800 <= p < 0xE000)
  }

  predicate Scalars(points: seq<nat>) {
    forall i :: 0 <= i < |points| ==> Scalar(points[i])
  }

  /** Section 2.1 of RFC 2781. */
  function Units(p: nat): seq<u16>
    requires Scalar(p)
  {
    if p < 0x1_0000 then [p] else [0xD800 + (p - 0x1_0000) / 0x400, 0xDC00 + (p - 0x1_0000) % 0x400]
  }

  /** Section 3 of RFC 3629. */
  function Bytes(p: nat): seq<u8>
    requires Scalar(p)
  {
    if p < 0x80 then [p as u8]
    else if p < 0x800 then [(0xC0 + p / 0x40) as u8, (0x80 + p % 0x40) as u8]
    else if p < 0x1_0000 then
      [(0xE0 + p / 0x1000) as u8, (0x80 + p / 0x40 % 0x40) as u8, (0x80 + p % 0x40) as u8]
    else
      [(0xF0 + p / 0x4_0000) as u8, (0x80 + p / 0x1000 % 0x40) as u8, (0x80 + p / 0x40 % 0x40) as u8,
       (0x80 + p % 0x40) as u8]
  }

  function Utf16(points: seq<nat>): seq<u16>
    requires Scalars(points)
  {
    if points == [] then [] else Units(points[0]) + Utf16(points[1..])
  }

  function Utf8(points: seq<nat>): seq<u8>
    requires Scalars(points)
  {
    if points == [] then [] else Bytes(points[0]) + Utf8(points[1..])
  }

  lemma {:induction false} Utf8Append(a: seq<nat>, b: seq<nat>)
    requires Scalars(a) && Scalars(b)
    ensures Scalars(a + b) && Utf8(a + b) == Utf8(a) + Utf8(b)
  {
    if a == [] {
      assert a + b == b;
    } else {
      assert (a + b)[1..] == a[1..] + b;
      Utf8Append(a[1..], b);
    }
  }

  // -------------------------------------------------------------------------
  // Reading UTF-16

  /** What the first units of a text stand for. */
  datatype First = Bad | Good(value: nat, rest: seq<u16>)

  function FirstOf(text: seq<u16>): (f: First)
    requires text != []
    ensures f.Good? ==> Scalar(f.value) && |f.rest| < |text|
  {
    var unit: nat := text[0];
    if unit < 0xD800 || unit >= 0xE000 then Good(unit, text[1..])
    else if unit >= 0xDC00 || |text| == 1 then Bad
    else
      var second: nat := text[1];
      if second < 0xDC00 || second >= 0xE000 then Bad
      else Good((unit - 0xD800) * 0x400 + (second - 0xDC00) + 0x1_0000, text[2..])
  }

  /** The code points in front of the first unit that has no place in UTF-16. */
  function Points(text: seq<u16>): (points: seq<nat>)
    ensures Scalars(points)
  {
    if text == [] then []
    else match FirstOf(text)
      case Bad => []
      case Good(value, rest) => [value] + Points(rest)
  }

  /** No unit is out of place. */
  predicate WellFormed(text: seq<u16>) {
    text == [] || (var f := FirstOf(text); f.Good? && WellFormed(f.rest))
  }

  lemma FirstOfUnits(p: nat, rest: seq<u16>)
    requires Scalar(p)
    ensures FirstOf(Units(p) + rest) == Good(p, rest)
  {
    assert (Units(p) + rest)[|Units(p)|..] == rest;
  }

  lemma UnitsOfFirst(text: seq<u16>)
    requires text != [] && FirstOf(text).Good?
    ensures Units(FirstOf(text).value) + FirstOf(text).rest == text
  {
  }

  /** What is read from an encoded text are its code points. */
  lemma {:induction false} PointsOfUtf16(points: seq<nat>)
    requires Scalars(points)
    ensures WellFormed(Utf16(points)) && Points(Utf16(points)) == points
  {
    if points != [] {
      FirstOfUnits(points[0], Utf16(points[1..]));
      PointsOfUtf16(points[1..]);
    }
  }

  /** And a well-formed text is the encoding of what is read. */
  lemma {:induction false} Utf16OfPoints(text: seq<u16>)
    requires WellFormed(text)
    ensures Utf16(Points(text)) == text
  {
    if text != [] {
      UnitsOfFirst(text);
      Utf16OfPoints(FirstOf(text).rest);
      assert Points(text)[1..] == Points(FirstOf(text).rest);
    }
  }

  /** The texts without a misplaced unit are exactly the encodings. */
  lemma WellFormedExactly(text: seq<u16>)
    ensures WellFormed(text) <==> exists points :: Scalars(points) && Utf16(points) == text
  {
    if WellFormed(text) {
      Utf16OfPoints(text);
    }
    forall points | Scalars(points) && Utf16(points) == text
      ensures WellFormed(text)
    {
      PointsOfUtf16(points);
    }
  }

  // -------------------------------------------------------------------------
  // utf16_conv_utf8

  lemma PowerValues()
    ensures Pow2(6) == 0x40 && Pow2(11) == 0x800 && Pow2(12) == 0x1000
    ensures Pow2(16) == 0x1_0000 && Pow2(18) == 0x4_0000 && Pow2(21) == 0x20_0000
  {
    assert Pow2(3) == 8;
    assert Pow2(9) == 0x200;
    assert Pow2(13) == 0x2000;
    assert Pow2(15) == 0x8000;
    assert Pow2(19) == 0x8_0000;
  }

  function Limit(numAdds: nat): nat
    requires 1 <= numAdds <= 5
  {
    [0xC0, 0xE0, 0xF0, 0xF8, 0xFC][numAdds - 1]
  }

  /** The shifts of the encoder take a code point to its bytes. */
  lemma ShiftedBytes(value: nat, numAdds: nat)
    requires Scalar(value) && value >= 0x80 && 1 <= numAdds && numAdds + 1 == |Bytes(value)|
    ensures Limit(numAdds) + value / Pow2(6 * numAdds) == Bytes(value)[0] as nat
    ensures forall k :: 0 <= k < numAdds ==> 0x80 + value / Pow2(6 * k) % 0x40 == Bytes(value)[numAdds - k] as nat
  {
    PowerValues();
    assert Pow2(0) == 1;
    assert 6 * 1 == 6 && 6 * 2 == 12 && 6 * 3 == 18;
    assert 0x80 + value / Pow2(6 * 0) % 0x40 == Bytes(value)[numAdds] as nat;
    if numAdds > 1 {
      assert 0x80 + value / Pow2(6 * 1) % 0x40 == Bytes(value)[numAdds - 1] as nat;
    }
    if numAdds > 2 {
      assert 0x80 + value / Pow2(6 * 2) % 0x40 == Bytes(value)[numAdds - 2] as nat;
    }
  }

  /** How many bytes follow the first one of a code point. */
  method CountAdds(value: nat) returns (numAdds: nat)
    requires Scalar(value) && value >= 0x80
    ensures numAdds + 1 == |Bytes(value)| && 1 <= numAdds <= 3
  {
    PowerValues();
    numAdds := 1;
    while numAdds < 5 && value >= Pow2(numAdds * 5 + 6)
      invariant 1 <= numAdds <= 3
      invariant numAdds + 1 <= |Bytes(value)|
    {
      assert numAdds == 1 || numAdds == 2 || numAdds == 3;
      numAdds := numAdds + 1;
    }
  }

  /** Writes a byte, or only counts it if there is no output. */
  method Put(out: array?<u8>, outPos: nat, byte: nat) returns (next: nat)
    requires byte < 0x100 && (out != null ==> outPos < out.Length)
    modifies if out == null then {} else {out}
    ensures next == outPos + 1
    ensures out != null ==> out[..] == old(out[..])[outPos := byte as u8]
  {
    if out != null {
      out[outPos] := byte as u8;
    }
    next := outPos + 1;
  }

  /** The output with `bytes` from `pos` on. */
  function Written(out: seq<u8>, pos: nat, bytes: seq<u8>): seq<u8>
    requires pos + |bytes| <= |out|
  {
    out[..pos] + bytes + out[pos + |bytes|..]
  }

  lemma WrittenOneMore(out: seq<u8>, pos: nat, bytes: seq<u8>, byte: u8)
    requires pos + |bytes| + 1 <= |out|
    ensures Written(out, pos, bytes)[pos + |bytes| := byte] == Written(out, pos, bytes + [byte])
  {
  }

  /** Writes byte `m` of `bytes` behind those before it. */
  method PutByte(out: array?<u8>, outPos: nat, byte: nat, ghost start: nat, ghost bytes: seq<u8>, ghost m: nat,
                 ghost out0: seq<u8>)
    returns (next: nat)
    requires m < |bytes| && byte == bytes[m] as nat && outPos == start + m
    requires out != null ==> start + |bytes| <= out.Length == |out0| && out[..] == Written(out0, start, bytes[..m])
    modifies if out == null then {} else {out}
    ensures next == outPos + 1
    ensures out != null ==> out[..] == Written(out0, start, bytes[..m + 1])
  {
    if out != null {
      WrittenOneMore(out0, start, bytes[..m], bytes[m]);
      assert bytes[..m + 1] == bytes[..m] + [bytes[m]];
    }
    next := Put(out, outPos, byte);
  }

  /** The bytes of a code point beyond ASCII. */
  method PutPoint(out: array?<u8>, outPos0: nat, value: nat) returns (outPos: nat)
    requires Scalar(value) && value >= 0x80
    requires out != null ==> outPos0 + |Bytes(value)| <= out.Length
    modifies if out == null then {} else {out}
    ensures outPos == outPos0 + |Bytes(value)|
    ensures out != null ==> out[..] == Written(old(out[..]), outPos0, Bytes(value))
  {
    ghost var bytes, out0 := Bytes(value), if out == null then [] else out[..];
    var numAdds := CountAdds(value);
    ghost var total := numAdds;
    ShiftedBytes(value, numAdds);
    outPos := PutByte(out, outPos0, Limit(numAdds) + value / Pow2(6 * numAdds), outPos0, bytes, 0, out0);
    while numAdds > 0
      invariant 0 <= numAdds <= total
      invariant outPos == outPos0 + 1 + total - numAdds
      invariant out != null ==> out[..] == Written(out0, outPos0, bytes[..1 + total - numAdds])
    {
      numAdds := numAdds - 1;
      outPos := PutByte(out, outPos, 0x80 + value / Pow2(6 * numAdds) % 0x40, outPos0, bytes, total - numAdds, out0);
    }
    assert bytes[..total + 1] == bytes;
  }

  /** The next code point of a text, if it has its place there. */
  method NextPoint(text: seq<u16>, pos: nat) returns (ok: bool, value: nat, next: nat)
    requires pos < |text|
    ensures ok <==> FirstOf(text[pos..]).Good?
    ensures ok ==> pos < next <= |text| && FirstOf(text[pos..]) == Good(value, text[next..])
  {
    value, next := text[pos], pos + 1;
    if value >= 0xD800 && value < 0xE000 {
      if value >= 0xDC00 || next == |text| {
        return false, value, next;
      }
      var c2 := text[next];
      next := next + 1;
      if c2 < 0xDC00 || c2 >= 0xE000 {
        return false, value, next;
      }
      value := (value - 0xD800) * 0x400 + (c2 - 0xDC00) + 0x1_0000;
    }
    ok := true;
  }

  /** The bytes of any code point. */
  method PutValue(out: array?<u8>, outPos0: nat, value: nat) returns (outPos: nat)
    requires Scalar(value)
    requires out != null ==> outPos0 + |Bytes(value)| <= out.Length
    modifies if out == null then {} else {out}
    ensures outPos == outPos0 + |Bytes(value)|
    ensures out != null ==> out[..] == Written(old(out[..]), outPos0, Bytes(value))
  {
    if value < 0x80 {
      outPos := Put(out, outPos0, value);
    } else {
      outPos := PutPoint(out, outPos0, value);
    }
  }

  lemma WrittenTwice(out: seq<u8>, a: seq<u8>, b: seq<u8>)
    requires |a| + |b| <= |out|
    ensures Written(Written(out, 0, a), |a|, b) == Written(out, 0, a + b)
  {
  }

  /** One step of the conversion, in terms of what is done and what is to do. */
  lemma ConvertStep(text: seq<u16>, done: seq<nat>, rest: seq<u16>, value: nat, rest': seq<u16>)
    requires Scalars(done) && rest != [] && FirstOf(rest) == Good(value, rest')
    requires Points(text) == done + Points(rest)
    ensures Scalars(done + [value]) && Points(text) == done + [value] + Points(rest')
    ensures Utf8(done + [value]) == Utf8(done) + Bytes(value)
    ensures |Utf8(done + [value])| <= |Utf8(Points(text))|
  {
    hide Bytes, FirstOf;
    assert done + ([value] + Points(rest')) == done + [value] + Points(rest');
    Utf8Append(done, [value]);
    assert Utf8([value]) == Bytes(value) + [];
    Utf8Append(done + [value], Points(rest'));
  }

  /**
   * utf16_conv_utf8: succeeds on well-formed text only, and delivers the UTF-8 of the code points in front of
   * the first misplaced unit; without an output it just tells their length.
   */
  method Utf16ToUtf8(out: array?<u8>, text: seq<u16>) returns (ok: bool, outChars: nat)
    requires out != null ==> |Utf8(Points(text))| <= out.Length
    modifies if out == null then {} else {out}
    ensures ok <==> WellFormed(text)
    ensures outChars == |Utf8(Points(text))|
    ensures out != null ==> out[..] == Written(old(out[..]), 0, Utf8(Points(text)))
  {
    outChars := 0;
    var pos := 0;
    ghost var done: seq<nat> := [];
    while pos < |text|
      invariant 0 <= pos <= |text|
      invariant Scalars(done) && Points(text) == done + Points(text[pos..])
      invariant WellFormed(text) <==> WellFormed(text[pos..])
      invariant outChars == |Utf8(done)|
      invariant out != null ==> outChars <= out.Length && out[..] == Written(old(out[..]), 0, Utf8(done))
      decreases |text| - pos
    {
      var good, value, next := NextPoint(text, pos);
      if !good {
        assert Points(text) == done;
        return false, outChars;
      }
      ConvertStep(text, done, text[pos..], value, text[next..]);
      if out != null {
        WrittenTwice(old(out[..]), Utf8(done), Bytes(value));
      }
      outChars := PutValue(out, outChars, value);
      done, pos := done + [value], next;
    }
    assert Points(text) == done;
    ok := true;
  }

  // -------------------------------------------------------------------------
  // Reading UTF-8

  /** The ones at the top of a byte. */
  function Ones(byte: nat): nat
    requires byte < 0x100
  {
    if byte < 0x80 then 0 else 1 + Ones(byte * 2 - 0x100)
  }

  lemma OnesExactly(byte: nat)
    requires byte < 0x100
    ensures Ones(byte) == (if byte < 0x80 then 0 else if byte < 0xC0 then 1 else if byte < 0xE0 then 2
                           else if byte < 0xF0 then 3 else if byte < 0xF8 then 4 else if byte < 0xFC then 5
                           else if byte < 0xFE then 6 else if byte < 0xFF then 7 else 8)
  {
    assert Ones(0) == 0;
    var b1 := byte * 2 - 0x100;
    if byte >= 0x80 && b1 >= 0x80 {
      var b2 := b1 * 2 - 0x100;
      if b2 >= 0x80 && b2 * 2 - 0x100 >= 0x80 {
        var b4 := (b2 * 2 - 0x100) * 2 - 0x100;
        if b4 >= 0x80 && b4 * 2 - 0x100 >= 0x80 {
          var b6 := (b4 * 2 - 0x100) * 2 - 0x100;
          assert b6 >= 0x80 ==> Ones(b6 * 2 - 0x100) <= 1;
        }
      }
    }
  }

  /** leading_ones */
  method LeadingOnes(byte: u8) returns (ones: nat)
    ensures ones == Ones(byte as nat)
  {
    var c := byte as nat;
    ones := 0;
    while c >= 0x80
      invariant c < 0x100
      invariant ones + Ones(c) == Ones(byte as nat)
      decreases c
    {
      ones, c := ones + 1, c * 2 % 0x100;
    }
  }

  /** Six bits of each byte behind the bits `c`. */
  function Horner(c: nat, tail: seq<u8>): nat {
    if tail == [] then c else Horner(c, tail[..|tail| - 1]) * 0x40 + tail[|tail| - 1] as nat % 0x40
  }

  /** What the first bytes of a text stand for. */
  datatype Lead = Stop | Point(value: nat, rest: seq<u8>)

  function LeadOf(text: seq<u8>): (l: Lead)
    requires text != []
    ensures l.Point? ==> |l.rest| < |text|
  {
    var first := text[0] as nat;
    var ones := Ones(first);
    var extra := if ones == 0 then 0 else ones - 1;
    if ones > 6 || ones == 1 || 1 + extra > |text| then Stop
    else Point(Horner(first % Pow2(7 - ones), text[1..1 + extra]), text[1 + extra..])
  }

  /** At most `max` code points of a text, up to the first byte that does not start one or starts one cut short. */
  function Decoded(text: seq<u8>, max: nat): (points: seq<nat>)
    ensures |points| <= max
  {
    if text == [] || max == 0 then []
    else match LeadOf(text)
      case Stop => []
      case Point(value, rest) => [value] + Decoded(rest, max - 1)
  }

  /** Reading stops at a byte that starts no code point, 10xxxxxx or 1111111x, and where the text ends too early. */
  lemma StopsExactly(text: seq<u8>)
    requires text != []
    ensures var first := text[0] as nat;
      LeadOf(text) == Stop <==>
        0x80 <= first < 0xC0 || first >= 0xFE
        || |text| < (if first < 0x80 then 1 else if first < 0xE0 then 2 else if first < 0xF0 then 3
                     else if first < 0xF8 then 4 else if first < 0xFC then 5 else 6)
  {
    OnesExactly(text[0] as nat);
  }

  lemma Digits(p: nat)
    ensures p == p / 0x40 * 0x40 + p % 0x40
    ensures p / 0x40 == p / 0x1000 * 0x40 + p / 0x40 % 0x40
    ensures p / 0x1000 == p / 0x4_0000 * 0x40 + p / 0x1000 % 0x40
  {
  }

  /** Masking takes the marker bits off again. */
  lemma Unmarked(q: nat)
    ensures q < 0x40 ==> (0x80 + q) % 0x40 == q
    ensures q < 0x20 ==> (0xC0 + q) % 0x20 == q
    ensures q < 0x10 ==> (0xE0 + q) % 0x10 == q
    ensures q < 8 ==> (0xF0 + q) % 8 == q
  {
  }

  predicate Reads(bytes: seq<u8>, p: nat) {
    && bytes != []
    && var n := |bytes|;
       && n <= 4
       && Ones(bytes[0] as nat) == (if n == 1 then 0 else n)
       && Horner(bytes[0] as nat % Pow2(if n == 1 then 7 else 7 - n), bytes[1..]) == p
  }

  lemma ReadsTwo(p: nat)
    requires 0x80 <= p < 0x800
    ensures Reads(Bytes(p), p)
  {
    var bytes := Bytes(p);
    Digits(p);
    Unmarked(p / 0x40);
    Unmarked(p % 0x40);
    OnesExactly(bytes[0] as nat);
    HornerSteps(p / 0x40, bytes[1..]);
  }

  lemma ReadsThree(p: nat)
    requires 0x800 <= p < 0x1_0000 && Scalar(p)
    ensures Reads(Bytes(p), p)
  {
    var bytes := Bytes(p);
    Digits(p);
    Unmarked(p / 0x1000);
    Unmarked(p / 0x40 % 0x40);
    Unmarked(p % 0x40);
    OnesExactly(bytes[0] as nat);
    assert Pow2(4) == 0x10;
    HornerSteps(p / 0x1000, bytes[1..]);
  }

  lemma ReadsFour(p: nat)
    requires 0x1_0000 <= p < 0x11_0000
    ensures Reads(Bytes(p), p)
  {
    var bytes := Bytes(p);
    Digits(p);
    Unmarked(p / 0x4_0000);
    Unmarked(p / 0x1000 % 0x40);
    Unmarked(p / 0x40 % 0x40);
    Unmarked(p % 0x40);
    OnesExactly(bytes[0] as nat);
    assert Pow2(3) == 8;
    HornerSteps(p / 0x4_0000, bytes[1..]);
  }

  /** The bits of the first byte and six of each other one make up the code point. */
  lemma Regathered(p: nat)
    requires Scalar(p)
    ensures Reads(Bytes(p), p)
  {
    if p < 0x80 {
      assert Pow2(7) == 0x80;
    } else if p < 0x800 {
      assert Pow2(5) == 0x20;
      ReadsTwo(p);
    } else if p < 0x1_0000 {
      ReadsThree(p);
    } else {
      ReadsFour(p);
    }
  }

  /** The first code point of its own encoding. */
  lemma LeadOfBytes(p: nat, rest: seq<u8>)
    requires Scalar(p)
    ensures LeadOf(Bytes(p) + rest) == Point(p, rest)
  {
    Regathered(p);
    var text, n := Bytes(p) + rest, |Bytes(p)|;
    assert text[1..n] == Bytes(p)[1..];
    assert text[n..] == rest;
  }

  lemma HornerSteps(c: nat, tail: seq<u8>)
    requires |tail| <= 3
    ensures |tail| == 0 ==> Horner(c, tail) == c
    ensures |tail| == 1 ==> Horner(c, tail) == c * 0x40 + tail[0] as nat % 0x40
    ensures |tail| == 2 ==> Horner(c, tail) == c * 0x1000 + tail[0] as nat % 0x40 * 0x40 + tail[1] as nat % 0x40
    ensures |tail| == 3 ==>
      Horner(c, tail) == c * 0x4_0000 + tail[0] as nat % 0x40 * 0x1000 + tail[1] as nat % 0x40 * 0x40
        + tail[2] as nat % 0x40
  {
    if |tail| > 0 {
      HornerSteps(c, tail[..|tail| - 1]);
    }
  }

  /** Reading gives back what was written, as far as there is room. */
  lemma {:induction false} DecodeUtf8(points: seq<nat>, max: nat)
    requires Scalars(points)
    ensures Decoded(Utf8(points), max) == if max < |points| then points[..max] else points
  {
    hide Bytes, LeadOf;
    if points != [] && max > 0 {
      LeadOfBytes(points[0], Utf8(points[1..]));
      DecodeUtf8(points[1..], max - 1);
    }
  }

  /** From UTF-16 through UTF-8 to UTF-32: the code points of a well-formed text. */
  lemma RoundTrip(points: seq<nat>, max: nat)
    requires Scalars(points) && max >= |points|
    ensures WellFormed(Utf16(points)) && Decoded(Utf8(Points(Utf16(points))), max) == points
  {
    PointsOfUtf16(points);
    DecodeUtf8(points, max);
  }

  // -------------------------------------------------------------------------
  // utf8_conv_utf32

  /** The bits below those already gathered are clear, so or-ing six more in adds them. */
  lemma GatherStep(h: nat, c: nat, b: nat, shift: nat)
    requires c == h * Pow2(shift + 6) && b < 0x40
    ensures c + b * Pow2(shift) == (h * 0x40 + b) * Pow2(shift)
    ensures b * Pow2(shift) < Pow2(shift + 6)
  {
    PowerValues();
    Pow2Sum(6, shift);
    assert h * (0x40 * Pow2(shift)) == h * 0x40 * Pow2(shift);
    assert (h * 0x40 + b) * Pow2(shift) == h * 0x40 * Pow2(shift) + b * Pow2(shift);
    assert b * Pow2(shift) <= 0x3F * Pow2(shift);
  }

  lemma {:induction false} HornerBound(c: nat, bits: nat, tail: seq<u8>)
    requires c < Pow2(bits)
    ensures Horner(c, tail) < Pow2(bits + 6 * |tail|)
  {
    if tail != [] {
      HornerBound(c, bits, tail[..|tail| - 1]);
      PowerValues();
      Pow2Sum(6, bits + 6 * (|tail| - 1));
      assert 6 + (bits + 6 * (|tail| - 1)) == bits + 6 * |tail|;
    }
  }

  /** The code point that starts at `pos` and has `extra` more bytes. */
  method GatherPoint(text: seq<u8>, pos: nat, ones: nat, extra: nat) returns (c: nat)
    requires pos + 1 + extra <= |text| && ones <= 6
    ensures c == Horner(text[pos] as nat % Pow2(7 - ones), text[pos + 1..pos + 1 + extra])
  {
    var first := text[pos] as nat % Pow2(7 - ones);
    c := first * Pow2(6 * extra);
    assert text[pos + 1..pos + 1] == [];
    var i := 0;
    while i < extra
      invariant 0 <= i <= extra
      invariant c == Horner(first, text[pos + 1..pos + 1 + i]) * Pow2(6 * (extra - i))
    {
      var shift := 6 * (extra - 1 - i);
      GatherStep(Horner(first, text[pos + 1..pos + 1 + i]), c, text[pos + 1 + i] as nat % 0x40, shift);
      c := c + text[pos + 1 + i] as nat % 0x40 * Pow2(shift);
      assert text[pos + 1..pos + 1 + i + 1] == text[pos + 1..pos + 1 + i] + [text[pos + 1 + i]];
      assert text[pos + 1..pos + 1 + i + 1][..i] == text[pos + 1..pos + 1 + i];
      i := i + 1;
    }
    assert Pow2(0) == 1;
  }

  /** The code point at `pos`, if one starts there and is not cut short. */
  method ReadPoint(text: seq<u8>, pos: nat) returns (ok: bool, c: nat, next: nat)
    requires pos < |text|
    ensures ok <==> LeadOf(text[pos..]).Point?
    ensures ok ==> pos < next <= |text| && LeadOf(text[pos..]) == Point(c, text[next..]) && c < U32_RANGE
  {
    var ones := LeadingOnes(text[pos]);
    c, next := 0, pos;
    if ones > 6 || ones == 1 {
      return false, c, next;
    }
    var extra := if ones != 0 then ones - 1 else ones;
    if 1 + extra > |text| - pos {
      return false, c, next;
    }
    c := GatherPoint(text, pos, ones, extra);
    HornerBound(text[pos] as nat % Pow2(7 - ones), 7 - ones, text[pos + 1..pos + 1 + extra]);
    PointRange(7 - ones + 6 * extra);
    assert text[pos..][1..1 + extra] == text[pos + 1..pos + 1 + extra];
    ok, next := true, pos + 1 + extra;
  }

  lemma PointRange(bits: nat)
    requires bits <= 31
    ensures Pow2(bits) < U32_RANGE
  {
    PowerValues();
    Pow2Sum(bits, 31 - bits);
    Pow2Sum(15, 16);
    assert Pow2(15) == 0x8000;
    assert Pow2(bits) <= Pow2(bits) * Pow2(31 - bits);
  }

  /** One code point more of what is decoded. */
  lemma DecodeStep(all: seq<nat>, done: seq<nat>, text: seq<u8>, room: nat, c: nat, rest: seq<u8>)
    requires text != [] && room > 0 && LeadOf(text) == Point(c, rest)
    requires all == done + Decoded(text, room)
    ensures all == done + [c] + Decoded(rest, room - 1)
  {
  }

  lemma Appended(out: seq<u32>, done: seq<u32>, out0: seq<u32>, c: u32)
    requires |done| < |out0| && out == done + out0[|done|..]
    ensures out[|done| := c] == done + [c] + out0[|done| + 1..]
  {
  }

  /** With `done` in the output, the rest of the text completes `all`. */
  ghost predicate Underway(text: seq<u8>, room: nat, done: seq<u32>, all: seq<nat>, out: seq<u32>, out0: seq<u32>) {
    && all == done + Decoded(text, room)
    && |done| + room <= |out0|
    && out == done + out0[|done|..]
  }

  lemma NothingDone(text: seq<u8>, room: nat, out: seq<u32>)
    requires room <= |out|
    ensures Underway(text[0..], room, [], Decoded(text, room), out, out)
  {
    assert text[0..] == text;
  }

  lemma AllDone(text: seq<u8>, room: nat, done: seq<u32>, all: seq<nat>, out: seq<u32>, out0: seq<u32>)
    requires Underway(text, room, done, all, out, out0) && (text == [] || room == 0)
    ensures all == done && out == done + out0[|done|..]
  {
  }

  /** Reads one code point into the output. */
  method ConvertPoint(out: array<u32>, ret: nat, room: nat, text: seq<u8>, pos: nat,
                      ghost done: seq<u32>, ghost all: seq<nat>, ghost out0: seq<u32>)
    returns (ok: bool, next: nat, ghost done': seq<u32>)
    requires pos < |text| && room > 0 && ret == |done|
    requires Underway(text[pos..], room, done, all, out[..], out0)
    modifies out
    ensures !ok ==> done' == done && all == done && out[..] == done + out0[ret..]
    ensures ok ==>
      && pos < next <= |text| && |done'| == ret + 1
      && Underway(text[next..], room - 1, done', all, out[..], out0)
  {
    var c;
    ok, c, next := ReadPoint(text, pos);
    done' := done;
    if ok {
      DecodeStep(all, done, text[pos..], room, c, text[next..]);
      Appended(out[..], done, out0, c);
      out[ret], done' := c, done + [c];
    }
  }

  /** utf8_conv_utf32, which reads at most `outChars` code points. */
  method Utf8ToUtf32(out: array<u32>, outChars: nat, text: seq<u8>) returns (ret: nat)
    requires outChars <= out.Length
    modifies out
    ensures ret == |Decoded(text, outChars)|
    ensures out[..] == Decoded(text, outChars) + old(out[..])[ret..]
  {
    var pos, room := 0, outChars;
    ret := 0;
    ghost var all, done: seq<u32>, out0 := Decoded(text, outChars), [], out[..];
    NothingDone(text, outChars, out[..]);
    while pos < |text| && room > 0
      invariant 0 <= pos <= |text| && 0 <= room && ret + room == outChars && ret == |done|
      invariant Underway(text[pos..], room, done, all, out[..], out0)
      decreases |text| - pos
    {
      var ok, next;
      ok, next, done := ConvertPoint(out, ret, room, text, pos, done, all, out0);
      if !ok {
        return;
      }
      pos, room, ret := next, room - 1, ret + 1;
    }
    AllDone(text[pos..], room, done, all, out[..], out0);
  }
}
