/**
 * The 64-bit combine mode: its fields (gDPCombine), EncodeCombineMode, the input tables and the mode bits of
 * CombinerKey.
 */
module CombineMode {
  import opened Combiner

  /** The sixteen selectors of both cycles. */
  datatype Fields = Fields(
    saRGB0: bv64, sbRGB0: bv64, mRGB0: bv64, aRGB0: bv64, saA0: bv64, sbA0: bv64, mA0: bv64, aA0: bv64,
    saRGB1: bv64, sbRGB1: bv64, mRGB1: bv64, aRGB1: bv64, saA1: bv64, sbA1: bv64, mA1: bv64, aA1: bv64)

  /** gDPCombine: how the bit-field struct lays the selectors out. */
  function Decoded(mux: bv64): Fields {
    Fields((mux >> 52) & 0xF, (mux >> 28) & 0xF, (mux >> 47) & 0x1F, (mux >> 15) & 0x7,
           (mux >> 44) & 0x7, (mux >> 12) & 0x7, (mux >> 41) & 0x7, (mux >> 9) & 0x7,
           (mux >> 37) & 0xF, (mux >> 24) & 0xF, (mux >> 32) & 0x1F, (mux >> 6) & 0x7,
           (mux >> 21) & 0x7, (mux >> 3) & 0x7, (mux >> 18) & 0x7, mux & 0x7)
  }

  /** EncodeCombineMode: each selector masked to its width and shifted into one of the two words. */
  function Encoded(f: Fields): bv64 {
    ((((f.saRGB0 & 0xF) << 20) | ((f.mRGB0 & 0x1F) << 15) | ((f.saA0 & 0x7) << 12) | ((f.mA0 & 0x7) << 9) |
      ((f.saRGB1 & 0xF) << 5) | (f.mRGB1 & 0x1F)) << 32) |
    (((f.sbRGB0 & 0xF) << 28) | ((f.aRGB0 & 0x7) << 15) | ((f.sbA0 & 0x7) << 12) | ((f.aA0 & 0x7) << 9) |
     ((f.sbRGB1 & 0xF) << 24) | ((f.saA1 & 0x7) << 21) | ((f.mA1 & 0x7) << 18) | ((f.aRGB1 & 0x7) << 6) |
     ((f.sbA1 & 0x7) << 3) | (f.aA1 & 0x7))
  }

  /** Every selector fits its field. */
  predicate InRange(f: Fields) {
    f.saRGB0 <= 0xF && f.sbRGB0 <= 0xF && f.mRGB0 <= 0x1F && f.aRGB0 <= 0x7 &&
    f.saA0 <= 0x7 && f.sbA0 <= 0x7 && f.mA0 <= 0x7 && f.aA0 <= 0x7 &&
    f.saRGB1 <= 0xF && f.sbRGB1 <= 0xF && f.mRGB1 <= 0x1F && f.aRGB1 <= 0x7 &&
    f.saA1 <= 0x7 && f.sbA1 <= 0x7 && f.mA1 <= 0x7 && f.aA1 <= 0x7
  }

  /** What EncodeCombineMode packs, the bit fields of gDPCombine read back; the mode byte stays clear. */
  lemma EncodeDecode(f: Fields)
    requires InRange(f)
    ensures Decoded(Encoded(f)) == f && Encoded(f) >> 56 == 0
  {
  }

  /** Conversely a mode whose mode byte is clear is determined by its selectors. */
  lemma DecodeEncode(mux: bv64)
    ensures Encoded(Decoded(mux)) == mux & 0xFF_FFFF_FFFF_FFFF
  {
  }

  // -------------------------------------------------------------------------
  // CombinerKey

  datatype CombinerKey = CombinerKey(mux: bv64)

  /** The key of a mux: rectangle flag in bit 56, cycle type in bits 57-58, bilerp in bits 59-60. */
  function Key(mux: bv64, rect: bool, cycleType: bv64, bilerp: bv64): CombinerKey {
    CombinerKey(mux | (((if rect then 1 else 0) | (cycleType << 1) | (bilerp << 3)) << 56))
  }

  function CycleType(key: CombinerKey): bv64 { (key.mux >> 57) & 3 }

  function Bilerp(key: CombinerKey): bv64 { (key.mux >> 59) & 3 }

  predicate IsRectKey(key: CombinerKey) { (key.mux >> 56) & 1 != 0 }

  /**
   * The mode bits come back from the key, and they do not disturb the selectors, as the mode byte of a mux is clear.
   */
  lemma KeyRoundTrip(mux: bv64, rect: bool, cycleType: bv64, bilerp: bv64)
    requires mux >> 56 == 0 && cycleType <= 3 && bilerp <= 3
    ensures var key := Key(mux, rect, cycleType, bilerp);
      CycleType(key) == cycleType && Bilerp(key) == bilerp && IsRectKey(key) == rect && Decoded(key.mux) == Decoded(mux)
  {
  }

  /** Different muxes or mode bits have different keys. */
  lemma KeyInjective(mux: bv64, rect: bool, cycleType: bv64, bilerp: bv64, mux': bv64, rect': bool, cycleType': bv64,
                     bilerp': bv64)
    requires mux >> 56 == 0 && cycleType <= 3 && bilerp <= 3 && mux' >> 56 == 0 && cycleType' <= 3 && bilerp' <= 3
    requires Key(mux, rect, cycleType, bilerp) == Key(mux', rect', cycleType', bilerp')
    ensures mux == mux' && rect == rect' && cycleType == cycleType' && bilerp == bilerp'
  {
  }

  // -------------------------------------------------------------------------
  // The input tables

  /** saRGBExpanded */
  function SaRGB(i: bv64): (r: int)
    ensures 0 <= r < 6 || r == NOISE || r == ONE || r == ZERO
  {
    if i < 6 then i as int else if i == 6 then ONE else if i == 7 then NOISE else ZERO
  }

  /** sbRGBExpanded */
  function SbRGB(i: bv64): (r: int)
    ensures 0 <= r <= CENTER || r == K4 || r == ZERO
  {
    if i < 6 then i as int else if i == 6 then CENTER else if i == 7 then K4 else ZERO
  }

  /** mRGBExpanded */
  function MRGB(i: bv64): (r: int)
    ensures 0 <= r < 16 || r == K5 || r == ZERO
  {
    if i < 6 then i as int else if i < 15 then i as int + 1 else if i == 15 then K5 else ZERO
  }

  /** aRGBExpanded */
  function ARGB(i: bv64): (r: int)
    ensures 0 <= r < 6 || r == ONE || r == ZERO
  {
    if i < 6 then i as int else if i == 6 then ONE else ZERO
  }

  /** saAExpanded, sbAExpanded and aAExpanded */
  function AbdA(i: bv64): (r: int)
    ensures r == COMBINED || 9 <= r < 14 || r == ONE || r == ZERO
  {
    if i == 0 then COMBINED else if i < 6 then i as int + 8 else if i == 6 then ONE else ZERO
  }

  /** mAExpanded */
  function MA(i: bv64): (r: int)
    ensures 9 <= r < 16 || r == ZERO
  {
    if i == 0 then LOD_FRACTION else if i < 6 then i as int + 8 else if i == 6 then PRIM_LOD_FRAC else ZERO
  }

  /** The inputs by selector. */
  lemma Selectors()
    ensures [SaRGB(0), SaRGB(1), SaRGB(2), SaRGB(3), SaRGB(4), SaRGB(5), SaRGB(6), SaRGB(7)]
         == [COMBINED, TEXEL0, TEXEL1, PRIMITIVE, SHADE, ENVIRONMENT, ONE, NOISE]
    ensures [SbRGB(0), SbRGB(1), SbRGB(2), SbRGB(3), SbRGB(4), SbRGB(5), SbRGB(6), SbRGB(7)]
         == [COMBINED, TEXEL0, TEXEL1, PRIMITIVE, SHADE, ENVIRONMENT, CENTER, K4]
    ensures [MRGB(0), MRGB(1), MRGB(2), MRGB(3), MRGB(4), MRGB(5), MRGB(6), MRGB(7)]
         == [COMBINED, TEXEL0, TEXEL1, PRIMITIVE, SHADE, ENVIRONMENT, SCALE, COMBINED_ALPHA]
    ensures [MRGB(8), MRGB(9), MRGB(10), MRGB(11), MRGB(12), MRGB(13), MRGB(14), MRGB(15)]
         == [TEXEL0_ALPHA, TEXEL1_ALPHA, PRIMITIVE_ALPHA, SHADE_ALPHA, ENV_ALPHA, LOD_FRACTION, PRIM_LOD_FRAC, K5]
    ensures [ARGB(0), ARGB(1), ARGB(2), ARGB(3), ARGB(4), ARGB(5), ARGB(6), ARGB(7)]
         == [COMBINED, TEXEL0, TEXEL1, PRIMITIVE, SHADE, ENVIRONMENT, ONE, ZERO]
    ensures [AbdA(0), AbdA(1), AbdA(2), AbdA(3), AbdA(4), AbdA(5), AbdA(6), AbdA(7)]
         == [COMBINED, TEXEL0_ALPHA, TEXEL1_ALPHA, PRIMITIVE_ALPHA, SHADE_ALPHA, ENV_ALPHA, ONE, ZERO]
    ensures [MA(0), MA(1), MA(2), MA(3), MA(4), MA(5), MA(6), MA(7)]
         == [LOD_FRACTION, TEXEL0_ALPHA, TEXEL1_ALPHA, PRIMITIVE_ALPHA, SHADE_ALPHA, ENV_ALPHA, PRIM_LOD_FRAC, ZERO]
    ensures forall i: bv64 :: (i >= 8 ==> SaRGB(i) == SbRGB(i) == ZERO) && (i >= 16 ==> MRGB(i) == ZERO)
  {
  }

  function Color0(f: Fields): CombineCycle {
    CombineCycle(SaRGB(f.saRGB0), SbRGB(f.sbRGB0), MRGB(f.mRGB0), ARGB(f.aRGB0))
  }

  function Color1(f: Fields): CombineCycle {
    CombineCycle(SaRGB(f.saRGB1), SbRGB(f.sbRGB1), MRGB(f.mRGB1), ARGB(f.aRGB1))
  }

  function Alpha0(f: Fields): CombineCycle { CombineCycle(AbdA(f.saA0), AbdA(f.sbA0), MA(f.mA0), AbdA(f.aA0)) }

  function Alpha1(f: Fields): CombineCycle { CombineCycle(AbdA(f.saA1), AbdA(f.sbA1), MA(f.mA1), AbdA(f.aA1)) }

  // G_CCMUX and G_ACMUX selectors of TEXEL0, SHADE and 0
  const CC_TEXEL0: bv64 := 1
  const CC_SHADE: bv64 := 4
  const CC_0: bv64 := 31
  const AC_0: bv64 := 7

  /** EncodeCombineMode(0, 0, 0, d, 0, 0, 0, d, 0, 0, 0, d, 0, 0, 0, d): both cycles pass input `d` through. */
  function PassThrough(d: bv64): Fields {
    Fields(CC_0, CC_0, CC_0, d, AC_0, AC_0, AC_0, d, CC_0, CC_0, CC_0, d, AC_0, AC_0, AC_0, d)
  }

  /** The modes CombinerInfo.update sets for copy and fill cycles have equal cycles that just load their input. */
  lemma PassThroughCycles(d: bv64)
    requires 1 <= d < 6
    ensures var f := Decoded(Encoded(PassThrough(d)));
      && Encoded(PassThrough(d)) >> 56 == 0
      && Color0(f) == Color1(f) == CombineCycle(ZERO, ZERO, ZERO, d as int)
      && Alpha0(f) == Alpha1(f) == CombineCycle(ZERO, ZERO, ZERO, d as int + 8)
  {
    EncodeDecode(PassThrough(d).(saRGB0 := 0xF, sbRGB0 := 0xF, saRGB1 := 0xF, sbRGB1 := 0xF));
    assert Encoded(PassThrough(d))
      == Encoded(PassThrough(d).(saRGB0 := 0xF, sbRGB0 := 0xF, saRGB1 := 0xF, sbRGB1 := 0xF));
  }
}
