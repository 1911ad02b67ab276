/** The base64 coder of libretro-common/encodings/encoding_base64.c. */
module Base64 {
  import opened Machine

  const PAD: u8 := 61

  /** The table b64: upper case, lower case, digits, plus and slash. */
  function Digit(v: nat): u8
    requires v < 64
  {
    if v < 26 then (65 + v) as u8
    else if v < 52 then (71 + v) as u8
    else if v < 62 then (v - 4) as u8
    else if v == 62 then 43 else 47
  }

  /** The table unb64, which has 0 for every other character. */
  function Value(c: u8): (v: nat)
    ensures v < 64
  {
    var n := c as nat;
    if 65 <= n < 91 then n - 65
    else if 97 <= n < 123 then n - 71
    else if 48 <= n < 58 then n + 4
    else if n == 43 then 62
    else if n == 47 then 63
    else 0
  }

  /** A text as bytes. */
  function Text(s: string): (t: seq<u8>)
    requires forall i :: 0 <= i < |s| ==> s[i] as int < 0x100
    ensures |t| == |s| && forall i :: 0 <= i < |s| ==> t[i] as int == s[i] as int
  {
    seq(|s|, (i: nat) requires i < |s| => s[i] as int as u8)
  }

  /** Four digits in a row. */
  function Digits(v: nat): seq<u8>
    requires v + 4 <= 64
  {
    [Digit(v), Digit(v + 1), Digit(v + 2), Digit(v + 3)]
  }

  /** The alphabet and the pad character of table 1 of RFC 4648. */
  lemma AlphabetOfRfc()
    ensures Digits(0) == Text("ABCD") && Digits(4) == Text("EFGH")
    ensures Digits(8) == Text("IJKL") && Digits(12) == Text("MNOP")
    ensures Digits(16) == Text("QRST") && Digits(20) == Text("UVWX")
    ensures Digits(24) == Text("YZab") && Digits(28) == Text("cdef")
    ensures Digits(32) == Text("ghij") && Digits(36) == Text("klmn")
    ensures Digits(40) == Text("opqr") && Digits(44) == Text("stuv")
    ensures Digits(48) == Text("wxyz") && Digits(52) == Text("0123")
    ensures Digits(56) == Text("4567") && Digits(60) == Text("89+/")
    ensures [PAD] == Text("=")
  {
  }

  lemma ValueOfDigit(v: nat)
    requires v < 64
    ensures Value(Digit(v)) == v && Digit(v) != PAD
  {
  }

  // -------------------------------------------------------------------------
  // Groups of three bytes and of four digits, section 4 of RFC 4648

  function Group(a: nat, b: nat, c: nat): seq<u8>
    requires a < 0x100 && b < 0x100 && c < 0x100
  {
    [Digit(a / 4), Digit(a % 4 * 16 + b / 16), Digit(b % 16 * 4 + c / 64), Digit(c % 64)]
  }

  function Encoded(bin: seq<u8>): seq<u8> {
    if bin == [] then []
    else if |bin| == 1 then Group(bin[0] as nat, 0, 0)[..2] + [PAD, PAD]
    else if |bin| == 2 then Group(bin[0] as nat, bin[1] as nat, 0)[..3] + [PAD]
    else Group(bin[0] as nat, bin[1] as nat, bin[2] as nat) + Encoded(bin[3..])
  }

  function Ungroup(a: u8, b: u8, c: u8, d: u8): (r: seq<u8>)
    ensures |r| == 3
  {
    [(Value(a) * 4 + Value(b) / 16) as u8, (Value(b) % 16 * 16 + Value(c) / 4) as u8,
     (Value(c) % 4 * 64 + Value(d)) as u8]
  }

  /** The test vectors of section 10 of RFC 4648, "foobar" and its beginnings. */
  lemma VectorsOfRfc()
    ensures Encoded(Text("f")) == Text("Zg==") && Encoded(Text("fo")) == Text("Zm8=")
    ensures Encoded(Text("foo")) == Text("Zm9v") && Encoded(Text("foob")) == Text("Zm9vYg==")
    ensures Encoded(Text("fooba")) == Text("Zm9vYmE=") && Encoded(Text("foobar")) == Text("Zm9vYmFy")
  {
    hide Encoded, Text;
    PartsOfRfc();
    EncodedFoo("");
    EncodedFoo("b");
    EncodedFoo("ba");
    EncodedFoo("bar");
    assert "foo" + "" == "foo" && "foo" + "b" == "foob" && "foo" + "ba" == "fooba" && "foo" + "bar" == "foobar";
    assert "Zm9v" + "" == "Zm9v" && "Zm9v" + "Yg==" == "Zm9vYg==" && "Zm9v" + "YmE=" == "Zm9vYmE=";
    assert "Zm9v" + "YmFy" == "Zm9vYmFy";
    TextJoined("Zm9v", "");
    TextJoined("Zm9v", "Yg==");
    TextJoined("Zm9v", "YmE=");
    TextJoined("Zm9v", "YmFy");
  }

  lemma TextJoined(a: string, b: string)
    requires forall i :: 0 <= i < |a| ==> a[i] as int < 0x100
    requires forall i :: 0 <= i < |b| ==> b[i] as int < 0x100
    ensures Text(a + b) == Text(a) + Text(b)
  {
  }

  lemma PartsOfRfc()
    ensures Encoded(Text("")) == Text("")
    ensures Encoded(Text("f")) == Text("Zg==") && Encoded(Text("fo")) == Text("Zm8=")
    ensures Encoded(Text("b")) == Text("Yg==") && Encoded(Text("ba")) == Text("YmE=")
    ensures Encoded(Text("bar")) == Text("YmFy")
  {
    hide Encoded;
    EncodedPart(Text(""));
    EncodedPart(Text("f"));
    EncodedPart(Text("fo"));
    EncodedPart(Text("b"));
    EncodedPart(Text("ba"));
    EncodedPart(Text("bar"));
  }

  lemma EncodedPart(bin: seq<u8>)
    requires |bin| <= 3
    ensures |bin| == 0 ==> Encoded(bin) == []
    ensures |bin| == 1 ==> Encoded(bin) == Group(bin[0] as nat, 0, 0)[..2] + [PAD, PAD]
    ensures |bin| == 2 ==> Encoded(bin) == Group(bin[0] as nat, bin[1] as nat, 0)[..3] + [PAD]
    ensures |bin| == 3 ==> Encoded(bin) == Group(bin[0] as nat, bin[1] as nat, bin[2] as nat)
  {
  }

  lemma EncodedFoo(rest: string)
    requires forall i :: 0 <= i < |rest| ==> rest[i] as int < 0x100
    ensures Encoded(Text("foo" + rest)) == Text("Zm9v") + Encoded(Text(rest))
  {
    var bin := Text("foo" + rest);
    assert bin[3..] == Text(rest) && bin[0] == 102 && bin[1] == bin[2] == 111;
    assert Group(102, 111, 111) == Text("Zm9v");
  }

  /** How many of the last two characters are pads. */
  function Pads(ascii: seq<u8>): nat
    requires |ascii| >= 2
  {
    (if ascii[|ascii| - 1] == PAD then 1 else 0) + (if ascii[|ascii| - 2] == PAD then 1 else 0)
  }

  /** Whole groups only. */
  function Decoded(ascii: seq<u8>): seq<u8> {
    if |ascii| < 4 then []
    else if |ascii| == 4 then Ungroup(ascii[0], ascii[1], ascii[2], ascii[3])[..3 - Pads(ascii)]
    else Ungroup(ascii[0], ascii[1], ascii[2], ascii[3]) + Decoded(ascii[4..])
  }

  /** Groups of three that `n` bytes fill, the last one perhaps in part. */
  function Groups(n: nat): nat {
    if n == 0 then 0 else if n <= 3 then 1 else 1 + Groups(n - 3)
  }

  lemma {:induction false} GroupsIs(q: nat, r: nat)
    requires 1 <= r <= 3
    ensures Groups(3 * q + r) == q + 1
  {
    if q > 0 {
      GroupsIs(q - 1, r);
      assert 3 * q + r - 3 == 3 * (q - 1) + r;
    }
  }

  /** What the last group lacks, as base64 computes it. */
  lemma GroupsExactly(n: nat)
    ensures 3 * Groups(n) - n == n % 3 % 2 * 2 + n % 3 / 2
  {
    var q, r := n / 3, n % 3;
    if r > 0 {
      GroupsIs(q, r);
    } else if q > 0 {
      GroupsIs(q - 1, 3);
    }
  }

  lemma {:induction false} EncodedLength(bin: seq<u8>)
    ensures |Encoded(bin)| == 4 * Groups(|bin|)
  {
    if |bin| >= 3 {
      EncodedLength(bin[3..]);
    }
  }

  /** The bytes of a group come back, whatever fills it up. */
  lemma UngroupGroup(a: u8, b: u8, c: u8)
    ensures var g := Group(a as nat, b as nat, c as nat); Ungroup(g[0], g[1], g[2], g[3]) == [a, b, c]
  {
    var a, b, c := a as nat, b as nat, c as nat;
    ValueOfDigit(a / 4);
    ValueOfDigit(a % 4 * 16 + b / 16);
    ValueOfDigit(b % 16 * 4 + c / 64);
    ValueOfDigit(c % 64);
    assert (a % 4 * 16 + b / 16) / 16 == a % 4 && (a % 4 * 16 + b / 16) % 16 == b / 16;
    assert (b % 16 * 4 + c / 64) / 4 == b % 16 && (b % 16 * 4 + c / 64) % 4 == c / 64;
  }

  /** The last group, with what it lacks filled up with zeros. */
  lemma LastGroup(bin: seq<u8>)
    requires 1 <= |bin| <= 3
    ensures |Encoded(bin)| == 4 && Pads(Encoded(bin)) == 3 - |bin|
    ensures Decoded(Encoded(bin)) == bin
  {
    var b, c := if |bin| > 1 then bin[1] else 0, if |bin| > 2 then bin[2] else 0;
    var g, e := Group(bin[0] as nat, b as nat, c as nat), Encoded(bin);
    ValueOfDigit(b as nat % 16 * 4 + c as nat / 64);
    ValueOfDigit(c as nat % 64);
    if |bin| == 3 {
      assert bin[3..] == [];
      assert e == g;
    }
    UngroupGroup(bin[0], b, c);
    assert Ungroup(e[0], e[1], e[2], e[3])[..|bin|] == Ungroup(g[0], g[1], g[2], g[3])[..|bin|];
  }

  /** The pads of an encoding tell what the last group lacks. */
  lemma {:induction false} PadsOfEncoded(bin: seq<u8>)
    requires bin != []
    ensures |Encoded(bin)| >= 4 && Pads(Encoded(bin)) == 3 * Groups(|bin|) - |bin|
  {
    EncodedLength(bin);
    if |bin| <= 3 {
      LastGroup(bin);
    } else {
      PadsOfEncoded(bin[3..]);
    }
  }

  /** Decoding what was encoded gives it back. */
  lemma {:induction false} RoundTrip(bin: seq<u8>)
    ensures Decoded(Encoded(bin)) == bin
  {
    if 1 <= |bin| <= 3 {
      LastGroup(bin);
    } else if bin != [] {
      RoundTrip(bin[3..]);
      EncodedLength(bin[3..]);
      UngroupGroup(bin[0], bin[1], bin[2]);
      assert Encoded(bin)[4..] == Encoded(bin[3..]);
    }
  }

  // -------------------------------------------------------------------------
  // base64

  /** Taking one whole group off the front of what is still to encode. */
  lemma EncodeStep(bin: seq<u8>, pos: nat, done: seq<u8>)
    requires pos + 3 <= |bin| && Encoded(bin) == done + Encoded(bin[pos..])
    ensures Encoded(bin)
         == done + Group(bin[pos] as nat, bin[pos + 1] as nat, bin[pos + 2] as nat) + Encoded(bin[pos + 3..])
  {
    assert bin[pos..][3..] == bin[pos + 3..];
  }

  method PutFour(res: array<u8>, rc: nat, four: seq<u8>, ghost done: seq<u8>)
    requires |four| == 4 && rc + 4 <= res.Length && res[..rc] == done
    modifies res
    ensures res[..rc + 4] == done + four
  {
    res[rc] := four[0];
    res[rc + 1] := four[1];
    res[rc + 2] := four[2];
    res[rc + 3] := four[3];
  }

  method ToBase64(bin: seq<u8>) returns (res: array<u8>, flen: nat)
    ensures fresh(res) && res.Length == flen + 1
    ensures res[..flen] == Encoded(bin) && res[flen] == 0
  {
    var len := |bin|;
    var modulusLen := len % 3;
    var pad := modulusLen % 2 * 2 + modulusLen / 2;
    flen := 4 * (len + pad) / 3;
    GroupsExactly(len);
    EncodedLength(bin);
    res := new u8[flen + 1];
    var rc, byteNo, done := EncodeGroups(bin, res);
    if pad == 2 {
      PutFour(res, rc, Group(bin[byteNo] as nat, 0, 0)[..2] + [PAD, PAD], done);
      rc := rc + 4;
    } else if pad == 1 {
      PutFour(res, rc, Group(bin[byteNo] as nat, bin[byteNo + 1] as nat, 0)[..3] + [PAD], done);
      rc := rc + 4;
    }
    assert res[..rc] == Encoded(bin);
    res[rc] := 0;
  }

  /** The loop over the whole groups. */
  method EncodeGroups(bin: seq<u8>, res: array<u8>) returns (rc: nat, byteNo: nat, ghost done: seq<u8>)
    requires |Encoded(bin)| < res.Length
    modifies res
    ensures byteNo <= |bin| < byteNo + 3 && Groups(|bin|) * 3 - |bin| == Groups(|bin| - byteNo) * 3 - (|bin| - byteNo)
    ensures rc == |done| && rc <= |Encoded(bin)| && res[..rc] == done
    ensures Encoded(bin) == done + Encoded(bin[byteNo..])
  {
    rc, byteNo, done := 0, 0, [];
    assert bin[0..] == bin;
    while byteNo <= |bin| - 3
      invariant 0 <= byteNo <= |bin| && rc == |done| && rc <= |Encoded(bin)|
      invariant Groups(|bin|) * 3 - |bin| == Groups(|bin| - byteNo) * 3 - (|bin| - byteNo)
      invariant Encoded(bin) == done + Encoded(bin[byteNo..])
      invariant res[..rc] == done
    {
      EncodeStep(bin, byteNo, done);
      var group := Group(bin[byteNo] as nat, bin[byteNo + 1] as nat, bin[byteNo + 2] as nat);
      PutFour(res, rc, group, done);
      done, rc, byteNo := done + group, rc + 4, byteNo + 3;
    }
  }

  // -------------------------------------------------------------------------
  // unbase64

  lemma {:induction false} DecodedLength(ascii: seq<u8>, groups: nat)
    requires |ascii| == 4 * groups && groups > 0
    ensures |Decoded(ascii)| == 3 * groups - Pads(ascii)
  {
    if groups > 1 {
      DecodedLength(ascii[4..], groups - 1);
    }
  }

  lemma DecodeStep(all: seq<u8>, done: seq<u8>, text: seq<u8>, bytes: seq<u8>)
    requires |text| >= 4 && bytes == Ungroup(text[0], text[1], text[2], text[3])
    requires |text| == 4 ==> Pads(text) == 0
    requires all == done + Decoded(text)
    ensures all == done + bytes + Decoded(text[4..])
  {
    assert done + (bytes + Decoded(text[4..])) == done + bytes + Decoded(text[4..]);
    assert |text| == 4 ==> bytes[..3] == bytes;
  }

  lemma DecodedNothing(text: seq<u8>)
    requires text == []
    ensures Decoded(text) == []
  {
  }

  method PutBytes(bin: array<u8>, cb: nat, bytes: seq<u8>, ghost done: seq<u8>)
    requires |bytes| <= 3 && cb + |bytes| <= bin.Length && bin[..cb] == done
    modifies bin
    ensures bin[..cb + |bytes|] == done + bytes
  {
    if |bytes| > 0 {
      bin[cb] := bytes[0];
    }
    if |bytes| > 1 {
      bin[cb + 1] := bytes[1];
    }
    if |bytes| > 2 {
      bin[cb + 2] := bytes[2];
    }
  }

  /** The loop over the groups without pads, `groups` in all. */
  method DecodeGroups(ascii: seq<u8>, groups: nat, pad: nat, bin: array<u8>)
    returns (cb: nat, charNo: nat, ghost done: seq<u8>)
    requires |ascii| == 4 * groups && groups > 0 && pad == Pads(ascii) && bin.Length == |Decoded(ascii)|
    modifies bin
    ensures charNo == if pad == 0 then |ascii| else |ascii| - 4
    ensures cb == |done| <= bin.Length && bin[..cb] == done
    ensures Decoded(ascii) == done + if pad == 0 then [] else Decoded(ascii[charNo..])
  {
    hide Decoded, Ungroup, Value;
    DecodedNothing(ascii[|ascii|..]);
    cb, charNo, done := 0, 0, [];
    assert ascii[0..] == ascii;
    ghost var k := 0;
    while charNo <= |ascii| - 4 - pad
      invariant charNo == 4 * k && 0 <= k && charNo <= if pad == 0 then |ascii| else |ascii| - 4
      invariant Decoded(ascii) == done + Decoded(ascii[charNo..])
      invariant cb == |done| <= bin.Length && bin[..cb] == done
    {
      var bytes := Ungroup(ascii[charNo], ascii[charNo + 1], ascii[charNo + 2], ascii[charNo + 3]);
      DecodeStep(Decoded(ascii), done, ascii[charNo..], bytes);
      assert ascii[charNo..][4..] == ascii[charNo + 4..];
      PutBytes(bin, cb, bytes, done);
      done, cb, charNo, k := done + bytes, cb + 3, charNo + 4, k + 1;
    }
  }

  /** Text too short to decode gives nothing. */
  method FromBase64(ascii: seq<u8>) returns (bin: array?<u8>, flen: nat)
    requires |ascii| % 4 == 0 || |ascii| < 2
    ensures |ascii| < 2 ==> bin == null && flen == 0
    ensures |ascii| >= 2 ==> bin != null && fresh(bin) && flen == bin.Length && bin[..] == Decoded(ascii)
  {
    hide Decoded, Ungroup, Value, Groups;
    var len := |ascii|;
    if len < 2 {
      return null, 0;
    }
    var pad := 0;
    if ascii[len - 1] == PAD {
      pad := pad + 1;
    }
    if ascii[len - 2] == PAD {
      pad := pad + 1;
    }
    DecodedLength(ascii, len / 4);
    flen := 3 * len / 4 - pad;
    var out := new u8[flen];
    var cb, charNo, done := DecodeGroups(ascii, len / 4, pad, out);
    if pad > 0 {
      var last := LastBytes(ascii[charNo..], pad);
      PutBytes(out, cb, last, done);
    }
    bin := out;
  }

  /** The group that ends in pads. */
  method LastBytes(text: seq<u8>, pad: nat) returns (bytes: seq<u8>)
    requires |text| == 4 && pad == Pads(text) && pad > 0
    ensures bytes == Decoded(text) && |bytes| == 3 - pad
  {
    if pad == 1 {
      bytes := Ungroup(text[0], text[1], text[2], 0)[..2];
    } else {
      bytes := Ungroup(text[0], text[1], 0, 0)[..1];
    }
  }
}
