/** The example of section 2.5.2 of RFC 8439. */
module PolyExample {
  import opened Bits
  import opened LittleEndian
  import opened PolyField
  import opened Poly1305

  const KEY_R: seq<byte> :=
    [0x85, 0xd6, 0xbe, 0x78, 0x57, 0x55, 0x6d, 0x33, 0x7f, 0x44, 0x52, 0xfe, 0x42, 0xd5, 0x06, 0xa8]

  const KEY_S: seq<byte> :=
    [0x01, 0x03, 0x80, 0x8a, 0xfb, 0x0d, 0xb2, 0xfd, 0x4a, 0xbf, 0xf6, 0xaf, 0x41, 0x49, 0xf5, 0x1b]

  /** "Cryptographic Forum Research Group" */
  const FIRST: seq<byte> :=
    [0x43, 0x72, 0x79, 0x70, 0x74, 0x6f, 0x67, 0x72, 0x61, 0x70, 0x68, 0x69, 0x63, 0x20, 0x46, 0x6f]

  const SECOND: seq<byte> :=
    [0x72, 0x75, 0x6d, 0x20, 0x52, 0x65, 0x73, 0x65, 0x61, 0x72, 0x63, 0x68, 0x20, 0x47, 0x72, 0x6f]

  const THIRD: seq<byte> := [0x75, 0x70]

  const TAG: seq<byte> :=
    [0xa8, 0x06, 0x1d, 0xc1, 0x30, 0x51, 0x36, 0xc6, 0xc2, 0x2b, 0x8b, 0xaf, 0x0c, 0x01, 0x27, 0xa9]

  function LittleWord(b0: byte, b1: byte, b2: byte, b3: byte): uint32 {
    b0 as int + 256 * (b1 as int + 256 * (b2 as int + 256 * b3 as int))
  }

  lemma WordsOf(s: seq<byte>, w0: uint32, w1: uint32, w2: uint32, w3: uint32)
    requires |s| == 16
    requires w0 == LittleWord(s[0], s[1], s[2], s[3]) && w1 == LittleWord(s[4], s[5], s[6], s[7])
    requires w2 == LittleWord(s[8], s[9], s[10], s[11]) && w3 == LittleWord(s[12], s[13], s[14], s[15])
    ensures Word(s, 0) == w0 && Word(s, 4) == w1 && Word(s, 8) == w2 && Word(s, 12) == w3
  {
  }

  lemma ClampedKey()
    ensures var c := Clamp(KEY_R);
            && Word(c, 0) == 0x08bed685 && Word(c, 4) == 0x036d5554
            && Word(c, 8) == 0x0e52447c && Word(c, 12) == 0x0806d540
  {
    hide Clamp, FromLe32;
    WordsOf(KEY_R, 0x78bed685, 0x336d5557, 0xfe52447f, 0xa806d542);
    ClampWords(KEY_R);
  }

  lemma KeyNumbers()
    ensures Num(Clamp(KEY_R)) == 0x806_d540_0e52_447c_036d_5554_08be_d685
    ensures Num(KEY_S) == 0x1bf5_4941_aff6_bf4a_fdb2_0dfb_8a80_0301
  {
    hide Num, Clamp, Word;
    ClampedKey();
    BlockNum(Clamp(KEY_R));
    WordsOf(KEY_S, 0x8a800301, 0xfdb20dfb, 0xaff6bf4a, 0x1bf54941);
    BlockNum(KEY_S);
  }

  lemma BlockNumbers()
    ensures Num(FIRST + [1]) == 0x1_6f46_2063_6968_7061_7267_6f74_7079_7243
    ensures Num(SECOND + [1]) == 0x1_6f72_4720_6863_7261_6573_6552_206d_7572
    ensures Num(THIRD + [1]) == 0x1_7075
  {
    hide Num;
    WordsOf(FIRST, 0x70797243, 0x72676f74, 0x69687061, 0x6f462063);
    WordsOf(SECOND, 0x206d7572, 0x65736552, 0x68637261, 0x6f724720);
    BlockNum(FIRST);
    BlockNum(SECOND);
    LastNumber();
  }

  lemma LastNumber()
    ensures Num(THIRD + [1]) == 0x1_7075
  {
    var s := THIRD + [1];
    assert Num([]) == 0;
    hide Num;
    NumStep(s, 0);
    NumStep(s, 1);
    NumStep(s, 2);
    assert s[0..] == s && s[3..] == [];
  }

  lemma TagNumber()
    ensures Num(TAG) == 0xa927_010c_af8b_2bc2_c636_5130_c11d_06a8
  {
    hide Num;
    WordsOf(TAG, 0xc11d06a8, 0xc6365130, 0xaf8b2bc2, 0xa927010c);
    BlockNum(TAG);
  }

  lemma Rounds(r: nat)
    requires r == 0x806_d540_0e52_447c_036d_5554_08be_d685
    ensures Absorb(0, r, FIRST) == 0x2_c88c_7784_9d64_ae91_47dd_eb88_e69c_83fc
    ensures Absorb(0x2_c88c_7784_9d64_ae91_47dd_eb88_e69c_83fc, r, SECOND) ==
            0x2_d8ad_af23_b033_7fa7_cccf_b4ea_344b_30de
    ensures Absorb(0x2_d8ad_af23_b033_7fa7_cccf_b4ea_344b_30de, r, THIRD) ==
            0x2_8d31_b7ca_ff94_6c77_c884_4335_369d_03a7
  {
    hide Num;
    BlockNumbers();
  }

  /** The tag of the example. */
  lemma Example()
    ensures Tag(KEY_R + KEY_S, FIRST + SECOND + THIRD) == TAG
  {
    hide Num, Clamp, Absorb, Accumulate, Bytes;
    var r := Num(Clamp(KEY_R));
    var key, msg := KEY_R + KEY_S, FIRST + SECOND + THIRD;
    KeyNumbers();
    Rounds(r);
    NothingFed(r);
    AccumulateMore(r, [], FIRST);
    AccumulateMore(r, FIRST, SECOND);
    AccumulateMore(r, FIRST + SECOND, THIRD);
    assert [] + FIRST == FIRST && key[..16] == KEY_R && key[16..] == KEY_S;
    TagNumber();
    BytesOfNum(TAG);
  }

  lemma NothingFed(r: nat)
    ensures Accumulate(r, []) == 0
  {
  }
}
