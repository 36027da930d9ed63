/** Known answers for TKIP: the S-box of hostap/wlantest/tkip.c, the Michael vectors and the key mixing vectors of
    annex M of IEEE 802.11-2012, and the MIC of the frame in hostap/wlantest/test_vectors.c. */
module TkipVectors {
  import opened Michael
  import opened TkipMixing
  import opened Tkip

  // ------------------------------------------------------------------ the S-box

  /** The entry n of a row of eight. */
  function Pick(n: bv8, x0: bv16, x1: bv16, x2: bv16, x3: bv16, x4: bv16, x5: bv16, x6: bv16, x7: bv16): bv16 {
    if n < 4 then if n < 2 then if n < 1 then x0 else x1 else if n < 3 then x2 else x3
    else if n < 6 then if n < 5 then x4 else x5 else if n < 7 then x6 else x7
  }

  /** hostap/wlantest/tkip.c:62-96, in rows of eight. */
  function Sbox(b: bv8): bv16 {
    var n := b & 0x07;
    if b < 0x80 then
      if b < 0x40 then
        if b < 0x20 then
          if b < 0x10 then
            if b < 0x08 then
              Pick(n, 0xC6A5, 0xF884, 0xEE99, 0xF68D, 0xFF0D, 0xD6BD, 0xDEB1, 0x9154)
            else
              Pick(n, 0x6050, 0x0203, 0xCEA9, 0x567D, 0xE719, 0xB562, 0x4DE6, 0xEC9A)
          else
            if b < 0x18 then
              Pick(n, 0x8F45, 0x1F9D, 0x8940, 0xFA87, 0xEF15, 0xB2EB, 0x8EC9, 0xFB0B)
            else
              Pick(n, 0x41EC, 0xB367, 0x5FFD, 0x45EA, 0x23BF, 0x53F7, 0xE496, 0x9B5B)
        else
          if b < 0x30 then
            if b < 0x28 then
              Pick(n, 0x75C2, 0xE11C, 0x3DAE, 0x4C6A, 0x6C5A, 0x7E41, 0xF502, 0x834F)
            else
              Pick(n, 0x685C, 0x51F4, 0xD134, 0xF908, 0xE293, 0xAB73, 0x6253, 0x2A3F)
          else
            if b < 0x38 then
              Pick(n, 0x080C, 0x9552, 0x4665, 0x9D5E, 0x3028, 0x37A1, 0x0A0F, 0x2FB5)
            else
              Pick(n, 0x0E09, 0x2436, 0x1B9B, 0xDF3D, 0xCD26, 0x4E69, 0x7FCD, 0xEA9F)
      else
        if b < 0x60 then
          if b < 0x50 then
            if b < 0x48 then
              Pick(n, 0x121B, 0x1D9E, 0x5874, 0x342E, 0x362D, 0xDCB2, 0xB4EE, 0x5BFB)
            else
              Pick(n, 0xA4F6, 0x764D, 0xB761, 0x7DCE, 0x527B, 0xDD3E, 0x5E71, 0x1397)
          else
            if b < 0x58 then
              Pick(n, 0xA6F5, 0xB968, 0x0000, 0xC12C, 0x4060, 0xE31F, 0x79C8, 0xB6ED)
            else
              Pick(n, 0xD4BE, 0x8D46, 0x67D9, 0x724B, 0x94DE, 0x98D4, 0xB0E8, 0x854A)
        else
          if b < 0x70 then
            if b < 0x68 then
              Pick(n, 0xBB6B, 0xC52A, 0x4FE5, 0xED16, 0x86C5, 0x9AD7, 0x6655, 0x1194)
            else
              Pick(n, 0x8ACF, 0xE910, 0x0406, 0xFE81, 0xA0F0, 0x7844, 0x25BA, 0x4BE3)
          else
            if b < 0x78 then
              Pick(n, 0xA2F3, 0x5DFE, 0x80C0, 0x058A, 0x3FAD, 0x21BC, 0x7048, 0xF104)
            else
              Pick(n, 0x63DF, 0x77C1, 0xAF75, 0x4263, 0x2030, 0xE51A, 0xFD0E, 0xBF6D)
    else
      if b < 0xc0 then
        if b < 0xa0 then
          if b < 0x90 then
            if b < 0x88 then
              Pick(n, 0x814C, 0x1814, 0x2635, 0xC32F, 0xBEE1, 0x35A2, 0x88CC, 0x2E39)
            else
              Pick(n, 0x9357, 0x55F2, 0xFC82, 0x7A47, 0xC8AC, 0xBAE7, 0x322B, 0xE695)
          else
            if b < 0x98 then
              Pick(n, 0xC0A0, 0x1998, 0x9ED1, 0xA37F, 0x4466, 0x547E, 0x3BAB, 0x0B83)
            else
              Pick(n, 0x8CCA, 0xC729, 0x6BD3, 0x283C, 0xA779, 0xBCE2, 0x161D, 0xAD76)
        else
          if b < 0xb0 then
            if b < 0xa8 then
              Pick(n, 0xDB3B, 0x6456, 0x744E, 0x141E, 0x92DB, 0x0C0A, 0x486C, 0xB8E4)
            else
              Pick(n, 0x9F5D, 0xBD6E, 0x43EF, 0xC4A6, 0x39A8, 0x31A4, 0xD337, 0xF28B)
          else
            if b < 0xb8 then
              Pick(n, 0xD532, 0x8B43, 0x6E59, 0xDAB7, 0x018C, 0xB164, 0x9CD2, 0x49E0)
            else
              Pick(n, 0xD8B4, 0xACFA, 0xF307, 0xCF25, 0xCAAF, 0xF48E, 0x47E9, 0x1018)
      else
        if b < 0xe0 then
          if b < 0xd0 then
            if b < 0xc8 then
              Pick(n, 0x6FD5, 0xF088, 0x4A6F, 0x5C72, 0x3824, 0x57F1, 0x73C7, 0x9751)
            else
              Pick(n, 0xCB23, 0xA17C, 0xE89C, 0x3E21, 0x96DD, 0x61DC, 0x0D86, 0x0F85)
          else
            if b < 0xd8 then
              Pick(n, 0xE090, 0x7C42, 0x71C4, 0xCCAA, 0x90D8, 0x0605, 0xF701, 0x1C12)
            else
              Pick(n, 0xC2A3, 0x6A5F, 0xAEF9, 0x69D0, 0x1791, 0x9958, 0x3A27, 0x27B9)
        else
          if b < 0xf0 then
            if b < 0xe8 then
              Pick(n, 0xD938, 0xEB13, 0x2BB3, 0x2233, 0xD2BB, 0xA970, 0x0789, 0x33A7)
            else
              Pick(n, 0x2DB6, 0x3C22, 0x1592, 0xC920, 0x8749, 0xAAFF, 0x5078, 0xA57A)
          else
            if b < 0xf8 then
              Pick(n, 0x038F, 0x59F8, 0x0980, 0x1A17, 0x65DA, 0xD731, 0x84C6, 0xD0B8)
            else
              Pick(n, 0x82C3, 0x29B0, 0x5A77, 0x1E11, 0x7BCB, 0xA8FC, 0x6DD6, 0x2C3A)
  }

  /** _S_: the entry of the low byte, and that of the high byte with its bytes exchanged. */
  function S(v: bv16): bv16 {
    var t := Sbox(Hi8(v));
    Sbox(Lo8(v)) ^ ((t << 8) | (t >> 8))
  }

  // ------------------------------------------------------------------ Michael

  /** One block, from the state (0, 1). */
  lemma BlockVector()
    ensures Block(Pair(0, 1)) == Pair(0xc00015a8, 0xc0000b95)
  {
  }

  /** The code over a message without a header, as the published vectors have it. */
  function PlainMic(key: seq<bv8>, data: seq<bv8>): seq<bv8>
    requires |key| == 8
  {
    var m := Padded(data);
    var s := Fold(Pair(Word(key, 0), Word(key, 4)), m, |m| / 4);
    PutLe32(s.l) + PutLe32(s.r)
  }

  /** The empty message, "M", "Mi" and "Michael", each under the MIC of its predecessor in the published chain. */
  lemma MichaelVectors()
    ensures PlainMic([0x00, 0x00, 0x00, 0x00, 0x00, 0x00, 0x00, 0x00], [])
            == [0x82, 0x92, 0x5c, 0x1c, 0xa1, 0xd1, 0x30, 0xb8]
    ensures PlainMic([0x82, 0x92, 0x5c, 0x1c, 0xa1, 0xd1, 0x30, 0xb8], [0x4d])
            == [0x43, 0x47, 0x21, 0xca, 0x40, 0x63, 0x9b, 0x3f]
    ensures PlainMic([0x43, 0x47, 0x21, 0xca, 0x40, 0x63, 0x9b, 0x3f], [0x4d, 0x69])
            == [0xe8, 0xf9, 0xbe, 0xca, 0xe9, 0x7e, 0x5d, 0x29]
    ensures PlainMic([0xd5, 0x5e, 0x10, 0x05, 0x10, 0x12, 0x89, 0x86], [0x4d, 0x69, 0x63, 0x68, 0x61, 0x65,
            0x6c]) == [0x0a, 0x94, 0x2b, 0x12, 0x4e, 0xca, 0xa5, 0x46]
  {
    Vector0();
    Vector1();
    Vector2();
    Vector3();
  }

  lemma Vector0()
    ensures PlainMic([0x00, 0x00, 0x00, 0x00, 0x00, 0x00, 0x00, 0x00], [])
            == [0x82, 0x92, 0x5c, 0x1c, 0xa1, 0xd1, 0x30, 0xb8]
  {
    var key, m: seq<bv8> := [0x00, 0x00, 0x00, 0x00, 0x00, 0x00, 0x00, 0x00], [0x5a, 0x00, 0x00, 0x00, 0x00, 0x00,
            0x00, 0x00];
    assert Padded([]) == m;
    hide Absorb, Padded, Word, PutLe32;
    KeyWords(key, 0x00000000, 0x00000000);
    var s0 := Pair(0x00000000, 0x00000000);
    Absorbed(s0, m, 0, Pair(0x00000000, 0x00000000), 0x0000005a, Pair(0xc000134d, 0xeaa1301e));
    Absorbed(s0, m, 1, Pair(0xc000134d, 0xeaa1301e), 0x00000000, Pair(0x1c5c9282, 0xb830d1a1));
    MicBytes(0x1c5c9282, 0xb830d1a1, [0x82, 0x92, 0x5c, 0x1c, 0xa1, 0xd1, 0x30, 0xb8]);
  }

  lemma Vector1()
    ensures PlainMic([0x82, 0x92, 0x5c, 0x1c, 0xa1, 0xd1, 0x30, 0xb8], [0x4d])
            == [0x43, 0x47, 0x21, 0xca, 0x40, 0x63, 0x9b, 0x3f]
  {
    var key, m: seq<bv8> := [0x82, 0x92, 0x5c, 0x1c, 0xa1, 0xd1, 0x30, 0xb8], [0x4d, 0x5a, 0x00, 0x00, 0x00, 0x00,
            0x00, 0x00];
    assert Padded([0x4d]) == m;
    hide Absorb, Padded, Word, PutLe32;
    KeyWords(key, 0x1c5c9282, 0xb830d1a1);
    var s0 := Pair(0x1c5c9282, 0xb830d1a1);
    Absorbed(s0, m, 0, Pair(0x1c5c9282, 0xb830d1a1), 0x00005a4d, Pair(0xa556433e, 0xd6ec7884));
    Absorbed(s0, m, 1, Pair(0xa556433e, 0xd6ec7884), 0x00000000, Pair(0xca214743, 0x3f9b6340));
    MicBytes(0xca214743, 0x3f9b6340, [0x43, 0x47, 0x21, 0xca, 0x40, 0x63, 0x9b, 0x3f]);
  }

  lemma Vector2()
    ensures PlainMic([0x43, 0x47, 0x21, 0xca, 0x40, 0x63, 0x9b, 0x3f], [0x4d, 0x69])
            == [0xe8, 0xf9, 0xbe, 0xca, 0xe9, 0x7e, 0x5d, 0x29]
  {
    var key, m: seq<bv8> := [0x43, 0x47, 0x21, 0xca, 0x40, 0x63, 0x9b, 0x3f], [0x4d, 0x69, 0x5a, 0x00, 0x00, 0x00,
            0x00, 0x00];
    assert Padded([0x4d, 0x69]) == m;
    hide Absorb, Padded, Word, PutLe32;
    KeyWords(key, 0xca214743, 0x3f9b6340);
    var s0 := Pair(0xca214743, 0x3f9b6340);
    Absorbed(s0, m, 0, Pair(0xca214743, 0x3f9b6340), 0x005a694d, Pair(0x64790014, 0xb7d3ad8e));
    Absorbed(s0, m, 1, Pair(0x64790014, 0xb7d3ad8e), 0x00000000, Pair(0xcabef9e8, 0x295d7ee9));
    MicBytes(0xcabef9e8, 0x295d7ee9, [0xe8, 0xf9, 0xbe, 0xca, 0xe9, 0x7e, 0x5d, 0x29]);
  }

  lemma Vector3()
    ensures PlainMic([0xd5, 0x5e, 0x10, 0x05, 0x10, 0x12, 0x89, 0x86], [0x4d, 0x69, 0x63, 0x68, 0x61, 0x65,
            0x6c]) == [0x0a, 0x94, 0x2b, 0x12, 0x4e, 0xca, 0xa5, 0x46]
  {
    var key, m: seq<bv8> := [0xd5, 0x5e, 0x10, 0x05, 0x10, 0x12, 0x89, 0x86], [0x4d, 0x69, 0x63, 0x68, 0x61, 0x65,
            0x6c, 0x5a, 0x00, 0x00, 0x00, 0x00];
    assert Padded([0x4d, 0x69, 0x63, 0x68, 0x61, 0x65, 0x6c]) == m;
    hide Absorb, Padded, Word, PutLe32;
    KeyWords(key, 0x05105ed5, 0x86891210);
    var s0 := Pair(0x05105ed5, 0x86891210);
    Absorbed(s0, m, 0, Pair(0x05105ed5, 0x86891210), 0x6863694d, Pair(0xf4774c9a, 0xb4278a40));
    Absorbed(s0, m, 1, Pair(0xf4774c9a, 0xb4278a40), 0x5a6c6561, Pair(0x4e304879, 0xaa360847));
    Absorbed(s0, m, 2, Pair(0x4e304879, 0xaa360847), 0x00000000, Pair(0x122b940a, 0x46a5ca4e));
    MicBytes(0x122b940a, 0x46a5ca4e, [0x0a, 0x94, 0x2b, 0x12, 0x4e, 0xca, 0xa5, 0x46]);
  }

  lemma KeyWords(key: seq<bv8>, l: bv32, r: bv32)
    requires |key| == 8 && Le32(key[0], key[1], key[2], key[3]) == l && Le32(key[4], key[5], key[6], key[7]) == r
    ensures Word(key, 0) == l && Word(key, 4) == r
  {
  }

  lemma MicBytes(l: bv32, r: bv32, mic: seq<bv8>)
    requires |mic| == 8 && PutLe32(l) == mic[..4] && PutLe32(r) == mic[4..]
    ensures PutLe32(l) + PutLe32(r) == mic
  {
  }

  /** One more word is absorbed. */
  lemma Absorbed(start: Pair, m: seq<bv8>, k: nat, s: Pair, w: bv32, t: Pair)
    requires 4 * (k + 1) <= |m| && Fold(start, m, k) == s && Word(m, 4 * k) == w && Absorb(s, w) == t
    ensures Fold(start, m, k + 1) == t
  {
  }

  // ------------------------------------------------------------------ the frame of the test vector

  /** hostap/wlantest/test_vectors.c:20-45: the temporal key, the header and the payload of a data frame from an AP. */
  function FrameKey(): seq<bv8> {
    [0x12, 0x34, 0x56, 0x78, 0x90, 0x12, 0x34, 0x56, 0x78, 0x90, 0x12, 0x34, 0x56, 0x78, 0x90, 0x12,
     0x34, 0x56, 0x78, 0x90, 0x12, 0x34, 0x56, 0x78, 0x90, 0x12, 0x34, 0x56, 0x78, 0x90, 0x12, 0x34]
  }

  function FrameHeader(): seq<bv8> {
    [0x08, 0x42, 0x2c, 0x00, 0x02, 0x03, 0x04, 0x05, 0x06, 0x08, 0x02, 0x03, 0x04, 0x05, 0x06, 0x07,
     0x02, 0x03, 0x04, 0x05, 0x06, 0x07, 0xd0, 0x02]
  }

  function Part0(): seq<bv8> { [0xaa, 0xaa, 0x03, 0x00, 0x00, 0x00, 0x08, 0x00, 0x45, 0x00, 0x00, 0x54, 0x00, 0x00,
          0x40, 0x00] }

  function Part1(): seq<bv8> { [0x40, 0x01, 0xa5, 0x55, 0xc0, 0xa8, 0x0a, 0x02, 0xc0, 0xa8, 0x0a, 0x01, 0x08, 0x00,
          0x3a, 0xb0] }

  function Part2(): seq<bv8> { [0x00, 0x00, 0x00, 0x00, 0xcd, 0x4c, 0x05, 0x00, 0x00, 0x00, 0x00, 0x00, 0x08, 0x09,
          0x0a, 0x0b] }

  function Part3(): seq<bv8> { [0x0c, 0x0d, 0x0e, 0x0f, 0x10, 0x11, 0x12, 0x13, 0x14, 0x15, 0x16, 0x17, 0x18, 0x19,
          0x1a, 0x1b] }

  function Part4(): seq<bv8> { [0x1c, 0x1d, 0x1e, 0x1f, 0x20, 0x21, 0x22, 0x23, 0x24, 0x25, 0x26, 0x27, 0x28, 0x29,
          0x2a, 0x2b] }

  function Part5(): seq<bv8> { [0x2c, 0x2d, 0x2e, 0x2f, 0x30, 0x31, 0x32, 0x33, 0x34, 0x35, 0x36, 0x37] }

  function Payload(): seq<bv8> {
    Part0() + Part1() + Part2() + Part3() + Part4() + Part5()
  }

  /** What Michael reads of that frame. */
  function Pseudo(): seq<bv8> { [0x02, 0x03, 0x04, 0x05, 0x06, 0x08, 0x02, 0x03, 0x04, 0x05, 0x06, 0x07, 0x00,
          0x00, 0x00, 0x00] }

  function MicKeyBytes(): seq<bv8> { [0x34, 0x56, 0x78, 0x90, 0x12, 0x34, 0x56, 0x78] }

  lemma FrameReads()
    ensures IsHeader(FrameHeader()) && |FrameKey()| == 32
    ensures MicKey(FrameKey(), FrameHeader()) == MicKeyBytes() && MichaelHeader(FrameHeader()) == Pseudo()
  {
    var h, tk := FrameHeader(), FrameKey();
    assert FrameControl(h) == 0x4208;
    assert h[4..10] == [0x02, 0x03, 0x04, 0x05, 0x06, 0x08] && h[16..22] == [0x02, 0x03, 0x04, 0x05, 0x06, 0x07];
    assert tk[16..24] == MicKeyBytes();
  }

  /** The end of the payload with its padding, of which one more word follows. */
  function Tail(): seq<bv8> { [0x2c, 0x2d, 0x2e, 0x2f, 0x30, 0x31, 0x32, 0x33, 0x34, 0x35, 0x36, 0x37, 0x5a, 0x00,
          0x00, 0x00] }

  lemma PayloadPadded()
    ensures Padded(Payload()) == Part0() + Part1() + Part2() + Part3() + Part4() + Tail() + Zeros(4)
  {
    assert Zeros(7) == [0, 0, 0, 0, 0, 0, 0];
    assert Tail() == Part5() + [0x5a, 0, 0, 0];
  }

  lemma Chunk0()
    ensures Fold(Pair(0x90785634, 0x78563412), Pseudo(), 4) == Pair(0x3be02433, 0xf5c8b34b)
  {
    ChunkWords0();
    hide Word, Pseudo;
    FourWords(Pair(0x90785634, 0x78563412), Pseudo(), 0x05040302, 0x03020806, 0x07060504, 0x00000000,
              Pair(0x964a5b07, 0xbb74fce1), Pair(0xcde947cf, 0xe377aff9),
              Pair(0x3141d357, 0xe0c4abd5), Pair(0x3be02433, 0xf5c8b34b));
  }

  lemma ChunkWords0()
    ensures |Pseudo()| == 16
    ensures Word(Pseudo(), 0) == 0x05040302 && Word(Pseudo(), 4) == 0x03020806
    ensures Word(Pseudo(), 8) == 0x07060504 && Word(Pseudo(), 12) == 0x00000000
  {
    hide Word;
    var m := Pseudo();
    MessageWord(m, 0, 0x02, 0x03, 0x04, 0x05, 0x05040302);
    MessageWord(m, 1, 0x06, 0x08, 0x02, 0x03, 0x03020806);
    MessageWord(m, 2, 0x04, 0x05, 0x06, 0x07, 0x07060504);
    MessageWord(m, 3, 0x00, 0x00, 0x00, 0x00, 0x00000000);
  }

  lemma Chunk1()
    ensures Fold(Pair(0x3be02433, 0xf5c8b34b), Part0(), 4) == Pair(0xdc8f9b59, 0x7cfdf0a5)
  {
    ChunkWords1();
    hide Word, Part0;
    FourWords(Pair(0x3be02433, 0xf5c8b34b), Part0(), 0x0003aaaa, 0x00080000, 0x54000045, 0x00400000,
              Pair(0x017ed53e, 0xba8a563d), Pair(0xec400715, 0x5c860f4f),
              Pair(0xd4ecce9f, 0xcbcd8bc7), Pair(0xdc8f9b59, 0x7cfdf0a5));
  }

  lemma ChunkWords1()
    ensures |Part0()| == 16
    ensures Word(Part0(), 0) == 0x0003aaaa && Word(Part0(), 4) == 0x00080000
    ensures Word(Part0(), 8) == 0x54000045 && Word(Part0(), 12) == 0x00400000
  {
    hide Word;
    var m := Part0();
    MessageWord(m, 0, 0xaa, 0xaa, 0x03, 0x00, 0x0003aaaa);
    MessageWord(m, 1, 0x00, 0x00, 0x08, 0x00, 0x00080000);
    MessageWord(m, 2, 0x45, 0x00, 0x00, 0x54, 0x54000045);
    MessageWord(m, 3, 0x00, 0x00, 0x40, 0x00, 0x00400000);
  }

  lemma Chunk2()
    ensures Fold(Pair(0xdc8f9b59, 0x7cfdf0a5), Part1(), 4) == Pair(0x58893577, 0x0d81515a)
  {
    ChunkWords2();
    hide Word, Part1;
    FourWords(Pair(0xdc8f9b59, 0x7cfdf0a5), Part1(), 0x55a50140, 0x020aa8c0, 0x010aa8c0, 0xb03a0008,
              Pair(0x8fdd4299, 0x62ef2aca), Pair(0x2499f8c1, 0xadcf76ed),
              Pair(0x2d80b4cf, 0x251c2bea), Pair(0x58893577, 0x0d81515a));
  }

  lemma ChunkWords2()
    ensures |Part1()| == 16
    ensures Word(Part1(), 0) == 0x55a50140 && Word(Part1(), 4) == 0x020aa8c0
    ensures Word(Part1(), 8) == 0x010aa8c0 && Word(Part1(), 12) == 0xb03a0008
  {
    hide Word;
    var m := Part1();
    MessageWord(m, 0, 0x40, 0x01, 0xa5, 0x55, 0x55a50140);
    MessageWord(m, 1, 0xc0, 0xa8, 0x0a, 0x02, 0x020aa8c0);
    MessageWord(m, 2, 0xc0, 0xa8, 0x0a, 0x01, 0x010aa8c0);
    MessageWord(m, 3, 0x08, 0x00, 0x3a, 0xb0, 0xb03a0008);
  }

  lemma Chunk3()
    ensures Fold(Pair(0x58893577, 0x0d81515a), Part2(), 4) == Pair(0xb655eb16, 0x00241ff6)
  {
    ChunkWords3();
    hide Word, Part2;
    FourWords(Pair(0x58893577, 0x0d81515a), Part2(), 0x00000000, 0x00054ccd, 0x00000000, 0x0b0a0908,
              Pair(0x60a81964, 0x9942ac89), Pair(0xaf10210b, 0xee53970e),
              Pair(0x45a0a9cf, 0x8e72a7a4), Pair(0xb655eb16, 0x00241ff6));
  }

  lemma ChunkWords3()
    ensures |Part2()| == 16
    ensures Word(Part2(), 0) == 0x00000000 && Word(Part2(), 4) == 0x00054ccd
    ensures Word(Part2(), 8) == 0x00000000 && Word(Part2(), 12) == 0x0b0a0908
  {
    hide Word;
    var m := Part2();
    MessageWord(m, 0, 0x00, 0x00, 0x00, 0x00, 0x00000000);
    MessageWord(m, 1, 0xcd, 0x4c, 0x05, 0x00, 0x00054ccd);
    MessageWord(m, 2, 0x00, 0x00, 0x00, 0x00, 0x00000000);
    MessageWord(m, 3, 0x08, 0x09, 0x0a, 0x0b, 0x0b0a0908);
  }

  lemma Chunk4()
    ensures Fold(Pair(0xb655eb16, 0x00241ff6), Part3(), 4) == Pair(0xfb34467a, 0xc5211686)
  {
    ChunkWords4();
    hide Word, Part3;
    FourWords(Pair(0xb655eb16, 0x00241ff6), Part3(), 0x0f0e0d0c, 0x13121110, 0x17161514, 0x1b1a1918,
              Pair(0x6a5903a9, 0xa9befcc1), Pair(0x100fcbfa, 0xd96aaa31),
              Pair(0x978d650e, 0xc52b9e9d), Pair(0xfb34467a, 0xc5211686));
  }

  lemma ChunkWords4()
    ensures |Part3()| == 16
    ensures Word(Part3(), 0) == 0x0f0e0d0c && Word(Part3(), 4) == 0x13121110
    ensures Word(Part3(), 8) == 0x17161514 && Word(Part3(), 12) == 0x1b1a1918
  {
    hide Word;
    var m := Part3();
    MessageWord(m, 0, 0x0c, 0x0d, 0x0e, 0x0f, 0x0f0e0d0c);
    MessageWord(m, 1, 0x10, 0x11, 0x12, 0x13, 0x13121110);
    MessageWord(m, 2, 0x14, 0x15, 0x16, 0x17, 0x17161514);
    MessageWord(m, 3, 0x18, 0x19, 0x1a, 0x1b, 0x1b1a1918);
  }

  lemma Chunk5()
    ensures Fold(Pair(0xfb34467a, 0xc5211686), Part4(), 4) == Pair(0xa73e416d, 0x8b3796d8)
  {
    ChunkWords5();
    hide Word, Part4;
    FourWords(Pair(0xfb34467a, 0xc5211686), Part4(), 0x1f1e1d1c, 0x23222120, 0x27262524, 0x2b2a2928,
              Pair(0x0cdf7cbb, 0xcd3d6bae), Pair(0xc4c1237a, 0x44ebff62),
              Pair(0xd8d92293, 0xbe5ff278), Pair(0xa73e416d, 0x8b3796d8));
  }

  lemma ChunkWords5()
    ensures |Part4()| == 16
    ensures Word(Part4(), 0) == 0x1f1e1d1c && Word(Part4(), 4) == 0x23222120
    ensures Word(Part4(), 8) == 0x27262524 && Word(Part4(), 12) == 0x2b2a2928
  {
    hide Word;
    var m := Part4();
    MessageWord(m, 0, 0x1c, 0x1d, 0x1e, 0x1f, 0x1f1e1d1c);
    MessageWord(m, 1, 0x20, 0x21, 0x22, 0x23, 0x23222120);
    MessageWord(m, 2, 0x24, 0x25, 0x26, 0x27, 0x27262524);
    MessageWord(m, 3, 0x28, 0x29, 0x2a, 0x2b, 0x2b2a2928);
  }

  lemma Chunk6()
    ensures Fold(Pair(0xa73e416d, 0x8b3796d8), Tail(), 4) == Pair(0x83e2ff57, 0x19d5a193)
  {
    ChunkWords6();
    hide Word, Tail;
    FourWords(Pair(0xa73e416d, 0x8b3796d8), Tail(), 0x2f2e2d2c, 0x33323130, 0x37363534, 0x0000005a,
              Pair(0xb0b47a5f, 0x2eb59af3), Pair(0xc06f5f95, 0xd1e56bdf),
              Pair(0x490674c6, 0x0ff2a259), Pair(0x83e2ff57, 0x19d5a193));
  }

  lemma ChunkWords6()
    ensures |Tail()| == 16
    ensures Word(Tail(), 0) == 0x2f2e2d2c && Word(Tail(), 4) == 0x33323130
    ensures Word(Tail(), 8) == 0x37363534 && Word(Tail(), 12) == 0x0000005a
  {
    hide Word;
    var m := Tail();
    MessageWord(m, 0, 0x2c, 0x2d, 0x2e, 0x2f, 0x2f2e2d2c);
    MessageWord(m, 1, 0x30, 0x31, 0x32, 0x33, 0x33323130);
    MessageWord(m, 2, 0x34, 0x35, 0x36, 0x37, 0x37363534);
    MessageWord(m, 3, 0x5a, 0x00, 0x00, 0x00, 0x0000005a);
  }

  lemma Chunk7()
    ensures Fold(Pair(0x83e2ff57, 0x19d5a193), Zeros(4), 1) == Pair(0xf3a38168, 0x3cd048d6)
  {
    var m := Zeros(4);
    var s0 := Pair(0x83e2ff57, 0x19d5a193);
    MessageWord(m, 0, 0x00, 0x00, 0x00, 0x00, 0x00000000);
    hide Word, Zeros;
    Absorbed(s0, m, 0, Pair(0x83e2ff57, 0x19d5a193), 0x00000000, Pair(0xf3a38168, 0x3cd048d6));
  }

  /** Four words are absorbed. */
  lemma FourWords(s: Pair, m: seq<bv8>, w0: bv32, w1: bv32, w2: bv32, w3: bv32, s1: Pair, s2: Pair, s3: Pair,
          s4: Pair)
    requires |m| == 16 && Word(m, 0) == w0 && Word(m, 4) == w1 && Word(m, 8) == w2 && Word(m, 12) == w3
    requires Absorb(s, w0) == s1 && Absorb(s1, w1) == s2 && Absorb(s2, w2) == s3 && Absorb(s3, w3) == s4
    ensures Fold(s, m, 4) == s4
  {
    hide Absorb, Word;
    assert Fold(s, m, 0) == s;
    Absorbed(s, m, 0, s, w0, s1);
    Absorbed(s, m, 1, s1, w1, s2);
    Absorbed(s, m, 2, s2, w2, s3);
    Absorbed(s, m, 3, s3, w3, s4);
  }

  lemma MessageWord(m: seq<bv8>, k: nat, b0: bv8, b1: bv8, b2: bv8, b3: bv8, w: bv32)
    requires 4 * k + 4 <= |m| && m[4 * k] == b0 && m[4 * k + 1] == b1 && m[4 * k + 2] == b2 && m[4 * k + 3] == b3
    requires Le32(b0, b1, b2, b3) == w
    ensures Word(m, 4 * k) == w
  {
  }

  /** A fold may be taken in pieces. */
  lemma {:induction false} FoldSplit(s: Pair, a: seq<bv8>, b: seq<bv8>, i: nat, k: nat)
    requires |a| == 4 * i && 4 * k <= |b|
    ensures Fold(s, a + b, i + k) == Fold(Fold(s, a, i), b, k)
    decreases k
  {
    hide Absorb, Word;
    if k == 0 {
      FoldPrefix(s, a, b, i, i);
    } else {
      FoldSplit(s, a, b, i, k - 1);
      SameWordIn(a + b, b, 4 * (i + k - 1), 4 * (k - 1));
    }
  }

  lemma {:induction false} FoldPrefix(s: Pair, a: seq<bv8>, b: seq<bv8>, i: nat, k: nat)
    requires |a| == 4 * i && k <= i
    ensures Fold(s, a + b, k) == Fold(s, a, k)
    decreases k
  {
    hide Absorb, Word;
    if k > 0 {
      FoldPrefix(s, a, b, i, k - 1);
      SameWordIn(a + b, a, 4 * (k - 1), 4 * (k - 1));
    }
  }

  lemma SameWordIn(s: seq<bv8>, t: seq<bv8>, i: nat, j: nat)
    requires i + 4 <= |s| && j + 4 <= |t|
    requires s[i] == t[j] && s[i + 1] == t[j + 1] && s[i + 2] == t[j + 2] && s[i + 3] == t[j + 3]
    ensures Word(s, i) == Word(t, j)
  {
  }

  lemma FoldJoin(s: Pair, a: seq<bv8>, i: nat, t: Pair, b: seq<bv8>, k: nat, u: Pair)
    requires |a| == 4 * i && |b| == 4 * k && Fold(s, a, i) == t && Fold(t, b, k) == u
    ensures Fold(s, a + b, i + k) == u
  {
    FoldSplit(s, a, b, i, k);
  }

  /** The fold over the whole message. */
  lemma FrameFold()
    ensures |Pseudo()| == 16 && |Padded(Payload())| == 100
    ensures Fold(Pair(0x90785634, 0x78563412), Pseudo() + Padded(Payload()), 29) == Pair(0xf3a38168, 0x3cd048d6)
  {
    PayloadPadded();
    PartLengths();
    hide Fold, Padded, Pseudo, Part0, Part1, Part2, Part3, Part4, Tail, Zeros, Payload;
    Chunk0();
    Chunk1();
    Chunk2();
    Chunk3();
    Chunk4();
    Chunk5();
    Chunk6();
    Chunk7();
    var s0 := Pair(0x90785634, 0x78563412);
    var m0 := Pseudo();
    var m1 := m0 + Part0();
    FoldJoin(s0, m0, 4, Pair(0x3be02433, 0xf5c8b34b), Part0(), 4, Pair(0xdc8f9b59, 0x7cfdf0a5));
    var m2 := m1 + Part1();
    FoldJoin(s0, m1, 8, Pair(0xdc8f9b59, 0x7cfdf0a5), Part1(), 4, Pair(0x58893577, 0x0d81515a));
    var m3 := m2 + Part2();
    FoldJoin(s0, m2, 12, Pair(0x58893577, 0x0d81515a), Part2(), 4, Pair(0xb655eb16, 0x00241ff6));
    var m4 := m3 + Part3();
    FoldJoin(s0, m3, 16, Pair(0xb655eb16, 0x00241ff6), Part3(), 4, Pair(0xfb34467a, 0xc5211686));
    var m5 := m4 + Part4();
    FoldJoin(s0, m4, 20, Pair(0xfb34467a, 0xc5211686), Part4(), 4, Pair(0xa73e416d, 0x8b3796d8));
    var m6 := m5 + Tail();
    FoldJoin(s0, m5, 24, Pair(0xa73e416d, 0x8b3796d8), Tail(), 4, Pair(0x83e2ff57, 0x19d5a193));
    var m7 := m6 + Zeros(4);
    FoldJoin(s0, m6, 28, Pair(0x83e2ff57, 0x19d5a193), Zeros(4), 1, Pair(0xf3a38168, 0x3cd048d6));
    assert Pseudo() + Padded(Payload()) == m7;
  }

  /** The MIC that the test vector gives for the frame. */
  lemma FrameVector()
    ensures IsHeader(FrameHeader()) && |FrameKey()| == 32
    ensures Mic(MicKey(FrameKey(), FrameHeader()), MichaelHeader(FrameHeader()), Payload())
            == [0x68, 0x81, 0xa3, 0xf3, 0xd6, 0x48, 0xd0, 0x3c]
  {
    FrameReads();
    KeyWords(MicKeyBytes(), 0x90785634, 0x78563412);
    FrameFold();
    MicBytes(0xf3a38168, 0x3cd048d6, [0x68, 0x81, 0xa3, 0xf3, 0xd6, 0x48, 0xd0, 0x3c]);
    hide Fold, Padded, Word, PutLe32, MicKey, MichaelHeader, FrameHeader, FrameKey, IsHeader, MicKeyBytes, Pseudo;
    hide Payload;
  }

  lemma PartLengths()
    ensures |MicKeyBytes()| == 8 && |Pseudo()| == 16 && |Tail()| == 16 && |Zeros(4)| == 4
    ensures |Part0()| == 16 && |Part1()| == 16 && |Part2()| == 16 && |Part3()| == 16 && |Part4()| == 16
  {
  }

  // ------------------------------------------------------------------ key mixing

  const MIX_TK: seq<bv8> := [0x00, 0x01, 0x02, 0x03, 0x04, 0x05, 0x06, 0x07, 0x08, 0x09, 0x0a, 0x0b, 0x0c, 0x0d,
          0x0e, 0x0f]

  const MIX_TA: seq<bv8> := [0x10, 0x22, 0x33, 0x44, 0x55, 0x66]

  /** Phase 1 of the published vectors 1 and 2. */
  lemma Phase1Vector()
    ensures Phase1(S, MIX_TK, MIX_TA, 0) == Ttak(0x3dd2, 0x016e, 0x76f4, 0x8697, 0xb2e8)
  {
    var t0 := Start(MIX_TA, 0);
    assert t0 == Ttak(0x0000, 0x0000, 0x2210, 0x4433, 0x6655);
    hide Round;
    Round0();
    Round1();
    Round2();
    Round3();
    Round4();
    Round5();
    Round6();
    Round7();
    assert Rounds(S, MIX_TK, t0, 1) == Ttak(0x770e, 0x0e29, 0xd79d, 0x2469, 0x0ec3);
    assert Rounds(S, MIX_TK, t0, 2) == Ttak(0x094b, 0x499c, 0x2790, 0x6ede, 0x62ad);
    assert Rounds(S, MIX_TK, t0, 3) == Ttak(0x3094, 0xab33, 0xb8d9, 0xd192, 0x70e0);
    assert Rounds(S, MIX_TK, t0, 4) == Ttak(0xd24a, 0x02b0, 0xa8de, 0xd5ba, 0x4a26);
    assert Rounds(S, MIX_TK, t0, 5) == Ttak(0x0dc9, 0x346c, 0x9869, 0xba3d, 0xb5d0);
    assert Rounds(S, MIX_TK, t0, 6) == Ttak(0xb121, 0x863f, 0x6884, 0x22d0, 0x22fa);
    assert Rounds(S, MIX_TK, t0, 7) == Ttak(0xe15c, 0xf5ab, 0x47e9, 0xeb97, 0xbc96);
    assert Rounds(S, MIX_TK, t0, 8) == Ttak(0x3dd2, 0x016e, 0x76f4, 0x8697, 0xb2e8);
  }

  lemma Round0()
    ensures Round(S, MIX_TK, Ttak(0x0000, 0x0000, 0x2210, 0x4433, 0x6655), 0)
            == Ttak(0x770e, 0x0e29, 0xd79d, 0x2469, 0x0ec3)
  {
    Entries0();
    hide S;
    RoundIs(S, MIX_TK, Ttak(0x0000, 0x0000, 0x2210, 0x4433, 0x6655), 0, 0x0100, 0x0504, 0x0908, 0x0d0c, 0x770e,
            0x0e29, 0xb58d, 0xe036, 0xa86e, Ttak(0x770e, 0x0e29, 0xd79d, 0x2469, 0x0ec3));
  }

  lemma Entries0()
    ensures S(0x6755) == 0x770e && S(0x720a) == 0x0e29 && S(0x0721) == 0xb58d
    ensures S(0xda91) == 0xe036 && S(0x2569) == 0xa86e
  {
    hide S;
    FirstEntries0();
    LastEntries0();
  }

  lemma FirstEntries0()
    ensures S(0x6755) == 0x770e && S(0x720a) == 0x0e29 && S(0x0721) == 0xb58d
  {
  }

  lemma LastEntries0()
    ensures S(0xda91) == 0xe036 && S(0x2569) == 0xa86e
  {
  }

  lemma Round1()
    ensures Round(S, MIX_TK, Ttak(0x770e, 0x0e29, 0xd79d, 0x2469, 0x0ec3), 1)
            == Ttak(0x094b, 0x499c, 0x2790, 0x6ede, 0x62ad)
  {
    Entries1();
    hide S;
    RoundIs(S, MIX_TK, Ttak(0x770e, 0x0e29, 0xd79d, 0x2469, 0x0ec3), 1, 0x0302, 0x0706, 0x0b0a, 0x0f0e, 0x923d,
            0x3b73, 0x4ff3, 0x4a75, 0x53e9, Ttak(0x094b, 0x499c, 0x2790, 0x6ede, 0x62ad));
  }

  lemma Entries1()
    ensures S(0x0dc1) == 0x923d && S(0x0e4d) == 0x3b73 && S(0x4296) == 0x4ff3
    ensures S(0x289e) == 0x4a75 && S(0x6ddc) == 0x53e9
  {
    hide S;
    FirstEntries1();
    LastEntries1();
  }

  lemma FirstEntries1()
    ensures S(0x0dc1) == 0x923d && S(0x0e4d) == 0x3b73 && S(0x4296) == 0x4ff3
  {
  }

  lemma LastEntries1()
    ensures S(0x289e) == 0x4a75 && S(0x6ddc) == 0x53e9
  {
  }

  lemma Round2()
    ensures Round(S, MIX_TK, Ttak(0x094b, 0x499c, 0x2790, 0x6ede, 0x62ad), 2)
            == Ttak(0x3094, 0xab33, 0xb8d9, 0xd192, 0x70e0)
  {
    Entries2();
    hide S;
    RoundIs(S, MIX_TK, Ttak(0x094b, 0x499c, 0x2790, 0x6ede, 0x62ad), 2, 0x0100, 0x0504, 0x0908, 0x0d0c, 0x2749,
            0x6197, 0x9149, 0x62b4, 0x0e31, Ttak(0x3094, 0xab33, 0xb8d9, 0xd192, 0x70e0));
  }

  lemma Entries2()
    ensures S(0x63ad) == 0x2749 && S(0x3590) == 0x6197 && S(0xa23b) == 0x9149
    ensures S(0xb5d5) == 0x62b4 && S(0xd092) == 0x0e31
  {
    hide S;
    FirstEntries2();
    LastEntries2();
  }

  lemma FirstEntries2()
    ensures S(0x63ad) == 0x2749 && S(0x3590) == 0x6197 && S(0xa23b) == 0x9149
  {
  }

  lemma LastEntries2()
    ensures S(0xb5d5) == 0x62b4 && S(0xd092) == 0x0e31
  {
  }

  lemma Round3()
    ensures Round(S, MIX_TK, Ttak(0x3094, 0xab33, 0xb8d9, 0xd192, 0x70e0), 3)
            == Ttak(0xd24a, 0x02b0, 0xa8de, 0xd5ba, 0x4a26)
  {
    Entries3();
    hide S;
    RoundIs(S, MIX_TK, Ttak(0x3094, 0xab33, 0xb8d9, 0xd192, 0x70e0), 3, 0x0302, 0x0706, 0x0b0a, 0x0f0e, 0xa1b6,
            0x577d, 0xf005, 0x0428, 0xd943, Ttak(0xd24a, 0x02b0, 0xa8de, 0xd5ba, 0x4a26));
  }

  lemma Entries3()
    ensures S(0x73e2) == 0xa1b6 && S(0xd54c) == 0x577d && S(0x09ba) == 0xf005
    ensures S(0xa7d0) == 0x0428 && S(0xd6b8) == 0xd943
  {
    hide S;
    FirstEntries3();
    LastEntries3();
  }

  lemma FirstEntries3()
    ensures S(0x73e2) == 0xa1b6 && S(0xd54c) == 0x577d && S(0x09ba) == 0xf005
  {
  }

  lemma LastEntries3()
    ensures S(0xa7d0) == 0x0428 && S(0xd6b8) == 0xd943
  {
  }

  lemma Round4()
    ensures Round(S, MIX_TK, Ttak(0xd24a, 0x02b0, 0xa8de, 0xd5ba, 0x4a26), 4)
            == Ttak(0x0dc9, 0x346c, 0x9869, 0xba3d, 0xb5d0)
  {
    Entries4();
    hide S;
    RoundIs(S, MIX_TK, Ttak(0xd24a, 0x02b0, 0xa8de, 0xd5ba, 0x4a26), 4, 0x0100, 0x0504, 0x0908, 0x0d0c, 0x3b7f,
            0x31bc, 0xef8b, 0xe483, 0x6ba6, Ttak(0x0dc9, 0x346c, 0x9869, 0xba3d, 0xb5d0));
  }

  lemma Entries4()
    ensures S(0x4b26) == 0x3b7f && S(0x08cd) == 0x31bc && S(0x3d64) == 0xef8b
    ensures S(0x9565) == 0xe483 && S(0xbb3d) == 0x6ba6
  {
    hide S;
    FirstEntries4();
    LastEntries4();
  }

  lemma FirstEntries4()
    ensures S(0x4b26) == 0x3b7f && S(0x08cd) == 0x31bc && S(0x3d64) == 0xef8b
  {
  }

  lemma LastEntries4()
    ensures S(0x9565) == 0xe483 && S(0xbb3d) == 0x6ba6
  {
  }

  lemma Round5()
    ensures Round(S, MIX_TK, Ttak(0x0dc9, 0x346c, 0x9869, 0xba3d, 0xb5d0), 5)
            == Ttak(0xb121, 0x863f, 0x6884, 0x22d0, 0x22fa)
  {
    Entries5();
    hide S;
    RoundIs(S, MIX_TK, Ttak(0x0dc9, 0x346c, 0x9869, 0xba3d, 0xb5d0), 5, 0x0302, 0x0706, 0x0b0a, 0x0f0e, 0xa358,
            0x51d3, 0xd01b, 0x6893, 0x6d25, Ttak(0xb121, 0x863f, 0x6884, 0x22d0, 0x22fa));
  }

  lemma Entries5()
    ensures S(0xb6d2) == 0xa358 && S(0xb627) == 0x51d3 && S(0x8d35) == 0xd01b
    ensures S(0x678a) == 0x6893 && S(0x21d2) == 0x6d25
  {
    hide S;
    FirstEntries5();
    LastEntries5();
  }

  lemma FirstEntries5()
    ensures S(0xb6d2) == 0xa358 && S(0xb627) == 0x51d3 && S(0x8d35) == 0xd01b
  {
  }

  lemma LastEntries5()
    ensures S(0x678a) == 0x6893 && S(0x21d2) == 0x6d25
  {
  }

  lemma Round6()
    ensures Round(S, MIX_TK, Ttak(0xb121, 0x863f, 0x6884, 0x22d0, 0x22fa), 6)
            == Ttak(0xe15c, 0xf5ab, 0x47e9, 0xeb97, 0xbc96)
  {
    Entries6();
    hide S;
    RoundIs(S, MIX_TK, Ttak(0xb121, 0x863f, 0x6884, 0x22d0, 0x22fa), 6, 0x0100, 0x0504, 0x0908, 0x0d0c, 0x303b,
            0x6f6c, 0xdf65, 0xc8c7, 0x9996, Ttak(0xe15c, 0xf5ab, 0x47e9, 0xeb97, 0xbc96));
  }

  lemma Entries6()
    ensures S(0x23fa) == 0x303b && S(0xe458) == 0x6f6c && S(0xfca3) == 0xdf65
    ensures S(0x4ae5) == 0xc8c7 && S(0xea97) == 0x9996
  {
    hide S;
    FirstEntries6();
    LastEntries6();
  }

  lemma FirstEntries6()
    ensures S(0x23fa) == 0x303b && S(0xe458) == 0x6f6c && S(0xfca3) == 0xdf65
  {
  }

  lemma LastEntries6()
    ensures S(0x4ae5) == 0xc8c7 && S(0xea97) == 0x9996
  {
  }

  lemma Round7()
    ensures Round(S, MIX_TK, Ttak(0xe15c, 0xf5ab, 0x47e9, 0xeb97, 0xbc96), 7)
            == Ttak(0x3dd2, 0x016e, 0x76f4, 0x8697, 0xb2e8)
  {
    Entries7();
    hide S;
    RoundIs(S, MIX_TK, Ttak(0xe15c, 0xf5ab, 0x47e9, 0xeb97, 0xbc96), 7, 0x0302, 0x0706, 0x0b0a, 0x0f0e, 0x5c76,
            0x0bc3, 0x2f0b, 0x9b00, 0xf64b, Ttak(0x3dd2, 0x016e, 0x76f4, 0x8697, 0xb2e8));
  }

  lemma Entries7()
    ensures S(0xbf94) == 0x5c76 && S(0x3ad4) == 0x0bc3 && S(0x0a64) == 0x2f0b
    ensures S(0x79fa) == 0x9b00 && S(0x8595) == 0xf64b
  {
    hide S;
    FirstEntries7();
    LastEntries7();
  }

  lemma FirstEntries7()
    ensures S(0xbf94) == 0x5c76 && S(0x3ad4) == 0x0bc3 && S(0x0a64) == 0x2f0b
  {
  }

  lemma LastEntries7()
    ensures S(0x79fa) == 0x9b00 && S(0x8595) == 0xf64b
  {
  }

  lemma RoundIs(s: bv16 -> bv16, tk: seq<bv8>, t: Ttak, i: nat, k0: bv16, k1: bv16, k2: bv16, k3: bv16,
                x0: bv16, x1: bv16, x2: bv16, x3: bv16, x4: bv16, u: Ttak)
    requires |tk| >= 16 && i < 8
    requires var j := 2 * (i % 2);
             && Mk16(tk[1 + j], tk[0 + j]) == k0 && Mk16(tk[5 + j], tk[4 + j]) == k1
             && Mk16(tk[9 + j], tk[8 + j]) == k2 && Mk16(tk[13 + j], tk[12 + j]) == k3
    requires s(TkipMixing.Xor(t.w4, k0)) == x0 && u.w0 == TkipMixing.Plus(t.w0, x0)
    requires s(TkipMixing.Xor(u.w0, k1)) == x1 && u.w1 == TkipMixing.Plus(t.w1, x1)
    requires s(TkipMixing.Xor(u.w1, k2)) == x2 && u.w2 == TkipMixing.Plus(t.w2, x2)
    requires s(TkipMixing.Xor(u.w2, k3)) == x3 && u.w3 == TkipMixing.Plus(t.w3, x3)
    requires s(TkipMixing.Xor(u.w3, k0)) == x4 && u.w4 == TkipMixing.Plus(t.w4, TkipMixing.Plus(x4, i as bv16))
    ensures Round(s, tk, t, i) == u
  {
    hide TkipMixing.Plus, TkipMixing.Xor, Mk16;
  }

  lemma MixIs(s: bv16 -> bv16, tk: seq<bv8>, p: Ppk, k0: bv16, k1: bv16, k2: bv16, k3: bv16, k4: bv16, k5: bv16,
              x0: bv16, x1: bv16, x2: bv16, x3: bv16, x4: bv16, x5: bv16, q: Ppk)
    requires |tk| >= 16 && TkWord(tk, 0) == k0 && TkWord(tk, 1) == k1 && TkWord(tk, 2) == k2
    requires TkWord(tk, 3) == k3 && TkWord(tk, 4) == k4 && TkWord(tk, 5) == k5
    requires s(TkipMixing.Xor(p.w5, k0)) == x0 && q.w0 == TkipMixing.Plus(p.w0, x0)
    requires s(TkipMixing.Xor(q.w0, k1)) == x1 && q.w1 == TkipMixing.Plus(p.w1, x1)
    requires s(TkipMixing.Xor(q.w1, k2)) == x2 && q.w2 == TkipMixing.Plus(p.w2, x2)
    requires s(TkipMixing.Xor(q.w2, k3)) == x3 && q.w3 == TkipMixing.Plus(p.w3, x3)
    requires s(TkipMixing.Xor(q.w3, k4)) == x4 && q.w4 == TkipMixing.Plus(p.w4, x4)
    requires s(TkipMixing.Xor(q.w4, k5)) == x5 && q.w5 == TkipMixing.Plus(p.w5, x5)
    ensures Mix(s, tk, p) == q
  {
    hide TkipMixing.Plus, TkipMixing.Xor, TkWord;
  }

  lemma Phase2Vector0()
    ensures Phase2(S, MIX_TK, Ttak(0x3dd2, 0x016e, 0x76f4, 0x8697, 0xb2e8), 0)
            == [0x00, 0x20, 0x00, 0x33, 0xea, 0x8d, 0x2f, 0x60, 0xca, 0x6d, 0x13, 0x74, 0x23, 0x4a, 0x66, 0x0b]
  {
    var p0, p1, p2 := Extended(Ttak(0x3dd2, 0x016e, 0x76f4, 0x8697, 0xb2e8), 0), Ppk(0xd83e, 0x1ebd, 0xbdb3,
            0x3d2e, 0x901a, 0x6655), Ppk(0x8dea, 0x602f, 0x6dca, 0x7413, 0x4a23, 0x0b66);
    MixVector0();
    RotateVector0();
    hide Mix, Rotate;
    assert CleartextIv(0) == [0x00, 0x20, 0x00];
    assert FourthByte(MIX_TK, p2) == 0x33;
    LayoutVector0();
  }

  lemma MixVector0()
    ensures Mix(S, MIX_TK, Extended(Ttak(0x3dd2, 0x016e, 0x76f4, 0x8697, 0xb2e8), 0))
            == Ppk(0xd83e, 0x1ebd, 0xbdb3, 0x3d2e, 0x901a, 0x6655)
  {
    MixIs(S, MIX_TK, Ppk(0x3dd2, 0x016e, 0x76f4, 0x8697, 0xb2e8, 0xb2e8), 0x0100, 0x0302, 0x0504, 0x0706, 0x0908,
            0x0b0a, 0x9a6c, 0x1d4f, 0x46bf, 0xb697, 0xdd32, 0xb36d, Ppk(0xd83e, 0x1ebd, 0xbdb3, 0x3d2e, 0x901a,
            0x6655));
  }

  lemma RotateVector0()
    ensures Rotate(MIX_TK, Ppk(0xd83e, 0x1ebd, 0xbdb3, 0x3d2e, 0x901a, 0x6655))
            == Ppk(0x8dea, 0x602f, 0x6dca, 0x7413, 0x4a23, 0x0b66)
  {
  }

  lemma LayoutVector0()
    ensures Layout([0x00, 0x20, 0x00, 0x33], Ppk(0x8dea, 0x602f, 0x6dca, 0x7413, 0x4a23, 0x0b66))
            == [0x00, 0x20, 0x00, 0x33, 0xea, 0x8d, 0x2f, 0x60, 0xca, 0x6d, 0x13, 0x74, 0x23, 0x4a, 0x66, 0x0b]
  {
  }

  lemma Phase2Vector1()
    ensures Phase2(S, MIX_TK, Ttak(0x3dd2, 0x016e, 0x76f4, 0x8697, 0xb2e8), 1)
            == [0x00, 0x20, 0x01, 0x90, 0xff, 0xdc, 0x31, 0x43, 0x89, 0xa9, 0xd9, 0xd0, 0x74, 0xfd, 0x20, 0xaa]
  {
    var p0, p1, p2 := Extended(Ttak(0x3dd2, 0x016e, 0x76f4, 0x8697, 0xb2e8), 1), Ppk(0xc9ca, 0x5939, 0x07f1,
            0xfc15, 0x1508, 0x2b66), Ppk(0xdcff, 0x4331, 0xa989, 0xd0d9, 0xfd74, 0xaa20);
    MixVector1();
    RotateVector1();
    hide Mix, Rotate;
    assert CleartextIv(1) == [0x00, 0x20, 0x01];
    assert FourthByte(MIX_TK, p2) == 0x90;
    LayoutVector1();
  }

  lemma MixVector1()
    ensures Mix(S, MIX_TK, Extended(Ttak(0x3dd2, 0x016e, 0x76f4, 0x8697, 0xb2e8), 1))
            == Ppk(0xc9ca, 0x5939, 0x07f1, 0xfc15, 0x1508, 0x2b66)
  {
    MixIs(S, MIX_TK, Ppk(0x3dd2, 0x016e, 0x76f4, 0x8697, 0xb2e8, 0xb2e9), 0x0100, 0x0302, 0x0504, 0x0706, 0x0908,
            0x0b0a, 0x8bf8, 0x57cb, 0x90fd, 0x757e, 0x6220, 0x787d, Ppk(0xc9ca, 0x5939, 0x07f1, 0xfc15, 0x1508,
            0x2b66));
  }

  lemma RotateVector1()
    ensures Rotate(MIX_TK, Ppk(0xc9ca, 0x5939, 0x07f1, 0xfc15, 0x1508, 0x2b66))
            == Ppk(0xdcff, 0x4331, 0xa989, 0xd0d9, 0xfd74, 0xaa20)
  {
  }

  lemma LayoutVector1()
    ensures Layout([0x00, 0x20, 0x01, 0x90], Ppk(0xdcff, 0x4331, 0xa989, 0xd0d9, 0xfd74, 0xaa20))
            == [0x00, 0x20, 0x01, 0x90, 0xff, 0xdc, 0x31, 0x43, 0x89, 0xa9, 0xd9, 0xd0, 0x74, 0xfd, 0x20, 0xaa]
  {
  }

  /** The RC4 keys of the published vectors: packet numbers 0 and 1. */
  lemma PacketKeyVectors()
    ensures PacketKey(S, MIX_TK, MIX_TA, 0, 0) == [0x00, 0x20, 0x00, 0x33, 0xea, 0x8d, 0x2f, 0x60, 0xca, 0x6d,
            0x13, 0x74, 0x23, 0x4a, 0x66, 0x0b]
    ensures PacketKey(S, MIX_TK, MIX_TA, 0, 1) == [0x00, 0x20, 0x01, 0x90, 0xff, 0xdc, 0x31, 0x43, 0x89, 0xa9,
            0xd9, 0xd0, 0x74, 0xfd, 0x20, 0xaa]
  {
    hide Phase1, Phase2;
    Phase1Vector();
    Phase2Vector0();
    Phase2Vector1();
  }
}
