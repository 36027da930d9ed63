/** TKIP per-packet key mixing: hostap/wlantest/tkip.c tkip_mixing_phase1 and tkip_mixing_phase2. The S-box lookup
    _S_ is the parameter s; nothing proved here depends on its table. */
module TkipMixing {
  type Bytes = seq<bv8>

  function Lo8(v: bv16): bv8 { (v & 0xff) as bv8 }

  function Hi8(v: bv16): bv8 { (v >> 8) as bv8 }

  function Lo16(v: bv32): bv16 { (v & 0xffff) as bv16 }

  function Hi16(v: bv32): bv16 { (v >> 16) as bv16 }

  function Mk16(hi: bv8, lo: bv8): bv16 { (lo as bv16) | ((hi as bv16) << 8) }

  lemma SplitWord(hi: bv8, lo: bv8)
    ensures Hi8(Mk16(hi, lo)) == hi && Lo8(Mk16(hi, lo)) == lo
  {
  }

  /** Addition modulo 2^16. */
  function Plus(x: bv16, y: bv16): bv16 { x + y }

  function Xor(x: bv16, y: bv16): bv16 { x ^ y }

  function Minus(x: bv16, y: bv16): bv16 { x - y }

  lemma PlusCancels(x: bv16, y: bv16, z: bv16)
    ensures Plus(x, z) == Plus(y, z) ==> x == y
  {
    hide Minus, Plus;
    PlusMinus(x, z);
    PlusMinus(y, z);
  }

  lemma PlusMinus(x: bv16, z: bv16)
    ensures Minus(Plus(x, z), z) == x
  {
    hide Minus;
    MinusOfSum(x, z);
  }

  lemma MinusOfSum(x: bv16, z: bv16)
    ensures Minus(x + z, z) == x
  {
  }

  function RotateRight1(v: bv16): bv16 { (v >> 1) | (v << 15) }

  /** Word i of the temporal key, little-endian. */
  function TkWord(tk: Bytes, i: nat): bv16
    requires 2 * i + 1 < |tk|
  {
    Mk16(tk[2 * i + 1], tk[2 * i])
  }

  // ------------------------------------------------------------------ phase 1

  datatype Ttak = Ttak(w0: bv16, w1: bv16, w2: bv16, w3: bv16, w4: bv16)

  function Start(ta: Bytes, iv32: bv32): Ttak
    requires |ta| == 6
  {
    Ttak(Lo16(iv32), Hi16(iv32), Mk16(ta[1], ta[0]), Mk16(ta[3], ta[2]), Mk16(ta[5], ta[4]))
  }

  /** Round i of phase 1; j = 2*(i & 1) selects one half of each key word pair. */
  function Round(s: bv16 -> bv16, tk: Bytes, t: Ttak, i: nat): Ttak
    requires |tk| >= 16 && i < 8
  {
    var j := 2 * (i % 2);
    var w0 := Plus(t.w0, s(Xor(t.w4, Mk16(tk[1 + j], tk[0 + j]))));
    var w1 := Plus(t.w1, s(Xor(w0, Mk16(tk[5 + j], tk[4 + j]))));
    var w2 := Plus(t.w2, s(Xor(w1, Mk16(tk[9 + j], tk[8 + j]))));
    var w3 := Plus(t.w3, s(Xor(w2, Mk16(tk[13 + j], tk[12 + j]))));
    var w4 := Plus(t.w4, Plus(s(Xor(w3, Mk16(tk[1 + j], tk[0 + j]))), i as bv16));
    Ttak(w0, w1, w2, w3, w4)
  }

  function Rounds(s: bv16 -> bv16, tk: Bytes, t: Ttak, n: nat): Ttak
    requires |tk| >= 16 && n <= 8
  {
    if n == 0 then t else Round(s, tk, Rounds(s, tk, t, n - 1), n - 1)
  }

  lemma RoundInjective(s: bv16 -> bv16, tk: Bytes, t: Ttak, u: Ttak, i: nat)
    requires |tk| >= 16 && i < 8 && Round(s, tk, t, i) == Round(s, tk, u, i)
    ensures t == u
  {
    hide Plus, Xor, Mk16;
    var j, r := 2 * (i % 2), Round(s, tk, t, i);
    PlusCancels(t.w4, u.w4, Plus(s(Xor(r.w3, Mk16(tk[1 + j], tk[0 + j]))), i as bv16));
    PlusCancels(t.w3, u.w3, s(Xor(r.w2, Mk16(tk[13 + j], tk[12 + j]))));
    PlusCancels(t.w2, u.w2, s(Xor(r.w1, Mk16(tk[9 + j], tk[8 + j]))));
    PlusCancels(t.w1, u.w1, s(Xor(r.w0, Mk16(tk[5 + j], tk[4 + j]))));
    PlusCancels(t.w0, u.w0, s(Xor(t.w4, Mk16(tk[1 + j], tk[0 + j]))));
  }

  /** For a fixed key, phase 1 never merges two starting values, whatever the S-box. */
  lemma {:induction false} Phase1Injective(s: bv16 -> bv16, tk: Bytes, t: Ttak, u: Ttak, n: nat)
    requires |tk| >= 16 && n <= 8 && Rounds(s, tk, t, n) == Rounds(s, tk, u, n)
    ensures t == u
    decreases n
  {
    if n > 0 {
      RoundInjective(s, tk, Rounds(s, tk, t, n - 1), Rounds(s, tk, u, n - 1), n - 1);
      Phase1Injective(s, tk, t, u, n - 1);
    }
  }

  function Phase1(s: bv16 -> bv16, tk: Bytes, ta: Bytes, iv32: bv32): Ttak
    requires |tk| >= 16 && |ta| == 6
  {
    Rounds(s, tk, Start(ta, iv32), 8)
  }

  ghost function Words(a: array<bv16>): Ttak
    requires a.Length == 5
    reads a
  {
    Ttak(a[0], a[1], a[2], a[3], a[4])
  }

  method MixRound(s: bv16 -> bv16, tk: Bytes, ttak: array<bv16>, i: nat)
    requires |tk| >= 16 && ttak.Length == 5 && i < 8
    modifies ttak
    ensures Words(ttak) == Round(s, tk, old(Words(ttak)), i)
  {
    hide Plus, Xor, Mk16;
    var j := 2 * (i % 2);
    ttak[0] := Plus(ttak[0], s(Xor(ttak[4], Mk16(tk[1 + j], tk[0 + j]))));
    ttak[1] := Plus(ttak[1], s(Xor(ttak[0], Mk16(tk[5 + j], tk[4 + j]))));
    ttak[2] := Plus(ttak[2], s(Xor(ttak[1], Mk16(tk[9 + j], tk[8 + j]))));
    ttak[3] := Plus(ttak[3], s(Xor(ttak[2], Mk16(tk[13 + j], tk[12 + j]))));
    ttak[4] := Plus(ttak[4], Plus(s(Xor(ttak[3], Mk16(tk[1 + j], tk[0 + j]))), i as bv16));
  }

  /** hostap/wlantest/tkip.c tkip_mixing_phase1, in place on the five words. */
  method MixPhase1(s: bv16 -> bv16, tk: Bytes, ta: Bytes, iv32: bv32, ttak: array<bv16>)
    requires |tk| >= 16 && |ta| == 6 && ttak.Length == 5
    modifies ttak
    ensures Words(ttak) == Phase1(s, tk, ta, iv32)
  {
    hide Round, Mk16, Lo16, Hi16;
    ttak[0], ttak[1] := Lo16(iv32), Hi16(iv32);
    ttak[2], ttak[3], ttak[4] := Mk16(ta[1], ta[0]), Mk16(ta[3], ta[2]), Mk16(ta[5], ta[4]);
    for i := 0 to 8
      invariant Words(ttak) == Rounds(s, tk, Start(ta, iv32), i)
    {
      MixRound(s, tk, ttak, i);
    }
  }

  // ------------------------------------------------------------------ phase 2

  datatype Ppk = Ppk(w0: bv16, w1: bv16, w2: bv16, w3: bv16, w4: bv16, w5: bv16)

  /** The S-box half of step 2. */
  function Mix(s: bv16 -> bv16, tk: Bytes, p: Ppk): Ppk
    requires |tk| >= 16
  {
    var w0 := Plus(p.w0, s(Xor(p.w5, TkWord(tk, 0))));
    var w1 := Plus(p.w1, s(Xor(w0, TkWord(tk, 1))));
    var w2 := Plus(p.w2, s(Xor(w1, TkWord(tk, 2))));
    var w3 := Plus(p.w3, s(Xor(w2, TkWord(tk, 3))));
    var w4 := Plus(p.w4, s(Xor(w3, TkWord(tk, 4))));
    var w5 := Plus(p.w5, s(Xor(w4, TkWord(tk, 5))));
    Ppk(w0, w1, w2, w3, w4, w5)
  }

  /** The rotation half of step 2. */
  function Rotate(tk: Bytes, p: Ppk): Ppk
    requires |tk| >= 16
  {
    var w0 := Plus(p.w0, RotateRight1(Xor(p.w5, TkWord(tk, 6))));
    var w1 := Plus(p.w1, RotateRight1(Xor(w0, TkWord(tk, 7))));
    var w2 := Plus(p.w2, RotateRight1(w1));
    var w3 := Plus(p.w3, RotateRight1(w2));
    var w4 := Plus(p.w4, RotateRight1(w3));
    var w5 := Plus(p.w5, RotateRight1(w4));
    Ppk(w0, w1, w2, w3, w4, w5)
  }

  lemma MixInjective(s: bv16 -> bv16, tk: Bytes, p: Ppk, q: Ppk)
    requires |tk| >= 16 && Mix(s, tk, p) == Mix(s, tk, q)
    ensures p == q
  {
    hide Plus, Xor, TkWord;
    var r := Mix(s, tk, p);
    PlusCancels(p.w5, q.w5, s(Xor(r.w4, TkWord(tk, 5))));
    PlusCancels(p.w4, q.w4, s(Xor(r.w3, TkWord(tk, 4))));
    PlusCancels(p.w3, q.w3, s(Xor(r.w2, TkWord(tk, 3))));
    PlusCancels(p.w2, q.w2, s(Xor(r.w1, TkWord(tk, 2))));
    PlusCancels(p.w1, q.w1, s(Xor(r.w0, TkWord(tk, 1))));
    PlusCancels(p.w0, q.w0, s(Xor(p.w5, TkWord(tk, 0))));
  }

  lemma RotateInjective(tk: Bytes, p: Ppk, q: Ppk)
    requires |tk| >= 16 && Rotate(tk, p) == Rotate(tk, q)
    ensures p == q
  {
    hide Plus, Xor, TkWord, RotateRight1;
    var r := Rotate(tk, p);
    PlusCancels(p.w5, q.w5, RotateRight1(r.w4));
    PlusCancels(p.w4, q.w4, RotateRight1(r.w3));
    PlusCancels(p.w3, q.w3, RotateRight1(r.w2));
    PlusCancels(p.w2, q.w2, RotateRight1(r.w1));
    PlusCancels(p.w1, q.w1, RotateRight1(Xor(r.w0, TkWord(tk, 7))));
    PlusCancels(p.w0, q.w0, RotateRight1(Xor(p.w5, TkWord(tk, 6))));
  }

  /** Step 2 is injective on 96 bits for a fixed key, as the code's comment says, whatever the S-box. */
  lemma Step2Injective(s: bv16 -> bv16, tk: Bytes, p: Ppk, q: Ppk)
    requires |tk| >= 16 && Rotate(tk, Mix(s, tk, p)) == Rotate(tk, Mix(s, tk, q))
    ensures p == q
  {
    RotateInjective(tk, Mix(s, tk, p), Mix(s, tk, q));
    MixInjective(s, tk, p, q);
  }

  function PutLe16(v: bv16): (b: Bytes)
    ensures |b| == 2
  {
    [Lo8(v), Hi8(v)]
  }

  /** The input of step 2. */
  function Extended(t: Ttak, iv16: bv16): Ppk {
    Ppk(t.w0, t.w1, t.w2, t.w3, t.w4, Plus(t.w4, iv16))
  }

  /** The three bytes that are sent in the clear; the middle one avoids weak RC4 keys. */
  function CleartextIv(iv16: bv16): (b: Bytes)
    ensures |b| == 3
  {
    [Hi8(iv16), (Hi8(iv16) | 0x20) & 0x7f, Lo8(iv16)]
  }

  function FourthByte(tk: Bytes, p: Ppk): bv8
    requires |tk| >= 16
  {
    Lo8(Xor(p.w5, TkWord(tk, 0)) >> 1)
  }

  /** Four bytes followed by the six words. */
  function Layout(head: Bytes, p: Ppk): (key: Bytes)
    requires |head| == 4
    ensures |key| == 16 && key[..4] == head
  {
    head + PutLe16(p.w0) + PutLe16(p.w1) + PutLe16(p.w2) + PutLe16(p.w3) + PutLe16(p.w4) + PutLe16(p.w5)
  }

  /** The 16-byte RC4 key; its first three bytes travel in the clear. */
  function Phase2(s: bv16 -> bv16, tk: Bytes, t: Ttak, iv16: bv16): (key: Bytes)
    requires |tk| >= 16
    ensures |key| == 16 && key[0] == Hi8(iv16) && key[2] == Lo8(iv16)
  {
    var p := Rotate(tk, Mix(s, tk, Extended(t, iv16)));
    Layout(CleartextIv(iv16) + [FourthByte(tk, p)], p)
  }

  /** The second byte copies the first one except for two bits, of which one is set and one cleared; the other two carry
      the packet counter. */
  lemma SeedBits(s: bv16 -> bv16, tk: Bytes, t: Ttak, iv16: bv16)
    requires |tk| >= 16
    ensures var key := Phase2(s, tk, t, iv16);
            && Mk16(key[0], key[2]) == iv16
            && key[1] & 0x20 == 0x20 && key[1] & 0x80 == 0 && key[1] & 0x5f == key[0] & 0x5f
  {
    hide Layout, FourthByte, Rotate, Mix, Extended;
    var p := Rotate(tk, Mix(s, tk, Extended(t, iv16)));
    var head := CleartextIv(iv16) + [FourthByte(tk, p)];
    var key := Phase2(s, tk, t, iv16);
    assert key[0] == head[0] && key[1] == head[1] && key[2] == head[2] by { assert key[..4] == head; }
    IvBytes(iv16);
  }

  lemma IvBytes(iv16: bv16)
    ensures var b := CleartextIv(iv16);
            && Mk16(b[0], b[2]) == iv16
            && b[1] & 0x20 == 0x20 && b[1] & 0x80 == 0 && b[1] & 0x5f == b[0] & 0x5f
  {
    JoinWord(iv16);
  }

  /** tkip_mixing_phase1 followed by tkip_mixing_phase2. */
  function PacketKey(s: bv16 -> bv16, tk: Bytes, ta: Bytes, iv32: bv32, iv16: bv16): (key: Bytes)
    requires |tk| >= 16 && |ta| == 6
    ensures |key| == 16 && key[0] == Hi8(iv16) && key[2] == Lo8(iv16)
  {
    Phase2(s, tk, Phase1(s, tk, ta, iv32), iv16)
  }

  // ------------------------------------------------------------------ the code of phase 2

  ghost function SixWords(a: array<bv16>): Ppk
    requires a.Length == 6
    reads a
  {
    Ppk(a[0], a[1], a[2], a[3], a[4], a[5])
  }

  /** hostap/wlantest/tkip.c:144-149. */
  method MixWords(s: bv16 -> bv16, tk: Bytes, ppk: array<bv16>)
    requires |tk| >= 16 && ppk.Length == 6
    modifies ppk
    ensures SixWords(ppk) == Mix(s, tk, old(SixWords(ppk)))
  {
    hide Plus, Xor, TkWord;
    ppk[0] := Plus(ppk[0], s(Xor(ppk[5], TkWord(tk, 0))));
    ppk[1] := Plus(ppk[1], s(Xor(ppk[0], TkWord(tk, 1))));
    ppk[2] := Plus(ppk[2], s(Xor(ppk[1], TkWord(tk, 2))));
    ppk[3] := Plus(ppk[3], s(Xor(ppk[2], TkWord(tk, 3))));
    ppk[4] := Plus(ppk[4], s(Xor(ppk[3], TkWord(tk, 4))));
    ppk[5] := Plus(ppk[5], s(Xor(ppk[4], TkWord(tk, 5))));
  }

  /** hostap/wlantest/tkip.c:151-156. */
  method RotateWords(tk: Bytes, ppk: array<bv16>)
    requires |tk| >= 16 && ppk.Length == 6
    modifies ppk
    ensures SixWords(ppk) == Rotate(tk, old(SixWords(ppk)))
  {
    hide Plus, Xor, TkWord, RotateRight1;
    ppk[0] := Plus(ppk[0], RotateRight1(Xor(ppk[5], TkWord(tk, 6))));
    ppk[1] := Plus(ppk[1], RotateRight1(Xor(ppk[0], TkWord(tk, 7))));
    ppk[2] := Plus(ppk[2], RotateRight1(ppk[1]));
    ppk[3] := Plus(ppk[3], RotateRight1(ppk[2]));
    ppk[4] := Plus(ppk[4], RotateRight1(ppk[3]));
    ppk[5] := Plus(ppk[5], RotateRight1(ppk[4]));
  }

  /** WPA_PUT_LE16 at offset i. */
  method StoreLe16(seed: array<bv8>, i: nat, v: bv16)
    requires i + 2 <= seed.Length
    modifies seed
    ensures seed[..] == old(seed[..i]) + PutLe16(v) + old(seed[i + 2..])
  {
    hide Lo8, Hi8;
    seed[i] := Lo8(v);
    seed[i + 1] := Hi8(v);
  }

  /** hostap/wlantest/tkip.c:158-169. */
  method WriteSeed(tk: Bytes, ppk: array<bv16>, iv16: bv16, seed: array<bv8>)
    requires |tk| >= 16 && ppk.Length == 6 && seed.Length == 16
    modifies seed
    ensures seed[..] == Layout(CleartextIv(iv16) + [FourthByte(tk, SixWords(ppk))], SixWords(ppk))
  {
    hide Lo8, Hi8, FourthByte, PutLe16;
    var last := Ppk(ppk[0], ppk[1], ppk[2], ppk[3], ppk[4], ppk[5]);
    ghost var head := CleartextIv(iv16) + [FourthByte(tk, last)];
    seed[0] := Hi8(iv16);
    seed[1] := (Hi8(iv16) | 0x20) & 0x7f;
    seed[2] := Lo8(iv16);
    seed[3] := FourthByte(tk, last);
    assert seed[..4] == head;
    StoreLe16(seed, 4, last.w0);
    assert seed[..6] == head + PutLe16(last.w0);
    StoreLe16(seed, 6, last.w1);
    assert seed[..8] == head + PutLe16(last.w0) + PutLe16(last.w1);
    StoreLe16(seed, 8, last.w2);
    assert seed[..10] == head + PutLe16(last.w0) + PutLe16(last.w1) + PutLe16(last.w2);
    StoreLe16(seed, 10, last.w3);
    ghost var four := head + PutLe16(last.w0) + PutLe16(last.w1) + PutLe16(last.w2) + PutLe16(last.w3);
    assert seed[..12] == four;
    StoreLe16(seed, 12, last.w4);
    assert seed[..14] == four + PutLe16(last.w4);
    StoreLe16(seed, 14, last.w5);
    assert seed[..] == four + PutLe16(last.w4) + PutLe16(last.w5);
  }

  /** hostap/wlantest/tkip.c tkip_mixing_phase2, into the 16 bytes of seed. */
  method MixPhase2(s: bv16 -> bv16, tk: Bytes, ttak: array<bv16>, iv16: bv16, seed: array<bv8>)
    requires |tk| >= 16 && ttak.Length == 5 && seed.Length == 16
    modifies seed
    ensures seed[..] == Phase2(s, tk, Words(ttak), iv16)
  {
    hide Mix, Rotate, Layout, CleartextIv, FourthByte, Plus;
    var ppk := new bv16[6];
    ppk[0], ppk[1], ppk[2], ppk[3], ppk[4] := ttak[0], ttak[1], ttak[2], ttak[3], ttak[4];
    ppk[5] := Plus(ttak[4], iv16);
    assert SixWords(ppk) == Extended(Words(ttak), iv16);
    MixWords(s, tk, ppk);
    RotateWords(tk, ppk);
    WriteSeed(tk, ppk, iv16, seed);
  }

  /** Both phases, as tkip_encrypt and tkip_decrypt call them. */
  method MixKey(s: bv16 -> bv16, tk: Bytes, ta: Bytes, iv32: bv32, iv16: bv16) returns (key: Bytes)
    requires |tk| >= 16 && |ta| == 6
    ensures key == PacketKey(s, tk, ta, iv32, iv16)
  {
    hide Phase1, Phase2;
    var ttak := new bv16[5];
    var rc4key := new bv8[16];
    MixPhase1(s, tk, ta, iv32, ttak);
    MixPhase2(s, tk, ttak, iv16, rc4key);
    key := rc4key[..];
  }

  // ------------------------------------------------------------------ no two packets share a key

  lemma JoinWord(v: bv16)
    ensures Mk16(Hi8(v), Lo8(v)) == v
  {
  }

  lemma PlusCancelsLeft(x: bv16, y: bv16, z: bv16)
    ensures Plus(z, x) == Plus(z, y) ==> x == y
  {
    hide Plus;
    PlusCommutes(z, x);
    PlusCommutes(z, y);
    PlusCancels(x, y, z);
  }

  lemma PlusCommutes(x: bv16, y: bv16)
    ensures Plus(x, y) == Plus(y, x)
  {
  }

  lemma WordsFromBytes(a: bv16, b: bv16)
    requires PutLe16(a) == PutLe16(b)
    ensures a == b
  {
    hide Hi8, Lo8;
    JoinWord(a);
    JoinWord(b);
    assert PutLe16(a)[0] == Lo8(a) && PutLe16(a)[1] == Hi8(a);
  }

  lemma LayoutDecides(head: Bytes, p: Ppk, head': Bytes, q: Ppk)
    requires |head| == 4 && |head'| == 4 && Layout(head, p) == Layout(head', q)
    ensures p == q
  {
    hide PutLe16;
    SixPairs(head, PutLe16(p.w0), PutLe16(p.w1), PutLe16(p.w2), PutLe16(p.w3), PutLe16(p.w4), PutLe16(p.w5));
    SixPairs(head', PutLe16(q.w0), PutLe16(q.w1), PutLe16(q.w2), PutLe16(q.w3), PutLe16(q.w4), PutLe16(q.w5));
    WordsFromBytes(p.w0, q.w0);
    WordsFromBytes(p.w1, q.w1);
    WordsFromBytes(p.w2, q.w2);
    WordsFromBytes(p.w3, q.w3);
    WordsFromBytes(p.w4, q.w4);
    WordsFromBytes(p.w5, q.w5);
  }

  lemma SixPairs(head: Bytes, a: Bytes, b: Bytes, c: Bytes, d: Bytes, e: Bytes, f: Bytes)
    requires |head| == 4 && |a| == |b| == |c| == |d| == |e| == |f| == 2
    ensures var k := head + a + b + c + d + e + f;
            && k[4..6] == a && k[6..8] == b && k[8..10] == c && k[10..12] == d && k[12..14] == e && k[14..16] == f
  {
  }

  /** Under one temporal key, phase 2 maps different TTAKs or counters to different RC4 keys, whatever the S-box. */
  lemma Phase2Injective(s: bv16 -> bv16, tk: Bytes, t: Ttak, u: Ttak, iv: bv16, jv: bv16)
    requires |tk| >= 16 && Phase2(s, tk, t, iv) == Phase2(s, tk, u, jv)
    ensures t == u && iv == jv
  {
    hide Rotate, Mix, Layout, CleartextIv, FourthByte, Hi8, Lo8, Plus;
    var p, q := Rotate(tk, Mix(s, tk, Extended(t, iv))), Rotate(tk, Mix(s, tk, Extended(u, jv)));
    LayoutDecides(CleartextIv(iv) + [FourthByte(tk, p)], p, CleartextIv(jv) + [FourthByte(tk, q)], q);
    Step2Injective(s, tk, Extended(t, iv), Extended(u, jv));
    PlusCancelsLeft(iv, jv, t.w4);
  }

  lemma HalvesDecide(x: bv32, y: bv32)
    requires Lo16(x) == Lo16(y) && Hi16(x) == Hi16(y)
    ensures x == y
  {
    hide Lo16, Hi16, Halves;
    HalvesJoin(x);
    HalvesJoin(y);
  }

  function Halves(lo: bv16, hi: bv16): bv32 { (lo as bv32) | ((hi as bv32) << 16) }

  lemma HalvesJoin(x: bv32)
    ensures Halves(Lo16(x), Hi16(x)) == x
  {
  }

  lemma BytesDecide(a1: bv8, a0: bv8, b1: bv8, b0: bv8)
    requires Mk16(a1, a0) == Mk16(b1, b0)
    ensures a1 == b1 && a0 == b0
  {
    SplitWord(a1, a0);
    SplitWord(b1, b0);
  }

  lemma StartInjective(ta: Bytes, ua: Bytes, iv32: bv32, jv32: bv32)
    requires |ta| == 6 && |ua| == 6 && Start(ta, iv32) == Start(ua, jv32)
    ensures ta == ua && iv32 == jv32
  {
    hide Mk16, Lo16, Hi16;
    HalvesDecide(iv32, jv32);
    BytesDecide(ta[1], ta[0], ua[1], ua[0]);
    BytesDecide(ta[3], ta[2], ua[3], ua[2]);
    BytesDecide(ta[5], ta[4], ua[5], ua[4]);
  }

  /** Under one temporal key, two packets share an RC4 key only if they have the same transmitter and packet number. */
  lemma PacketKeyInjective(s: bv16 -> bv16, tk: Bytes, ta: Bytes, iv32: bv32, iv16: bv16,
                           ua: Bytes, jv32: bv32, jv16: bv16)
    requires |tk| >= 16 && |ta| == 6 && |ua| == 6
    ensures PacketKey(s, tk, ta, iv32, iv16) == PacketKey(s, tk, ua, jv32, jv16) <==>
            ta == ua && iv32 == jv32 && iv16 == jv16
  {
    hide Phase2, Rounds, Start;
    if PacketKey(s, tk, ta, iv32, iv16) == PacketKey(s, tk, ua, jv32, jv16) {
      Phase2Injective(s, tk, Phase1(s, tk, ta, iv32), Phase1(s, tk, ua, jv32), iv16, jv16);
      Phase1Injective(s, tk, Start(ta, iv32), Start(ua, jv32), 8);
      StartInjective(ta, ua, iv32, jv32);
    }
  }
}
