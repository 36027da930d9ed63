/** The Michael message integrity code: hostap/wlantest/tkip.c michael_mic. */
module Michael {

  function Le32(b0: bv8, b1: bv8, b2: bv8, b3: bv8): bv32 {
    (b0 as bv32) | ((b1 as bv32) << 8) | ((b2 as bv32) << 16) | ((b3 as bv32) << 24)
  }

  /** WPA_GET_LE32 at offset i. */
  function Word(s: seq<bv8>, i: nat): bv32
    requires i + 4 <= |s|
  {
    Le32(s[i], s[i + 1], s[i + 2], s[i + 3])
  }

  /** WPA_PUT_LE32. */
  function PutLe32(w: bv32): (s: seq<bv8>)
    ensures |s| == 4
  {
    [(w & 0xff) as bv8, ((w >> 8) & 0xff) as bv8, ((w >> 16) & 0xff) as bv8, ((w >> 24) & 0xff) as bv8]
  }

  lemma PutThenGet(w: bv32)
    ensures Word(PutLe32(w), 0) == w
  {
  }

  function RotateLeft17(v: bv32): bv32 { (v << 17) | (v >> 15) }

  function RotateLeft3(v: bv32): bv32 { (v << 3) | (v >> 29) }

  function RotateRight2(v: bv32): bv32 { (v >> 2) | (v << 30) }

  function SwapBytes(v: bv32): bv32 { ((v & 0x00ff00ff) << 8) | ((v & 0xff00ff00) >> 8) }

  datatype Pair = Pair(l: bv32, r: bv32)

  /** Addition modulo 2^32. */
  function Plus(x: bv32, y: bv32): bv32 { x + y }

  function Minus(x: bv32, y: bv32): bv32 { x - y }

  function Xor(x: bv32, y: bv32): bv32 { x ^ y }

  /** michael_block. */
  function Block(s: Pair): Pair {
    var r1 := Xor(s.r, RotateLeft17(s.l));
    var l1 := Plus(s.l, r1);
    var r2 := Xor(r1, SwapBytes(l1));
    var l2 := Plus(l1, r2);
    var r3 := Xor(r2, RotateLeft3(l2));
    var l3 := Plus(l2, r3);
    var r4 := Xor(r3, RotateRight2(l3));
    Pair(Plus(l3, r4), r4)
  }

  /** The rotations are those of the bit-vector type, and SwapBytes exchanges the bytes of each half. */
  lemma WordOperations(v: bv32, b0: bv8, b1: bv8, b2: bv8, b3: bv8)
    ensures RotateLeft17(v) == v.RotateLeft(17) && RotateLeft3(v) == v.RotateLeft(3)
    ensures RotateRight2(v) == v.RotateRight(2)
    ensures SwapBytes(Le32(b0, b1, b2, b3)) == Le32(b1, b0, b3, b2)
  {
  }

  // ------------------------------------------------------------------ the block function is a bijection

  lemma PlusMinus(x: bv32, y: bv32)
    ensures Minus(Plus(x, y), y) == x
  {
    hide Minus;
    MinusOfSum(x, y);
  }

  lemma MinusOfSum(x: bv32, y: bv32)
    ensures Minus(x + y, y) == x
  {
  }

  lemma MinusPlus(x: bv32, y: bv32)
    ensures Plus(Minus(x, y), y) == x
  {
    hide Plus;
    PlusOfDifference(x, y);
  }

  lemma PlusOfDifference(x: bv32, y: bv32)
    ensures Plus(x - y, y) == x
  {
  }

  lemma XorTwice(x: bv32, y: bv32)
    ensures Xor(Xor(x, y), y) == x
  {
  }

  /** One half of a step of the block: r absorbs a mask, then l absorbs r. */
  function HalfStep(s: Pair, mask: bv32): Pair {
    Pair(Plus(s.l, Xor(s.r, mask)), Xor(s.r, mask))
  }

  /** ... and back, where the mask belongs to the l that is recovered first. */
  function HalfBack(t: Pair, mask: bv32): Pair {
    Pair(Minus(t.l, t.r), Xor(t.r, mask))
  }

  lemma HalfStepBack(s: Pair, mask: bv32)
    ensures HalfBack(HalfStep(s, mask), mask) == s
    ensures Minus(HalfStep(s, mask).l, HalfStep(s, mask).r) == s.l
  {
    hide Plus, Minus, Xor;
    PlusMinus(s.l, Xor(s.r, mask));
    XorTwice(s.r, mask);
  }

  lemma HalfStepForth(t: Pair, mask: bv32)
    ensures HalfStep(HalfBack(t, mask), mask) == t
  {
    hide Plus, Minus, Xor;
    XorTwice(t.r, mask);
    MinusPlus(t.l, t.r);
  }

  /** The block is four half-steps, masked by four rearrangements of l. */
  lemma BlockSteps(s: Pair)
    ensures var s1 := HalfStep(s, RotateLeft17(s.l));
            var s2 := HalfStep(s1, SwapBytes(s1.l));
            var s3 := HalfStep(s2, RotateLeft3(s2.l));
            Block(s) == HalfStep(s3, RotateRight2(s3.l))
  {
    hide Plus, Xor, SwapBytes, RotateLeft17, RotateLeft3, RotateRight2;
  }

  /** The steps of the block taken back, from the last to the first. */
  function BlockBack(t: Pair): Pair {
    var s3 := HalfBack(t, RotateRight2(Minus(t.l, t.r)));
    var s2 := HalfBack(s3, RotateLeft3(Minus(s3.l, s3.r)));
    var s1 := HalfBack(s2, SwapBytes(Minus(s2.l, s2.r)));
    HalfBack(s1, RotateLeft17(Minus(s1.l, s1.r)))
  }

  /** BlockBack is the inverse of Block, so that the block function is a bijection. */
  lemma BlockInverse(s: Pair)
    ensures BlockBack(Block(s)) == s && Block(BlockBack(s)) == s
  {
    BlockThere(s);
    BlockHere(s);
  }

  lemma BlockThere(s: Pair)
    ensures BlockBack(Block(s)) == s
  {
    hide Minus, HalfStep, HalfBack, Block, SwapBytes, RotateLeft17, RotateLeft3, RotateRight2;
    var s1 := HalfStep(s, RotateLeft17(s.l));
    var s2 := HalfStep(s1, SwapBytes(s1.l));
    var s3 := HalfStep(s2, RotateLeft3(s2.l));
    BlockSteps(s);
    HalfStepBack(s, RotateLeft17(s.l));
    HalfStepBack(s1, SwapBytes(s1.l));
    HalfStepBack(s2, RotateLeft3(s2.l));
    HalfStepBack(s3, RotateRight2(s3.l));
  }

  lemma BlockHere(t: Pair)
    ensures Block(BlockBack(t)) == t
  {
    hide Minus, HalfStep, HalfBack, Block, SwapBytes, RotateLeft17, RotateLeft3, RotateRight2;
    var s3 := HalfBack(t, RotateRight2(Minus(t.l, t.r)));
    var s2 := HalfBack(s3, RotateLeft3(Minus(s3.l, s3.r)));
    var s1 := HalfBack(s2, SwapBytes(Minus(s2.l, s2.r)));
    var s := HalfBack(s1, RotateLeft17(Minus(s1.l, s1.r)));
    HalfBackLeft(t, RotateRight2(Minus(t.l, t.r)));
    HalfBackLeft(s3, RotateLeft3(Minus(s3.l, s3.r)));
    HalfBackLeft(s2, SwapBytes(Minus(s2.l, s2.r)));
    HalfBackLeft(s1, RotateLeft17(Minus(s1.l, s1.r)));
    BlockSteps(s);
  }

  lemma HalfBackLeft(t: Pair, mask: bv32)
    ensures HalfBack(t, mask).l == Minus(t.l, t.r) && HalfStep(HalfBack(t, mask), mask) == t
  {
    HalfStepForth(t, mask);
    hide Minus, Xor, HalfStep;
  }

  function Absorb(s: Pair, w: bv32): Pair {
    Block(Pair(Xor(s.l, w), s.r))
  }

  // ------------------------------------------------------------------ the standard's definition

  /** Absorbing the first k words of a message (section 12.5.2.3 of IEEE 802.11-2020). */
  function Fold(s: Pair, m: seq<bv8>, k: nat): Pair
    requires 4 * k <= |m|
  {
    if k == 0 then s else Absorb(Fold(s, m, k - 1), Word(m, 4 * (k - 1)))
  }

  lemma XorCancels(x: bv32, y: bv32, z: bv32)
    ensures Xor(x, z) == Xor(y, z) ==> x == y
    ensures Xor(z, x) == Xor(z, y) ==> x == y
  {
  }

  /** Absorbing never merges two states, nor two words from one state. */
  lemma AbsorbInjective(s: Pair, t: Pair, v: bv32, w: bv32)
    ensures Absorb(s, w) == Absorb(t, w) ==> s == t
    ensures Absorb(s, v) == Absorb(s, w) ==> v == w
  {
    hide Block, BlockBack, Xor;
    BlockInverse(Pair(Xor(s.l, w), s.r));
    BlockInverse(Pair(Xor(t.l, w), t.r));
    BlockInverse(Pair(Xor(s.l, v), s.r));
    XorCancels(s.l, t.l, w);
    XorCancels(v, w, s.l);
  }

  /** Two messages that differ in one word only never reach the same state, under any key. */
  lemma {:induction false} OneWordDecides(s: Pair, m: seq<bv8>, n: seq<bv8>, k: nat, i: nat)
    requires 4 * k <= |m| && |m| == |n| && i < k
    requires Word(m, 4 * i) != Word(n, 4 * i)
    requires forall j :: 0 <= j < k && j != i ==> Word(m, 4 * j) == Word(n, 4 * j)
    ensures Fold(s, m, k) != Fold(s, n, k)
    decreases k
  {
    hide Absorb, Word;
    if k - 1 == i {
      SameFold(s, m, n, i);
      AbsorbInjective(Fold(s, m, i), Fold(s, n, i), Word(m, 4 * i), Word(n, 4 * i));
    } else {
      OneWordDecides(s, m, n, k - 1, i);
      AbsorbInjective(Fold(s, m, k - 1), Fold(s, n, k - 1), Word(m, 4 * (k - 1)), Word(n, 4 * (k - 1)));
    }
  }

  lemma {:induction false} SameFold(s: Pair, m: seq<bv8>, n: seq<bv8>, k: nat)
    requires 4 * k <= |m| && |m| == |n| && forall j :: 0 <= j < k ==> Word(m, 4 * j) == Word(n, 4 * j)
    ensures Fold(s, m, k) == Fold(s, n, k)
    decreases k
  {
    hide Absorb, Word;
    if k > 0 { SameFold(s, m, n, k - 1); }
  }

  function Zeros(n: nat): (z: seq<bv8>)
    ensures |z| == n && forall i :: 0 <= i < n ==> z[i] == 0
  {
    seq(n, _ => 0)
  }

  /** The data, 0x5a and between 4 and 7 zero bytes, up to a multiple of four. */
  function Padded(data: seq<bv8>): (m: seq<bv8>)
    ensures |m| % 4 == 0 && |data| + 5 <= |m| <= |data| + 8
  {
    data + [0x5a] + Zeros(7 - |data| % 4)
  }

  function Mic(key: seq<bv8>, hdr: seq<bv8>, data: seq<bv8>): (mic: seq<bv8>)
    requires |key| == 8 && |hdr| == 16
    ensures |mic| == 8
  {
    var m := hdr + Padded(data);
    var s := Fold(Pair(Word(key, 0), Word(key, 4)), m, |m| / 4);
    PutLe32(s.l) + PutLe32(s.r)
  }

  // ------------------------------------------------------------------ the code

  /** The last partial word of the data with its marker. */
  function LastWord(data: seq<bv8>): bv32 {
    var i := |data| - |data| % 4;
    match |data| % 4
    case 0 => 0x5a
    case 1 => (data[i] as bv32) | 0x5a00
    case 2 => (data[i] as bv32) | ((data[i + 1] as bv32) << 8) | 0x5a0000
    case _ => (data[i] as bv32) | ((data[i + 1] as bv32) << 8) | ((data[i + 2] as bv32) << 16) | 0x5a000000
  }

  lemma LastWordBits(x: bv8, y: bv8, z: bv8)
    ensures Le32(0x5a, 0, 0, 0) == 0x5a && Le32(0, 0, 0, 0) == 0
    ensures Le32(x, 0x5a, 0, 0) == (x as bv32) | 0x5a00
    ensures Le32(x, y, 0x5a, 0) == (x as bv32) | ((y as bv32) << 8) | 0x5a0000
    ensures Le32(x, y, z, 0x5a) == (x as bv32) | ((y as bv32) << 8) | ((z as bv32) << 16) | 0x5a000000
  {
  }

  lemma PaddedAt(data: seq<bv8>)
    ensures var m := Padded(data);
            && |m| == |data| + 8 - |data| % 4 && m[..|data|] == data && m[|data|] == 0x5a
            && forall i :: |data| < i < |m| ==> m[i] == 0
  {
  }

  lemma LastWords(data: seq<bv8>)
    ensures var m, b := Padded(data), |data| - |data| % 4;
            |m| == b + 8 && Word(m, b) == LastWord(data) && Word(m, b + 4) == 0
  {
    hide Le32, Padded;
    PaddedAt(data);
    var m, b, k := Padded(data), |data| - |data| % 4, |data| % 4;
    assert forall i :: 0 <= i < |data| ==> m[i] == m[..|data|][i] == data[i];
    LastWordBits(if k > 0 then data[b] else 0, if k > 1 then data[b + 1] else 0, if k > 2 then data[b + 2] else 0);
  }

  /** hostap/wlantest/tkip.c michael_mic: the block loop with its four endings is the standard's fold. */
  method MichaelMic(key: seq<bv8>, hdr: seq<bv8>, data: seq<bv8>) returns (mic: seq<bv8>)
    requires |key| == 8 && |hdr| == 16
    ensures mic == Mic(key, hdr, data)
  {
    hide Absorb, Word, LastWord, Padded;
    ghost var pad := Padded(data);
    ghost var m, start := hdr + pad, Pair(Word(key, 0), Word(key, 4));
    LastWords(data);
    PaddedAt(data);
    var s := Pair(Word(key, 0), Word(key, 4));
    s := AbsorbWords(s, hdr, 4, start, m, 0);
    var blocks := |data| / 4;
    assert m[16..16 + 4 * blocks] == pad[..4 * blocks] == data[..4 * blocks];
    s := AbsorbWords(s, data, blocks, start, m, 4);
    SameWord(m, pad, 16 + 4 * blocks, 4 * blocks);
    s := Absorb(s, LastWord(data));
    SameWord(m, pad, 16 + 4 * blocks + 4, 4 * blocks + 4);
    s := Absorb(s, 0);
    assert s == Fold(start, m, 4 + blocks + 2);
    mic := PutLe32(s.l) + PutLe32(s.r);
  }

  /** The first n words of t, which stand in m from word off on. */
  method AbsorbWords(s: Pair, t: seq<bv8>, n: nat, ghost start: Pair, ghost m: seq<bv8>, ghost off: nat)
    returns (r: Pair)
    requires 4 * n <= |t| && 4 * (off + n) <= |m| && m[4 * off..4 * (off + n)] == t[..4 * n]
    requires s == Fold(start, m, off)
    ensures r == Fold(start, m, off + n)
  {
    hide Absorb, Word;
    r := s;
    for i := 0 to n
      invariant r == Fold(start, m, off + i)
    {
      SameWordAt(m, t, off, n, i);
      r := Absorb(r, Word(t, 4 * i));
    }
  }

  lemma SameWordAt(s: seq<bv8>, t: seq<bv8>, off: nat, n: nat, i: nat)
    requires 4 * (off + n) <= |s| && 4 * n <= |t| && i < n && s[4 * off..4 * (off + n)] == t[..4 * n]
    ensures Word(s, 4 * (off + i)) == Word(t, 4 * i)
  {
    var u, v, k, l := s[4 * off..4 * (off + n)], t[..4 * n], 4 * i, 4 * (off + i);
    assert u[k] == s[l] && u[k + 1] == s[l + 1] && u[k + 2] == s[l + 2] && u[k + 3] == s[l + 3];
    assert v[k] == t[k] && v[k + 1] == t[k + 1] && v[k + 2] == t[k + 2] && v[k + 3] == t[k + 3];
  }

  lemma SameWord(s: seq<bv8>, t: seq<bv8>, i: nat, j: nat)
    requires i + 4 <= |s| && j + 4 <= |t| && s[i..i + 4] == t[j..j + 4]
    ensures Word(s, i) == Word(t, j)
  {
    var u, v := s[i..i + 4], t[j..j + 4];
    assert u[0] == s[i] && u[1] == s[i + 1] && u[2] == s[i + 2] && u[3] == s[i + 3];
    assert v[0] == t[j] && v[1] == t[j + 1] && v[2] == t[j + 2] && v[3] == t[j + 3];
  }
}
