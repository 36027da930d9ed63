/** RC4 as used for WEP and TKIP: hostap/wlantest/wep.c wep_crypt. */
module Rc4 {

  type Index = i: int | 0 <= i < 256

  /** Every byte value occurs exactly once. */
  ghost predicate Permutation(s: seq<Index>) {
    && |s| == 256
    && (forall i, j :: 0 <= i < j < 256 ==> s[i] != s[j])
    && (forall v: Index :: v in s)
  }

  function Swap(s: seq<Index>, i: Index, j: Index): (t: seq<Index>)
    requires |s| == 256
    ensures |t| == 256
  {
    s[i := s[j]][j := s[i]]
  }

  lemma SwapKeepsPermutation(s: seq<Index>, i: Index, j: Index)
    requires Permutation(s)
    ensures Permutation(Swap(s, i, j))
  {
    var t := Swap(s, i, j);
    forall v: Index
      ensures v in t
    {
      assert v in s;
      var k :| 0 <= k < 256 && s[k] == v;
      assert t[if k == i then j else if k == j then i else k] == v;
    }
  }

  function Identity(): (s: seq<Index>)
    ensures |s| == 256 && forall i :: 0 <= i < 256 ==> s[i] == i
  {
    seq(256, i requires 0 <= i < 256 => i)
  }

  lemma IdentityIsPermutation()
    ensures Permutation(Identity())
  {
    forall v: Index
      ensures v in Identity()
    {
      assert Identity()[v] == v;
    }
  }

  datatype State = State(s: seq<Index>, i: Index, j: Index)

  // ------------------------------------------------------------------ key schedule and keystream

  /** The table and index after n steps of the key schedule. */
  function Schedule(key: seq<bv8>, n: nat): (st: State)
    requires |key| == 16 && n <= 256
    ensures |st.s| == 256
  {
    if n == 0 then State(Identity(), 0, 0)
    else
      var prev := Schedule(key, n - 1);
      var i: Index := n - 1;
      var j: Index := (prev.j + prev.s[i] + key[i % 16] as int) % 256;
      State(Swap(prev.s, i, j), i, j)
  }

  function Advance(st: State): (st': State)
    requires |st.s| == 256
    ensures |st'.s| == 256
  {
    var i: Index := (st.i + 1) % 256;
    var j: Index := (st.j + st.s[i]) % 256;
    State(Swap(st.s, i, j), i, j)
  }

  function Output(st: State): bv8
    requires |st.s| == 256
  {
    var x: int, y: int := st.s[st.i], st.s[st.j];
    st.s[(x + y) % 256] as bv8
  }

  /** The state after n bytes of keystream. */
  function Running(key: seq<bv8>, n: nat): (st: State)
    requires |key| == 16
    ensures |st.s| == 256
  {
    if n == 0 then State(Schedule(key, 256).s, 0, 0) else Advance(Running(key, n - 1))
  }

  /** Byte n of the keystream: it depends on nothing but the key and the position. */
  function Keystream(key: seq<bv8>, n: nat): bv8
    requires |key| == 16
  {
    Output(Running(key, n + 1))
  }

  lemma {:induction false} ScheduleIsPermutation(key: seq<bv8>, n: nat)
    requires |key| == 16 && n <= 256
    ensures Permutation(Schedule(key, n).s)
  {
    if n == 0 {
      IdentityIsPermutation();
    } else {
      var prev := Schedule(key, n - 1);
      ScheduleIsPermutation(key, n - 1);
      SwapKeepsPermutation(prev.s, n - 1, Schedule(key, n).j);
    }
  }

  /** The table is a permutation of all byte values at every position of the keystream. */
  lemma {:induction false} RunningIsPermutation(key: seq<bv8>, n: nat)
    requires |key| == 16
    ensures Permutation(Running(key, n).s)
  {
    if n == 0 {
      ScheduleIsPermutation(key, 256);
    } else {
      var prev := Running(key, n - 1);
      RunningIsPermutation(key, n - 1);
      SwapKeepsPermutation(prev.s, (prev.i + 1) % 256, Advance(prev).j);
    }
  }

  // ------------------------------------------------------------------ what the table looks like

  /** On a table that is affine in its index the output byte is a polynomial: two values are added and looked up. */
  lemma OutputOnAffine(st: State, a: int, b: int)
    requires |st.s| == 256 && forall k :: 0 <= k < 256 ==> st.s[k] == (a * k + b) % 256
    ensures Output(st) == ((a * (a * (st.i + st.j) + 2 * b) + b) % 256) as bv8
  {
    hide Output;
    var x, y := a * st.i + b, a * st.j + b;
    var k := (x + y) % 256;
    AddResidues(x, y);
    OutputValue(st, k);
    AffineTwice(a, b, st.i, st.j);
  }

  lemma AffineTwice(a: int, b: int, i: int, j: int)
    ensures (a * (((a * i + b) + (a * j + b)) % 256) + b) % 256 == (a * (a * (i + j) + 2 * b) + b) % 256
  {
    SumOfAffine(a, b, i, j);
    TimesResidue(a, a * (i + j) + 2 * b, b);
  }

  lemma OutputValue(st: State, k: Index)
    requires |st.s| == 256 && (st.s[st.i] as int + st.s[st.j] as int) % 256 == k
    ensures Output(st) == st.s[k] as bv8
  {
  }

  lemma SumOfAffine(a: int, b: int, i: int, j: int)
    ensures (a * i + b) + (a * j + b) == a * (i + j) + 2 * b
  {
  }

  lemma AddResidues(x: int, y: int)
    ensures (x % 256 + y % 256) % 256 == (x + y) % 256
  {
  }

  lemma TimesResidue(a: int, x: int, b: int)
    ensures (a * (x % 256) + b) % 256 == (a * x + b) % 256
  {
    var q := x / 256;
    assert x == 256 * q + x % 256;
    assert a * x + b == (a * (x % 256) + b) + 256 * (a * q);
  }

  /** A step of the keystream can be taken back: the index moves on by one, and the two places it exchanges lie at both
      indices. */
  lemma AdvanceBack(st: State)
    requires |st.s| == 256
    ensures var t := Advance(st);
            && Swap(t.s, t.i, t.j) == st.s && t.i == (st.i + 1) % 256
            && (t.j - st.s[t.i] - st.j) % 256 == 0
  {
  }

  /** The first byte of the keystream in closed form, for every key: with t the scheduled table and j its entry 1, it is
      the entry at t[1] + t[j] of the table in which places 1 and j are exchanged. */
  lemma FirstByte(key: seq<bv8>)
    requires |key| == 16
    ensures var t := Schedule(key, 256).s;
            var j: int := t[1];
            var x := (j + t[j] as int) % 256;
            Keystream(key, 0) == (if x == 1 then t[j] else if x == j then t[1] else t[x]) as bv8
  {
    hide Schedule, Advance, Running, Output;
    var t := Schedule(key, 256).s;
    RunningStart(key);
    RunningNext(key, 0);
    FirstOutput(t);
  }

  lemma FirstOutput(t: seq<Index>)
    requires |t| == 256
    ensures var j: int := t[1];
            var x := (j + t[j] as int) % 256;
            Output(Advance(State(t, 0, 0))) == (if x == 1 then t[j] else if x == j then t[1] else t[x]) as bv8
  {
    hide Advance;
    AdvanceTo(State(t, 0, 0), 1, t[1]);
  }

  /** From the identity table the keystream begins 2, 5, 7. */
  lemma FirstBytes()
    ensures var s1 := Advance(State(Identity(), 0, 0));
            var s2 := Advance(s1);
            var s3 := Advance(s2);
            Output(s1) == 2 && Output(s2) == 5 && Output(s3) == 7
  {
    hide Identity, Advance, Output;
    var s0 := State(Identity(), 0, 0);
    AdvanceTo(s0, 1, 1);
    var s1 := Advance(s0);
    OutputAt(s1, 1, 1, 2);
    AdvanceTo(s1, 2, 3);
    var s2 := Advance(s1);
    OutputAt(s2, 3, 2, 5);
    AdvanceTo(s2, 3, 5);
    var s3 := Advance(s2);
    OutputAt(s3, 5, 2, 7);
  }

  lemma OutputAt(st: State, x: Index, y: Index, v: Index)
    requires |st.s| == 256 && st.s[st.i] == x && st.s[st.j] == y && x + y < 256 && st.s[x + y] == v
    ensures Output(st) == v as bv8
  {
  }

  lemma AdvanceTo(st: State, i: Index, j: Index)
    requires |st.s| == 256 && i == (st.i + 1) % 256 && j == (st.j + st.s[i]) % 256
    ensures var t := Advance(st);
            && t.i == i && t.j == j && t.s[i] == st.s[j] && t.s[j] == st.s[i]
            && forall k :: 0 <= k < 256 && k != i && k != j ==> t.s[k] == st.s[k]
  {
  }

  /** A key that undoes each step of the schedule: 0, 0, -1, -2, ..., -14. */
  ghost predicate Countermands(key: seq<bv8>) {
    |key| == 16 && forall n :: 0 <= n < 16 ==> Stays(key[n] as int, n)
  }

  ghost predicate Stays(k: int, n: int) {
    (k + n - (if n == 0 then 0 else 1)) % 256 == 0
  }

  /** Under such a key the first sixteen steps leave the table as it is. */
  lemma {:induction false} ScheduleStays(key: seq<bv8>, n: nat)
    requires Countermands(key) && n <= 16
    ensures Schedule(key, n).s == Identity() && Schedule(key, n).j == if n == 0 then 0 else n - 1
    decreases n
  {
    if n == 0 {
      ScheduleStart(key);
    } else {
      ScheduleStays(key, n - 1);
      assert Stays(key[n - 1] as int, n - 1);
      hide Schedule, Identity, Stays;
      StayingStep(key, n - 1, key[n - 1] as int);
    }
  }

  lemma StayingStep(key: seq<bv8>, m: Index, k: int)
    requires |key| == 16 && m < 16 && k == key[m] as int && Stays(k, m)
    requires Schedule(key, m).s == Identity() && Schedule(key, m).j == if m == 0 then 0 else m - 1
    ensures Schedule(key, m + 1).s == Identity() && Schedule(key, m + 1).j == m
  {
    ScheduleNext(key, m);
    hide Schedule, Swap, Stays, Identity;
    var j := if m == 0 then 0 else m - 1;
    StaysAt(k, m, j);
    assert (j + Identity()[m] + key[m % 16] as int) % 256 == m;
    SwapSame(Identity(), m);
  }

  lemma StaysAt(k: int, n: int, j: int)
    requires Stays(k, n) && 0 <= n < 16 && j == (if n == 0 then 0 else n - 1)
    ensures (j + n + k) % 256 == n
  {
  }

  lemma SwapSame(s: seq<Index>, i: Index)
    requires |s| == 256
    ensures Swap(s, i, i) == s
  {
  }

  /** In general, every step adds the table entry it stands at and the key byte, cyclically, to the index, and exchanges
      the two entries: the new entry at the index is the old one at its place. */
  lemma ScheduleStep(key: seq<bv8>, n: nat)
    requires |key| == 16 && n < 256
    ensures var s, t := Schedule(key, n), Schedule(key, n + 1);
            && (t.j - s.j - s.s[n] - key[n % 16] as int) % 256 == 0
            && t.s[n] == s.s[t.j] && t.s[t.j] == s.s[n]
            && forall k :: 0 <= k < 256 && k != n && k != t.j ==> t.s[k] == s.s[k]
  {
    var s, i: Index := Schedule(key, n), n;
    ScheduleNext(key, i);
    hide Schedule;
    IndexMoves(s.j, s.s[i], key[n % 16] as int);
  }

  lemma IndexMoves(j: int, x: int, k: int)
    ensures ((j + x + k) % 256 - j - x - k) % 256 == 0
  {
  }

  // ------------------------------------------------------------------ encryption

  /** buf with the keystream XORed in. */
  function Crypt(key: seq<bv8>, buf: seq<bv8>): (r: seq<bv8>)
    requires |key| == 16
    ensures |r| == |buf| && forall k :: 0 <= k < |buf| ==> r[k] == buf[k] ^ Keystream(key, k)
  {
    seq(|buf|, k requires 0 <= k < |buf| => buf[k] ^ Keystream(key, k))
  }

  lemma XorTwice(x: bv8, k: bv8)
    ensures (x ^ k) ^ k == x
  {
  }

  /** Applying the cipher twice restores any buffer. */
  lemma CryptTwice(key: seq<bv8>, buf: seq<bv8>)
    requires |key| == 16
    ensures Crypt(key, Crypt(key, buf)) == buf
  {
    hide Keystream;
    var r := Crypt(key, Crypt(key, buf));
    forall k | 0 <= k < |buf|
      ensures r[k] == buf[k]
    {
      XorTwice(buf[k], Keystream(key, k));
    }
  }

  /** S_SWAP. */
  method SwapAt(s: array<Index>, i: Index, j: Index)
    requires s.Length == 256
    modifies s
    ensures s[..] == Swap(old(s[..]), i, j)
  {
    var t := s[i];
    s[i] := s[j];
    s[j] := t;
  }

  /** hostap/wlantest/wep.c:25-31. */
  method SetupTable(key: seq<bv8>) returns (s: array<Index>)
    requires |key| == 16
    ensures fresh(s) && s.Length == 256 && s[..] == Schedule(key, 256).s
  {
    hide Schedule, Swap;
    s := new Index[256](i => 0);
    for i := 0 to 256
      invariant forall k :: 0 <= k < i ==> s[k] == k
    {
      s[i] := i;
    }
    ScheduleStart(key);
    assert s[..] == Identity();
    var j: Index := 0;
    for i := 0 to 256
      invariant s[..] == Schedule(key, i).s && j == Schedule(key, i).j
    {
      ScheduleNext(key, i);
      j := (j + s[i] + key[i % 16] as int) % 256;
      SwapAt(s, i, j);
    }
  }

  /** hostap/wlantest/wep.c:37-40: one byte of keystream, updating the table. */
  method NextByte(s: array<Index>, i: Index, j: Index) returns (i': Index, j': Index, out: bv8)
    requires s.Length == 256
    modifies s
    ensures State(s[..], i', j') == Advance(State(old(s[..]), i, j))
    ensures out == Output(State(s[..], i', j'))
  {
    hide Swap;
    i' := (i + 1) % 256;
    j' := (j + s[i']) % 256;
    SwapAt(s, i', j');
    var x: int, y: int := s[i'], s[j'];
    out := s[(x + y) % 256] as bv8;
  }

  /** hostap/wlantest/wep.c wep_crypt, in place on the table and on the buffer. */
  method WepCrypt(key: seq<bv8>, buf: array<bv8>)
    requires |key| == 16
    modifies buf
    ensures buf[..] == Crypt(key, old(buf[..]))
  {
    hide Running, Advance, Output;
    var s := SetupTable(key);
    RunningStart(key);
    var i: Index, j: Index := 0, 0;
    ghost var was := buf[..];
    for k := 0 to buf.Length
      invariant fresh(s) && s.Length == 256 && State(s[..], i, j) == Running(key, k)
      invariant forall n :: 0 <= n < k ==> buf[n] == was[n] ^ Keystream(key, n)
      invariant forall n :: k <= n < buf.Length ==> buf[n] == was[n]
    {
      RunningNext(key, k);
      var out: bv8;
      i, j, out := NextByte(s, i, j);
      assert out == Keystream(key, k);
      buf[k] := buf[k] ^ out;
    }
  }

  lemma ScheduleStart(key: seq<bv8>)
    requires |key| == 16
    ensures Schedule(key, 0) == State(Identity(), 0, 0)
  {
  }

  lemma ScheduleNext(key: seq<bv8>, i: Index)
    requires |key| == 16
    ensures var prev := Schedule(key, i);
            var j: Index := (prev.j + prev.s[i] + key[i % 16] as int) % 256;
            Schedule(key, i + 1) == State(Swap(prev.s, i, j), i, j)
  {
  }

  lemma RunningStart(key: seq<bv8>)
    requires |key| == 16
    ensures Running(key, 0) == State(Schedule(key, 256).s, 0, 0)
  {
  }

  lemma RunningNext(key: seq<bv8>, k: nat)
    requires |key| == 16
    ensures Running(key, k + 1) == Advance(Running(key, k))
  {
  }
}
