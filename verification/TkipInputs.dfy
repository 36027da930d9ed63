/** Inputs on which tkip_decrypt departs from what one would expect of it, for every key, checksum and payload. */
module TkipInputs {
  import opened Michael
  import opened TkipMixing
  import opened Rc4
  import opened Tkip
  import opened TkipRuns
  import opened Wrappers

  /** A data header with all addresses and the sequence number 0. */
  function PartHeader(number: bv8, more: bool): (h: Bytes)
    ensures |h| == 24
  {
    Header(0x08, if more then 0x04 else 0x00, Zeros(6), Zeros(6), Zeros(6), number, 0x00, [])
  }

  lemma HeaderFields(number: bv8, more: bool)
    requires number == 0 || number == 1 || number == 2
    ensures var h := PartHeader(number, more);
            && IsHeader(h) && FragmentNumber(h) == number as nat && SequenceNumber(h) == 0
            && (MoreFragments(h) <==> more) && Addr1(h) == Zeros(6) && Addr2(h) == Zeros(6)
  {
    var z, fc1: bv8 := Zeros(6), if more then 0x04 else 0x00;
    HeaderParts(0x08, fc1, z, z, z, number, 0x00, []);
    Tkip.FragmentFields(0x08, fc1, z, z, z, number, 0x00, []);
    ControlBits(0x08, fc1);
    hide Header, Mk16, Addr1, Addr2, SequenceNumber, FragmentNumber, MoreFragments;
  }

  /** A frame body that decrypts to plain. */
  function Wrapped(env: Env, tk: Bytes, h: Bytes, plain: Bytes): Bytes
    requires |tk| == 32 && |h| >= 24
  {
    var iv := Zeros(8);
    iv + Crypt(ReceiveKey(env, tk, h, iv), plain + PutLe32(env.crc(plain)))
  }

  lemma WrappedOpens(env: Env, tk: Bytes, h: Bytes, plain: Bytes)
    requires |tk| == 32 && |h| >= 24
    ensures Opens(env, tk, h, Wrapped(env, tk, h, plain)) == Some(plain)
    ensures |Wrapped(env, tk, h, plain)| == |plain| + 12
  {
    var iv, sealed := Zeros(8), plain + PutLe32(env.crc(plain));
    var data := Wrapped(env, tk, h, plain);
    assert ReceiveKey(env, tk, h, data) == ReceiveKey(env, tk, h, iv) by {
      hide Crypt, PacketKey, Le32, Mk16;
      assert forall i :: 0 <= i < 8 ==> data[i] == iv[i];
    }
    hide ReceiveKey, Crypt, Word;
    var key := ReceiveKey(env, tk, h, iv);
    assert data[8..] == Crypt(key, sealed);
    CryptTwice(key, sealed);
    TrailingWord(plain, env.crc(plain));
    assert sealed[..|sealed| - 4] == plain;
  }

  function Part(env: Env, tk: Bytes, number: bv8, more: bool, plain: Bytes): Packet
    requires |tk| == 32
  {
    var h := PartHeader(number, more);
    Packet(tk, h, Wrapped(env, tk, h, plain), true)
  }

  lemma PartFields(env: Env, tk: Bytes, number: bv8, more: bool, plain: Bytes)
    requires |tk| == 32 && (number == 0 || number == 1 || number == 2)
    ensures var e := Part(env, tk, number, more, plain);
            && e.Good() && e.tk == tk && e.wantMic && e.h == PartHeader(number, more)
            && Body(env, e) == Some(plain) && |e.data| == |plain| + 12
            && FragmentNumber(e.h) == number as nat && SequenceNumber(e.h) == 0 && (MoreFragments(e.h) <==> more)
            && Addr1(e.h) == Zeros(6) && Addr2(e.h) == Zeros(6)
  {
    HeaderFields(number, more);
    hide Wrapped, Opens, PartHeader, IsHeader, MoreFragments, FragmentNumber, SequenceNumber, Addr1, Addr2;
    WrappedOpens(env, tk, PartHeader(number, more), plain);
  }

  /** The second and the third frame complete an MSDU, and the third is joined to the other two. */
  ghost predicate TwiceComplete(env: Env, run: seq<Packet>, joined: Bytes)
    requires GoodRun(run)
  {
    && |run| == 3 && CompletesAt(env, run, 1) && CompletesAt(env, run, 2)
    && !MoreFragments(run[1].h) && After(env, run).buf == Some(joined)
  }

  /** Fragment 0, fragment 1 without the more-fragments bit, and then fragment 2: the second and the third frame both
      complete an MSDU, and the third is checked as if the second had announced it. */
  lemma CompletedTwice(env: Env, tk: Bytes, a: Bytes, b: Bytes, c: Bytes)
    requires |tk| == 32
    ensures var run := [Part(env, tk, 0, true, a), Part(env, tk, 1, false, b), Part(env, tk, 2, false, c)];
            GoodRun(run) && TwiceComplete(env, run, a + b + c)
  {
    hide Body, After, Part, IsHeader, MoreFragments, FragmentNumber, SequenceNumber, Addr1, Addr2, Stored, PartHeader;
    var e0, e1, e2 := Part(env, tk, 0, true, a), Part(env, tk, 1, false, b), Part(env, tk, 2, false, c);
    PartFields(env, tk, 0, true, a);
    PartFields(env, tk, 1, false, b);
    PartFields(env, tk, 2, false, c);
    var run := [e0, e1, e2];
    assert run[..1] == [e0] == [] + [e0] && run[..2] == [e0, e1] == [e0] + [e1] && run == [e0, e1] + [e2];
    AfterSnoc(env, [], e0);
    StoredStart(After(env, []), e0.h, a);
    AfterSnoc(env, [e0], e1);
    StoredNext(After(env, [e0]), e1.h, b);
    AfterSnoc(env, [e0, e1], e2);
    StoredNext(After(env, [e0, e1]), e2.h, c);
  }

  /** A correct MSDU cut inside its MIC: n < 8 bytes in the second fragment. Michael accepts it, and the length that is
      reported for the second fragment is 2^64 + n - 8. */
  lemma SplitMic(env: Env, tk: Bytes, payload: Bytes, n: nat)
    requires |tk| == 32 && n < 8 && |payload| < SIZE_T - 20
    ensures IsHeader(PartHeader(1, false))
    ensures var h := PartHeader(1, false);
            var whole := payload + Mic(MicKey(tk, h), MichaelHeader(h), payload);
            var k := |whole| - n;
            var e0, e1 := Part(env, tk, 0, true, whole[..k]), Part(env, tk, 1, false, whole[k..]);
            && e0.Good() && e1.Good()
            && Returned(env, [e0], e1) == Some(Decrypted(whole[k..], SIZE_T + n - 8, MicOk))
  {
    hide Mic, MicKey, MichaelHeader, PartHeader, IsHeader, MoreFragments, FragmentNumber, SequenceNumber, Addr1, Addr2;
    hide Part, Returned;
    HeaderFields(1, false);
    var h := PartHeader(1, false);
    var mic := Mic(MicKey(tk, h), MichaelHeader(h), payload);
    var whole := payload + mic;
    var k := |whole| - n;
    assert whole[..|whole| - 8] == payload && whole[|whole| - 8..] == mic;
    assert MicMatches(tk, h, whole);
    hide MicMatches;
    SplitAccepted(env, tk, whole, k);
  }

  lemma SplitAccepted(env: Env, tk: Bytes, whole: Bytes, k: nat)
    requires |tk| == 32 && IsHeader(PartHeader(1, false)) && 8 <= |whole| < SIZE_T - 12 && |whole| - 8 < k <= |whole|
    requires MicMatches(tk, PartHeader(1, false), whole)
    ensures var e0, e1 := Part(env, tk, 0, true, whole[..k]), Part(env, tk, 1, false, whole[k..]);
            && e0.Good() && e1.Good()
            && Returned(env, [e0], e1) == Some(Decrypted(whole[k..], SIZE_T + |whole| - k - 8, MicOk))
  {
    hide MoreFragments, FragmentNumber, SequenceNumber, Addr1, Addr2, IsHeader, PartHeader, Part;
    hide Body, Bodies, After, Completes, MicMatches, Returned;
    var e0, e1 := Part(env, tk, 0, true, whole[..k]), Part(env, tk, 1, false, whole[k..]);
    PartFields(env, tk, 0, true, whole[..k]);
    PartFields(env, tk, 1, false, whole[k..]);
    var fs := [e0, e1];
    TwoBodies(env, fs);
    assert whole[..k] + whole[k..] == whole;
    assert [] + fs[..1] == [e0];
    MsduArrives(env, [], fs);
    LengthIff(env, [e0], e1);
  }

  lemma TwoBodies(env: Env, fs: seq<Packet>)
    requires GoodRun(fs) && |fs| == 2 && forall k :: 0 <= k < |fs| ==> Body(env, fs[k]).Some?
    ensures Bodies(env, fs) == Body(env, fs[0]).value + Body(env, fs[1]).value
  {
    hide Body, IsHeader, Bodies;
    BodiesSnoc(env, [], fs[0]);
    BodiesSnoc(env, [fs[0]], fs[1]);
    assert [] + [fs[0]] == [fs[0]] && [fs[0]] + [fs[1]] == fs;
    NoBodies(env);
  }

  lemma NoBodies(env: Env)
    ensures Bodies(env, []) == []
  {
  }

  lemma BodiesSnoc(env: Env, fs: seq<Packet>, e: Packet)
    requires GoodRun(fs) && e.Good() && Body(env, e).Some?
    requires forall k :: 0 <= k < |fs| ==> Body(env, fs[k]).Some?
    ensures GoodRun(fs + [e]) && (forall k :: 0 <= k < |fs| + 1 ==> Body(env, (fs + [e])[k]).Some?)
    ensures Bodies(env, fs + [e]) == Bodies(env, fs) + Body(env, e).value
  {
    hide Body, IsHeader;
    assert (fs + [e])[..|fs|] == fs;
  }

  ghost predicate IsMicOf(tk: Bytes, h: Bytes, payload: Bytes, mic: Bytes)
    requires |tk| == 32 && IsHeader(h)
  {
    mic == Mic(MicKey(tk, h), MichaelHeader(h), payload)
  }

  /** Fragment 1 on its own, with a wrong MIC: returned unverified if there is a place for the Michael result, and
      refused if there is none. */
  lemma LoneFragment(env: Env, tk: Bytes, payload: Bytes, mic: Bytes)
    requires |tk| == 32 && |mic| == 8 && |payload| < SIZE_T - 20
    requires IsHeader(PartHeader(1, false)) && !IsMicOf(tk, PartHeader(1, false), payload, mic)
    ensures var plain, e := payload + mic, Part(env, tk, 1, false, payload + mic);
            && e.Good() && e.(wantMic := false).Good()
            && Returned(env, [], e) == Some(Decrypted(plain, |plain|, MicNotVerified))
            && Returned(env, [], e.(wantMic := false)) == None
  {
    hide Mic, MicKey, MichaelHeader, PartHeader, IsHeader, MoreFragments, FragmentNumber, SequenceNumber, Addr1, Addr2;
    hide Part, Returned, Verdict;
    var h, plain := PartHeader(1, false), payload + mic;
    PartFields(env, tk, 1, false, plain);
    var e := Part(env, tk, 1, false, plain);
    assert plain[..|plain| - 8] == payload && plain[|plain| - 8..] == mic;
    assert !MicMatches(tk, h, plain);
    hide MicMatches;
    SameBody(env, e);
    hide Body;
    ReturnedIs(env, [], e);
    ReturnedIs(env, [], e.(wantMic := false));
    VerdictMeaning(tk, h, plain, None, true);
    VerdictMeaning(tk, h, plain, None, false);
  }

  lemma SameBody(env: Env, e: Packet)
    requires e.Good()
    ensures e.(wantMic := false).Good() && Body(env, e.(wantMic := false)) == Body(env, e)
  {
  }
}
