/** Runs of received TKIP frames through one fragment state (wlantest keeps a single struct tkip_frag for all stations):
    what is reassembled, what Michael is computed over, and what length is reported. */
module TkipRuns {
  import opened Michael
  import opened TkipMixing
  import opened Rc4
  import opened Tkip
  import opened Wrappers

  /** A call of tkip_decrypt. */
  datatype Packet = Packet(tk: Bytes, h: Bytes, data: Bytes, wantMic: bool)
  {
    ghost predicate Good() {
      |tk| == 32 && |h| >= 24 && IsHeader(h)
    }
  }

  ghost predicate GoodRun(es: seq<Packet>) {
    forall k :: 0 <= k < |es| ==> es[k].Good()
  }

  ghost function Body(env: Env, e: Packet): Option<Bytes>
    requires e.Good()
  {
    Opens(env, e.tk, e.h, e.data)
  }

  /** The fragment state after a run, from a fresh start. */
  ghost function After(env: Env, es: seq<Packet>): Frag
    requires GoodRun(es)
  {
    if es == [] then Frag(None, [], [], 0, 0)
    else
      var e := es[|es| - 1];
      Outcome(env, e.tk, e.h, e.data, e.wantMic, After(env, es[..|es| - 1])).1
  }

  /** What tkip_decrypt returns for e after the run es. */
  ghost function Returned(env: Env, es: seq<Packet>, e: Packet): Option<Decrypted>
    requires GoodRun(es) && e.Good()
  {
    Outcome(env, e.tk, e.h, e.data, e.wantMic, After(env, es)).0
  }

  lemma AfterSnoc(env: Env, es: seq<Packet>, e: Packet)
    requires GoodRun(es) && e.Good()
    ensures GoodRun(es + [e])
    ensures After(env, es + [e]) ==
            if Body(env, e).None? then After(env, es) else Stored(After(env, es), e.h, Body(env, e).value)
  {
    hide Opens, Stored, Verdict, Completes;
    assert (es + [e])[..|es|] == es;
  }

  // ------------------------------------------------------------------ the frames behind the buffer

  ghost predicate StartsAt(env: Env, es: seq<Packet>, i: nat)
    requires GoodRun(es) && i < |es|
  {
    Body(env, es[i]).Some? && Starts(es[i].h)
  }

  ghost predicate ContinuesAt(env: Env, es: seq<Packet>, i: nat)
    requires GoodRun(es) && i < |es|
  {
    Body(env, es[i]).Some? && !Starts(es[i].h) && Continues(After(env, es[..i]), es[i].h)
  }

  ghost predicate CompletesAt(env: Env, es: seq<Packet>, i: nat)
    requires GoodRun(es) && i < |es|
  {
    Body(env, es[i]).Some? && Completes(After(env, es[..i]), es[i].h)
  }

  lemma PrefixGood(es: seq<Packet>, n: nat)
    requires GoodRun(es) && n <= |es|
    ensures GoodRun(es[..n])
  {
  }

  /** The positions of the frames that make up the stored buffer. */
  ghost function Parts(env: Env, es: seq<Packet>): seq<nat>
    requires GoodRun(es)
  {
    if es == [] then []
    else
      var n := |es| - 1;
      PrefixGood(es, n);
      if StartsAt(env, es, n) then [n]
      else if ContinuesAt(env, es, n) then Parts(env, es[..n]) + [n]
      else Parts(env, es[..n])
  }

  ghost function Joined(env: Env, es: seq<Packet>, ps: seq<nat>): Bytes
    requires GoodRun(es) && forall k :: 0 <= k < |ps| ==> ps[k] < |es|
  {
    if ps == [] then []
    else
      var body := Body(env, es[ps[|ps| - 1]]);
      Joined(env, es, ps[..|ps| - 1]) + if body.Some? then body.value else []
  }

  /** ps lists, in order of arrival, fragments 0, 1, ..., of one MSDU of f's addresses and sequence number. */
  ghost predicate InOrder(env: Env, es: seq<Packet>, ps: seq<nat>, f: Frag)
    requires GoodRun(es)
  {
    && (forall k :: 0 <= k < |ps| ==> ps[k] < |es|)
    && (forall k, l :: 0 <= k < l < |ps| ==> ps[k] < ps[l])
    && (forall k :: 0 <= k < |ps| ==>
          && Body(env, es[ps[k]]).Some?
          && FragmentNumber(es[ps[k]].h) == k && SequenceNumber(es[ps[k]].h) == f.sn
          && Addr1(es[ps[k]].h) == f.ra && Addr2(es[ps[k]].h) == f.ta)
    && (|ps| > 0 ==> MoreFragments(es[ps[0]].h))
  }

  /** What holds of the stored state and the frames it came from. */
  ghost predicate Consistent(env: Env, es: seq<Packet>, ps: seq<nat>, f: Frag)
    requires GoodRun(es)
  {
    && InOrder(env, es, ps, f)
    && (f.buf.None? ==> ps == [])
    && (f.buf.Some? ==> |ps| == f.fn + 1 && f.buf.value == Joined(env, es, ps))
  }

  lemma {:induction false} JoinedExtended(env: Env, es: seq<Packet>, e: Packet, ps: seq<nat>)
    requires GoodRun(es) && e.Good() && forall k :: 0 <= k < |ps| ==> ps[k] < |es|
    ensures Joined(env, es + [e], ps) == Joined(env, es, ps)
    decreases |ps|
  {
    hide Body;
    if ps != [] { JoinedExtended(env, es, e, ps[..|ps| - 1]); }
  }

  lemma StepKept(env: Env, es: seq<Packet>, e: Packet, ps: seq<nat>, f: Frag)
    requires GoodRun(es) && e.Good() && Consistent(env, es, ps, f)
    ensures Consistent(env, es + [e], ps, f)
  {
    hide MoreFragments, FragmentNumber, SequenceNumber, Addr1, Addr2, Body, IsHeader;
    JoinedExtended(env, es, e, ps);
  }

  lemma StepStarted(env: Env, es: seq<Packet>, i: nat, plain: Bytes, f: Frag)
    requires GoodRun(es) && i < |es| && Body(env, es[i]) == Some(plain) && Starts(es[i].h)
    ensures Consistent(env, es, [i], Stored(f, es[i].h, plain))
  {
    hide MoreFragments, FragmentNumber, SequenceNumber, Addr1, Addr2, Body, IsHeader, Joined, Stored, Starts;
    StoredStart(f, es[i].h, plain);
    JoinedSingle(env, es, i);
  }

  lemma StoredStart(f: Frag, h: Bytes, plain: Bytes)
    requires |h| >= 24 && Starts(h)
    ensures Stored(f, h, plain) == Frag(Some(plain), Addr1(h), Addr2(h), SequenceNumber(h), 0)
    ensures FragmentNumber(h) == 0 && MoreFragments(h)
  {
    hide MoreFragments, FragmentNumber, SequenceNumber, Addr1, Addr2;
  }

  lemma StoredNext(f: Frag, h: Bytes, plain: Bytes)
    requires |h| >= 24 && !Starts(h) && Continues(f, h)
    ensures Stored(f, h, plain) == f.(buf := Some(f.buf.value + plain), fn := FragmentNumber(h))
  {
    hide MoreFragments, FragmentNumber, SequenceNumber, Addr1, Addr2;
  }

  lemma JoinedSingle(env: Env, es: seq<Packet>, i: nat)
    requires GoodRun(es) && i < |es| && Body(env, es[i]).Some?
    ensures Joined(env, es, [i]) == Body(env, es[i]).value
  {
    hide Body, IsHeader;
    assert [i][..0] == [];
    assert Joined(env, es, []) == [];
    assert [] + Body(env, es[i]).value == Body(env, es[i]).value;
  }

  lemma StepContinued(env: Env, es: seq<Packet>, e: Packet, ps: seq<nat>, f: Frag)
    requires GoodRun(es) && e.Good() && Body(env, e).Some? && Consistent(env, es, ps, f)
    requires !Starts(e.h) && Continues(f, e.h)
    ensures Consistent(env, es + [e], ps + [|es|], Stored(f, e.h, Body(env, e).value))
  {
    hide MoreFragments, FragmentNumber, SequenceNumber, Addr1, Addr2, Body, IsHeader, Stored;
    StoredNext(f, e.h, Body(env, e).value);
    JoinedExtended(env, es, e, ps);
    assert (ps + [|es|])[..|ps|] == ps;
  }

  /** Over any run, the stored buffer is the in-order concatenation of the bodies of fragments 0..fn of one MSDU. */
  lemma {:induction false} StoredInOrder(env: Env, es: seq<Packet>)
    requires GoodRun(es)
    ensures Consistent(env, es, Parts(env, es), After(env, es))
    decreases |es|
  {
    if es != [] {
      hide Starts, Continues, Consistent, Stored, Body, After, Parts;
      var n := |es| - 1;
      var es', e := es[..n], es[n];
      StoredInOrder(env, es');
      assert es == es' + [e];
      AfterSnoc(env, es', e);
      PartsStep(env, es);
      var f := After(env, es');
      if StartsAt(env, es, n) {
        StepStarted(env, es, n, Body(env, e).value, f);
      } else if ContinuesAt(env, es, n) {
        StepContinued(env, es', e, Parts(env, es'), f);
      } else {
        StepKept(env, es', e, Parts(env, es'), f);
        if Body(env, e).Some? { NotStored(f, e.h, Body(env, e).value); }
      }
    } else {
      EmptyRun(env);
    }
  }

  lemma EmptyRun(env: Env)
    ensures Consistent(env, [], Parts(env, []), After(env, []))
  {
  }

  lemma PartsStep(env: Env, es: seq<Packet>)
    requires GoodRun(es) && es != []
    ensures var n := |es| - 1;
            Parts(env, es) == if StartsAt(env, es, n) then [n]
                              else if ContinuesAt(env, es, n) then Parts(env, es[..n]) + [n]
                              else Parts(env, es[..n])
  {
    hide Body, After, Starts, Continues;
  }

  lemma NotStored(f: Frag, h: Bytes, plain: Bytes)
    requires |h| >= 24 && !Starts(h) && !Continues(f, h)
    ensures Stored(f, h, plain) == f
  {
    hide MoreFragments, FragmentNumber, SequenceNumber, Addr1, Addr2;
  }

  // ------------------------------------------------------------------ what Michael is computed over

  /** Michael over all but the last eight bytes is those eight bytes. */
  ghost predicate MicMatches(tk: Bytes, h: Bytes, whole: Bytes)
    requires |tk| == 32 && IsHeader(h) && |whole| >= 8
  {
    Mic(MicKey(tk, h), MichaelHeader(h), whole[..|whole| - 8]) == whole[|whole| - 8..]
  }

  /** What Verdict reports, by the bytes that are checked: the reassembled MSDU, or the body alone. */
  lemma VerdictMeaning(tk: Bytes, h: Bytes, plain: Bytes, full: Option<Bytes>, wantMic: bool)
    requires |tk| == 32 && IsHeader(h) && (full.Some? ==> !MoreFragments(h)) && |plain| < SIZE_T
    ensures var r := Verdict(tk, h, plain, full, wantMic);
            var whole := if full.Some? then full.value else plain;
            if wantMic && full.None? && (MoreFragments(h) || FragmentNumber(h) > 0) then
              r == Some(Decrypted(plain, |plain|, MicNotVerified))
            else
              && (r.Some? <==> |whole| >= 8 && (wantMic || MicMatches(tk, h, whole)))
              && (r.Some? ==>
                    && r.value.mic == (if MicMatches(tk, h, whole) then MicOk else MicIncorrect)
                    && r.value.plain == plain
                    && r.value.length == if |plain| >= 8 then |plain| - 8 else SIZE_T + |plain| - 8)
  {
    hide MoreFragments, FragmentNumber, Mic, MichaelHeader, MicKey, IsHeader, SizeMinus;
    SizeWraps(|plain|);
  }

  lemma SizeWraps(n: nat)
    requires n < SIZE_T
    ensures SizeMinus(n, 8) == if n >= 8 then n - 8 else SIZE_T + n - 8
  {
  }

  /** The reassembled MSDU that e is checked against, if it completes one. */
  ghost function Whole(env: Env, es: seq<Packet>, e: Packet): Option<Bytes>
    requires GoodRun(es) && e.Good() && Body(env, e).Some?
  {
    var f := After(env, es);
    if Completes(f, e.h) then Stored(f, e.h, Body(env, e).value).buf else None
  }

  lemma ReturnedIs(env: Env, es: seq<Packet>, e: Packet)
    requires GoodRun(es) && e.Good()
    ensures Body(env, e).None? ==> Returned(env, es, e) == None
    ensures Body(env, e).Some? ==>
              && Returned(env, es, e) == Verdict(e.tk, e.h, Body(env, e).value, Whole(env, es, e), e.wantMic)
              && (Whole(env, es, e).Some? <==> Completes(After(env, es), e.h))
              && (Completes(After(env, es), e.h) ==> !MoreFragments(e.h))
  {
    hide MoreFragments, FragmentNumber, SequenceNumber, Addr1, Addr2, Opens, IsHeader, After, Verdict;
  }

  /** The completing frame of a run, and the parts it completes. */
  lemma CompletingParts(env: Env, es: seq<Packet>, e: Packet)
    requires GoodRun(es) && e.Good() && Body(env, e).Some? && Completes(After(env, es), e.h)
    ensures GoodRun(es + [e]) && CompletesAt(env, es + [e], |es|)
    ensures var f, ps := After(env, es + [e]), Parts(env, es + [e]);
            && InOrder(env, es + [e], ps, f) && |ps| == FragmentNumber(e.h) + 1 && ps[|ps| - 1] == |es|
            && f == Stored(After(env, es), e.h, Body(env, e).value)
            && f.buf == Some(Joined(env, es + [e], ps))
  {
    hide MoreFragments, FragmentNumber, SequenceNumber, Addr1, Addr2, Body, IsHeader, After, Parts, Joined, InOrder;
    AfterSnoc(env, es, e);
    StoredInOrder(env, es + [e]);
    assert (es + [e])[..|es|] == es;
    PartsStep(env, es + [e]);
  }

  /** A frame with fragment number above 0 whose Michael result is asked for is reported as correct or incorrect exactly
      when it completes the stored MSDU with at least eight bytes. What is checked is then the in-order join of the
      bodies of fragments 0..k of one MSDU, each received once and ending with this frame, and the result is "correct"
      exactly when Michael over it matches its last eight bytes. */
  lemma CheckedInOrder(env: Env, es: seq<Packet>, e: Packet)
    requires GoodRun(es) && e.Good() && FragmentNumber(e.h) > 0 && e.wantMic && |e.data| < SIZE_T
    ensures GoodRun(es + [e])
    ensures var r, f, ps := Returned(env, es, e), After(env, es + [e]), Parts(env, es + [e]);
            if r.Some? && r.value.mic != MicNotVerified then
              && CompletesAt(env, es + [e], |es|)
              && InOrder(env, es + [e], ps, f) && |ps| == FragmentNumber(e.h) + 1 && ps[|ps| - 1] == |es|
              && var whole := Joined(env, es + [e], ps);
                 |whole| >= 8 && (r.value.mic == MicOk <==> MicMatches(e.tk, e.h, whole))
            else
              CompletesAt(env, es + [e], |es|) ==> f.buf.Some? && |f.buf.value| < 8
  {
    hide MoreFragments, FragmentNumber, IsHeader, Stored, Completes, Verdict, MicMatches;
    hide Body, After, Parts, Joined, InOrder;
    assert (es + [e])[..|es|] == es;
    AfterSnoc(env, es, e);
    ReturnedIs(env, es, e);
    if Body(env, e).Some? {
      var plain := Body(env, e).value;
      if Completes(After(env, es), e.h) { CompletingParts(env, es, e); }
      BodyLength(env, e);
      VerdictMeaning(e.tk, e.h, plain, Whole(env, es, e), e.wantMic);
    }
  }

  /** Without a Michael result asked for, any frame that completes nothing, be it a fragment or not, is checked by
      itself: it is returned exactly when Michael over its own body matches. */
  lemma CheckedAlone(env: Env, es: seq<Packet>, e: Packet)
    requires GoodRun(es) && e.Good() && !e.wantMic && Body(env, e).Some? && !Completes(After(env, es), e.h)
    requires |e.data| < SIZE_T
    ensures var plain := Body(env, e).value;
            Returned(env, es, e).Some? <==> |plain| >= 8 && MicMatches(e.tk, e.h, plain)
  {
    hide MoreFragments, FragmentNumber, Body, IsHeader, After, Stored, Completes, Verdict, MicMatches;
    ReturnedIs(env, es, e);
    BodyLength(env, e);
    VerdictMeaning(e.tk, e.h, Body(env, e).value, None, e.wantMic);
  }

  // ------------------------------------------------------------------ the reported length

  /** The length reported for any frame of any run. It exceeds the returned fragment exactly when the frame completes an
      MSDU, Michael is checked and the fragment is shorter than the MIC: the subtraction then wraps. */
  lemma LengthIff(env: Env, es: seq<Packet>, e: Packet)
    requires GoodRun(es) && e.Good() && Returned(env, es, e).Some? && |e.data| < SIZE_T
    ensures Body(env, e).Some?
    ensures var r, plain := Returned(env, es, e).value, Body(env, e).value;
            && r.plain == plain
            && (r.length <= |plain| <==> !(Completes(After(env, es), e.h) && |plain| < 8))
            && r.length == (if r.mic == MicNotVerified then |plain|
                            else if |plain| >= 8 then |plain| - 8
                            else SIZE_T + |plain| - 8)
  {
    hide MoreFragments, FragmentNumber, Body, IsHeader, After, Stored, Completes, Verdict, MicMatches;
    ReturnedIs(env, es, e);
    BodyLength(env, e);
    VerdictMeaning(e.tk, e.h, Body(env, e).value, Whole(env, es, e), e.wantMic);
  }

  lemma BodyLength(env: Env, e: Packet)
    requires e.Good() && Body(env, e).Some?
    ensures |Body(env, e).value| == |e.data| - 12
  {
    hide Crypt, ReceiveKey, Word;
  }

  /** For a completing frame of at least eight bytes, the reported bytes are the end of the MSDU's payload. */
  lemma PayloadTail(env: Env, es: seq<Packet>, e: Packet)
    requires GoodRun(es) && e.Good() && Body(env, e).Some? && Completes(After(env, es), e.h)
    requires |Body(env, e).value| >= 8
    ensures GoodRun(es + [e])
    ensures var plain, n := Body(env, e).value, |Body(env, e).value| - 8;
            && After(env, es).buf.Some? && After(env, es + [e]).buf.Some?
            && var whole := After(env, es + [e]).buf.value;
               |whole| >= 8 && whole[..|whole| - 8] == After(env, es).buf.value + plain[..n]
  {
    hide MoreFragments, FragmentNumber, SequenceNumber, Addr1, Addr2, Body, IsHeader, After;
    AfterSnoc(env, es, e);
    var b, plain := After(env, es).buf.value, Body(env, e).value;
    assert After(env, es + [e]).buf.value == b + plain;
    assert (b + plain)[..|b + plain| - 8] == b + plain[..|plain| - 8];
  }

  // ------------------------------------------------------------------ every fragmented MSDU arrives

  /** fs are the fragments of one MSDU in order, and their bodies decrypt. */
  ghost predicate IsMsdu(env: Env, fs: seq<Packet>)
    requires GoodRun(fs)
  {
    && |fs| >= 2
    && forall k :: 0 <= k < |fs| ==>
         && Body(env, fs[k]).Some? && FragmentNumber(fs[k].h) == k
         && (MoreFragments(fs[k].h) <==> k < |fs| - 1)
         && SequenceNumber(fs[k].h) == SequenceNumber(fs[0].h)
         && Addr1(fs[k].h) == Addr1(fs[0].h) && Addr2(fs[k].h) == Addr2(fs[0].h)
  }

  ghost function Bodies(env: Env, fs: seq<Packet>): Bytes
    requires GoodRun(fs) && forall k :: 0 <= k < |fs| ==> Body(env, fs[k]).Some?
  {
    if fs == [] then [] else Bodies(env, fs[..|fs| - 1]) + Body(env, fs[|fs| - 1]).value
  }

  lemma {:induction false} PrefixStored(env: Env, es: seq<Packet>, fs: seq<Packet>, n: nat)
    requires GoodRun(es) && GoodRun(fs) && IsMsdu(env, fs) && 0 < n <= |fs|
    ensures GoodRun(es + fs[..n])
    ensures After(env, es + fs[..n]) ==
            Frag(Some(Bodies(env, fs[..n])), Addr1(fs[0].h), Addr2(fs[0].h), SequenceNumber(fs[0].h), n - 1)
    decreases n
  {
    hide MoreFragments, FragmentNumber, SequenceNumber, Addr1, Addr2, Body, IsHeader, After, Stored;
    var m := n - 1;
    var e := fs[m];
    assert es + fs[..n] == (es + fs[..m]) + [e];
    assert fs[..n][..m] == fs[..m];
    AfterSnoc(env, es + fs[..m], e);
    if m == 0 {
      assert Bodies(env, fs[..1]) == [] + Body(env, e).value == Body(env, e).value;
      StoredStart(After(env, es + fs[..0]), e.h, Body(env, e).value);
    } else {
      PrefixStored(env, es, fs, m);
      StoredNext(After(env, es + fs[..m]), e.h, Body(env, e).value);
    }
  }

  /** Whatever came before, the fragments of an MSDU received in order are joined, the last one completes it, and its
      Michael result is about all of it. */
  lemma MsduArrives(env: Env, es: seq<Packet>, fs: seq<Packet>)
    requires GoodRun(es) && GoodRun(fs) && IsMsdu(env, fs) && |fs[|fs| - 1].data| < SIZE_T
    ensures var n := |fs| - 1;
            && GoodRun(es + fs[..n])
            && Completes(After(env, es + fs[..n]), fs[n].h)
            && var whole, r := Bodies(env, fs), Returned(env, es + fs[..n], fs[n]);
               && (r.Some? <==> |whole| >= 8 && (fs[n].wantMic || MicMatches(fs[n].tk, fs[n].h, whole)))
               && (r.Some? ==> r.value.mic == if MicMatches(fs[n].tk, fs[n].h, whole) then MicOk else MicIncorrect)
  {
    hide MoreFragments, FragmentNumber, SequenceNumber, Addr1, Addr2, Body, IsHeader, After, MicMatches, Verdict;
    hide Stored, Bodies, Returned;
    var n := |fs| - 1;
    PrefixStored(env, es, fs, n);
    PrefixStored(env, es, fs, n + 1);
    var e, run := fs[n], es + fs[..n];
    assert fs[..n + 1] == fs;
    assert es + fs == run + [e];
    AfterSnoc(env, run, e);
    assert Completes(After(env, run), e.h);
    ReturnedIs(env, run, e);
    BodyLength(env, e);
    VerdictMeaning(e.tk, e.h, Body(env, e).value, Whole(env, run, e), e.wantMic);
  }

  // ------------------------------------------------------------------ fragments after the last

  /** From its first part on, the parts of the buffer are exactly the frames that continued it; nothing restarted. */
  ghost predicate Tracks(env: Env, es: seq<Packet>, ps: seq<nat>)
    requires GoodRun(es)
  {
    ps != [] ==>
      && ps[0] < |es| && StartsAt(env, es, ps[0])
      && forall i :: ps[0] < i < |es| ==> !StartsAt(env, es, i) && (i in ps <==> ContinuesAt(env, es, i))
  }

  lemma EarlierSame(env: Env, es: seq<Packet>, n: nat, i: nat)
    requires GoodRun(es) && i < n <= |es|
    ensures StartsAt(env, es[..n], i) == StartsAt(env, es, i)
    ensures ContinuesAt(env, es[..n], i) == ContinuesAt(env, es, i)
  {
    assert es[..n][..i] == es[..i];
  }

  lemma {:induction false} PartsTrack(env: Env, es: seq<Packet>)
    requires GoodRun(es)
    ensures Tracks(env, es, Parts(env, es))
    decreases |es|
  {
    hide Body, After, Parts, StartsAt, ContinuesAt, Tracks;
    if es == [] {
      EmptyTracks(env);
    } else {
      var n := |es| - 1;
      var ps := Parts(env, es[..n]);
      PartsTrack(env, es[..n]);
      PartsStep(env, es);
      PartsBelow(env, es[..n]);
      if StartsAt(env, es, n) {
        StartTracks(env, es);
      } else {
        if ContinuesAt(env, es, n) { ContinuedNonempty(env, es); }
        StepTracks(env, es, ps);
      }
    }
  }

  lemma EmptyTracks(env: Env)
    ensures Tracks(env, [], Parts(env, []))
  {
  }

  lemma StartTracks(env: Env, es: seq<Packet>)
    requires GoodRun(es) && es != [] && StartsAt(env, es, |es| - 1)
    ensures Tracks(env, es, [|es| - 1])
  {
    hide StartsAt;
  }

  lemma StepTracks(env: Env, es: seq<Packet>, ps: seq<nat>)
    requires GoodRun(es) && es != [] && Tracks(env, es[..|es| - 1], ps) && !StartsAt(env, es, |es| - 1)
    requires forall k :: 0 <= k < |ps| ==> ps[k] < |es| - 1
    requires ContinuesAt(env, es, |es| - 1) ==> ps != []
    ensures Tracks(env, es, if ContinuesAt(env, es, |es| - 1) then ps + [|es| - 1] else ps)
  {
    hide Body, After, StartsAt, ContinuesAt, Starts, Continues;
    if ps != [] {
      TracksEarlier(env, es, ps);
      var n := |es| - 1;
      var qs := if ContinuesAt(env, es, n) then ps + [n] else ps;
      assert qs[0] == ps[0];
      forall i | ps[0] < i < |es|
        ensures !StartsAt(env, es, i) && (i in qs <==> ContinuesAt(env, es, i))
      {
        AppendedMember(ps, n, i);
      }
    }
  }

  lemma AppendedMember(ps: seq<nat>, n: nat, i: nat)
    requires forall k :: 0 <= k < |ps| ==> ps[k] < n
    ensures i in ps + [n] <==> i in ps || i == n
    ensures n !in ps
  {
  }

  lemma TracksEarlier(env: Env, es: seq<Packet>, ps: seq<nat>)
    requires GoodRun(es) && es != [] && ps != [] && Tracks(env, es[..|es| - 1], ps)
    ensures ps[0] < |es| - 1 && StartsAt(env, es, ps[0])
    ensures forall i :: ps[0] < i < |es| - 1 ==> !StartsAt(env, es, i) && (i in ps <==> ContinuesAt(env, es, i))
  {
    hide Body, After, StartsAt, ContinuesAt;
    var n := |es| - 1;
    EarlierSame(env, es, n, ps[0]);
    forall i | ps[0] < i < n
      ensures !StartsAt(env, es, i) && (i in ps <==> ContinuesAt(env, es, i))
    {
      EarlierSame(env, es, n, i);
    }
  }

  lemma PartsBelow(env: Env, es: seq<Packet>)
    requires GoodRun(es)
    ensures forall k :: 0 <= k < |Parts(env, es)| ==> Parts(env, es)[k] < |es|
  {
    hide Body, After, Parts;
    StoredInOrder(env, es);
  }

  lemma ContinuedNonempty(env: Env, es: seq<Packet>)
    requires GoodRun(es) && es != [] && ContinuesAt(env, es, |es| - 1)
    ensures Parts(env, es[..|es| - 1]) != []
  {
    hide Body, After, Parts, MoreFragments, FragmentNumber;
    StoredInOrder(env, es[..|es| - 1]);
  }

  /** All parts but the last have the more-fragments bit. */
  ghost predicate Announced(es: seq<Packet>, ps: seq<nat>)
    requires GoodRun(es)
  {
    forall k :: 0 <= k < |ps| - 1 && ps[k] < |es| ==> MoreFragments(es[ps[k]].h)
  }

  /** No frame from position i up to the last but one completed an MSDU. */
  ghost predicate NoneCompleted(env: Env, es: seq<Packet>, i: nat)
    requires GoodRun(es)
  {
    forall k :: i <= k < |es| - 1 ==> !CompletesAt(env, es, k)
  }

  /** In a completed MSDU all parts but the last announce more fragments if and only if no frame received since its
      first part had completed an MSDU already. (The buffer is kept after completion, so that a further fragment with
      the next number is still appended and checked.) */
  lemma AnnouncedIff(env: Env, es: seq<Packet>, e: Packet)
    requires GoodRun(es) && e.Good() && Body(env, e).Some? && Completes(After(env, es), e.h)
    ensures GoodRun(es + [e])
    ensures var run, ps := es + [e], Parts(env, es + [e]);
            && |ps| > 0 && (Announced(run, ps) <==> NoneCompleted(env, run, ps[0]))
  {
    hide MoreFragments, FragmentNumber, SequenceNumber, Addr1, Addr2, Body, IsHeader, After, Parts, Joined;
    var run, ps := es + [e], Parts(env, es + [e]);
    CompletingParts(env, es, e);
    PartsTrack(env, run);
    hide CompletesAt, StartsAt, ContinuesAt;
    forall k | 0 <= k < |ps| - 1
      ensures ps[0] <= ps[k] < |es| && (MoreFragments(run[ps[k]].h) <==> !CompletesAt(env, run, ps[k]))
    {
      assert ps[|ps| - 1] == |es|;
      assert k > 0 ==> ps[0] < ps[k] && ps[k] in ps;
      PartCompletesIff(env, run, ps[k]);
    }
    forall i | ps[0] <= i < |es| && CompletesAt(env, run, i)
      ensures exists k :: 0 <= k < |ps| - 1 && ps[k] == i
    {
      PartCompletesIff(env, run, i);
      assert i in ps;
      var k :| 0 <= k < |ps| && ps[k] == i;
      assert ps[|ps| - 1] == |es|;
    }
  }

  /** A frame completes an MSDU exactly if it continues one and announces nothing more; a first fragment does not. */
  lemma PartCompletesIff(env: Env, es: seq<Packet>, i: nat)
    requires GoodRun(es) && i < |es|
    ensures CompletesAt(env, es, i) <==> ContinuesAt(env, es, i) && !MoreFragments(es[i].h)
    ensures StartsAt(env, es, i) ==> MoreFragments(es[i].h)
  {
    hide MoreFragments, FragmentNumber, SequenceNumber, Addr1, Addr2, Body, IsHeader, After;
  }
}
