/** What frames bring about in the key state of wlantest, stated on the frames themselves: which key is pending, when a
    rekey takes effect, which entries a first key reaches, what every counter stands at, and when a retry is allowed. */
module KeyLaws {
  import opened Wrappers
  import opened KeyState

  // ------------------------------------------------------------------ rekeying

  /** ptk is the first derived key under which the frame's MIC verifies. */
  ghost predicate Offers(e: Event, x: nat, ptk: Ptk) {
    e.EapolDerive? && e.i == x && exists k :: FirstAt(e.candidates, e.micOk, ptk, k)
  }

  ghost predicate OffersNone(e: Event, x: nat) {
    e.EapolDerive? && e.i == x ==> forall k :: 0 <= k < |e.candidates| ==> !e.micOk(e.candidates[k].kck)
  }

  lemma OnlyFirst(ps: seq<Ptk>, micOk: Bytes -> bool, s: Ptk, t: Ptk, j: int, k: int)
    requires FirstAt(ps, micOk, s, j) && FirstAt(ps, micOk, t, k)
    ensures s == t
  {
    assert !(j < k) && !(k < j);
  }

  lemma FirstOkIs(ps: seq<Ptk>, micOk: Bytes -> bool, ptk: Ptk, k: int)
    requires FirstAt(ps, micOk, ptk, k)
    ensures FirstOk(ps, micOk) == Some(ptk)
  {
    hide FirstOk;
    FirstOkMeaning(ps, micOk);
    var r := FirstOk(ps, micOk);
    var j :| FirstAt(ps, micOk, r.value, j);
    OnlyFirst(ps, micOk, r.value, ptk, j, k);
  }

  /** A verified derivation at an entry with a key makes that key pending and changes nothing else anywhere. */
  lemma OfferPends(w: World, e: Event, x: nat, ptk: Ptk)
    requires e.Good(|w|) && x < |w| && Offers(e, x, ptk) && w[x].ptkSet
    ensures Step(w, e) == w[x := w[x].(tptk := ptk, tptkSet := true)]
  {
    hide FirstOk, LastOk;
    var k :| FirstAt(e.candidates, e.micOk, ptk, k);
    FirstOkIs(e.candidates, e.micOk, ptk, k);
  }

  /** Nothing but a verified derivation or a promotion at x touches its pending key. */
  lemma PendingStep(w: World, e: Event, x: nat)
    requires e.Good(|w|) && x < |w| && OffersNone(e, x) && !Promotes(w, e, x)
    ensures Step(w, e)[x].tptk == w[x].tptk && Step(w, e)[x].tptkSet == w[x].tptkSet
  {
    hide LastOk, Sibling, Replay, ZeroRsc, FirstOk;
    if e.EapolDerive? { FirstOkMeaning(e.candidates, e.micOk); }
  }

  /** From a up to b no derivation is verified for x and nothing is promoted there. */
  ghost predicate Undisturbed(w: World, es: seq<Event>, x: nat, a: nat, b: nat)
    requires GoodRun(|w|, es) && x < |w| && a <= b <= |es|
  {
    forall k :: a <= k < b ==> OffersNone(es[k], x) && !Promotes(After(w, es[..k]), es[k], x)
  }

  lemma {:induction false} PendingKept(w: World, es: seq<Event>, x: nat, a: nat, b: nat)
    requires GoodRun(|w|, es) && x < |w| && a <= b <= |es| && Undisturbed(w, es, x, a, b)
    ensures var s, t := After(w, es[..a])[x], After(w, es[..b])[x]; t.tptk == s.tptk && t.tptkSet == s.tptkSet
    decreases b
  {
    hide After, Step, Promotes, OffersNone;
    if a < b {
      PendingKept(w, es, x, a, b - 1);
      AfterNext(w, es, b - 1);
      PendingStep(After(w, es[..b - 1]), es[b - 1], x);
    }
  }

  /** The event confirms the key: a message 4/4 whose MIC verifies under it, or a data frame that decrypts under it and
      under no other known key. */
  ghost predicate Confirms(s: Sta, e: Event, x: nat, ptk: Ptk) {
    && e.i == x
    && (|| (e.Eapol4? && e.micOk(ptk.kck))
        || (&& e.DataFrame? && e.f.longEnough && !e.f.decrypts && e.f.tptkDecrypts
            && (e.f.extIv || (!s.ptkSet && !e.f.tdls && !e.f.presetsKnown))))
  }

  /** Rekeying, over any run: a key derived and verified for an entry that has one takes its place, with all counters at
      0, as soon as it is confirmed, whatever other frames come in between. */
  lemma RekeyCompletes(w: World, es: seq<Event>, x: nat, a: nat, b: nat, ptk: Ptk)
    requires GoodRun(|w|, es) && x < |w| && a < b < |es|
    requires After(w, es[..a])[x].ptkSet && Offers(es[a], x, ptk)
    requires Undisturbed(w, es, x, a + 1, b) && Confirms(After(w, es[..b])[x], es[b], x, ptk)
    ensures var s, t := After(w, es[..b])[x], After(w, es[..b + 1])[x];
            && s.tptkSet && s.tptk == ptk
            && t.ptkSet && t.ptk == ptk && !t.tptkSet && AllZero(t)
  {
    hide After, Step, Offers, Undisturbed, AllZero, Confirms;
    OfferedPends(w, es, x, a, ptk);
    PendingKept(w, es, x, a + 1, b);
    AfterNext(w, es, b);
    ConfirmInstalls(After(w, es[..b]), es[b], x, ptk);
  }

  lemma OfferedPends(w: World, es: seq<Event>, x: nat, a: nat, ptk: Ptk)
    requires GoodRun(|w|, es) && x < |w| && a < |es| && After(w, es[..a])[x].ptkSet && Offers(es[a], x, ptk)
    ensures var s := After(w, es[..a + 1])[x]; s.tptkSet && s.tptk == ptk
  {
    hide After, Step, Offers;
    OfferPends(After(w, es[..a]), es[a], x, ptk);
    AfterNext(w, es, a);
  }

  lemma ConfirmInstalls(w: World, e: Event, x: nat, ptk: Ptk)
    requires e.Good(|w|) && x < |w| && w[x].tptkSet && w[x].tptk == ptk && Confirms(w[x], e, x, ptk)
    ensures var t := Step(w, e)[x]; t.ptkSet && t.ptk == ptk && !t.tptkSet && AllZero(t)
  {
    hide Step, AllZero;
    assert Promotes(w, e, x);
    StepEffect(w, e, x);
  }

  // ------------------------------------------------------------------ first keys

  /** A first key, derived and verified at i, reaches exactly the other entries that have i's address, as their own or
      as a link address, under an AP of the same MLD address; they also learn i's MLD address. */
  lemma FirstKeyReaches(w: World, e: Event, ptk: Ptk, x: nat)
    requires e.Good(|w|) && x < |w| && x != e.i && Offers(e, e.i, ptk) && !w[e.i].ptkSet
    ensures Step(w, e)[e.i].ptkSet && Step(w, e)[e.i].ptk == ptk
    ensures var me, s, t := w[e.i], w[x], Step(w, e)[x];
            if (s.addr == me.addr || me.addr in s.links) && s.apMld == me.apMld then
              t.ptkSet && t.ptk == ptk && AllZero(t) && t.mld == me.mld && t.tptkSet == s.tptkSet
            else t == s
  {
    hide FirstOk, LastOk;
    var k :| FirstAt(e.candidates, e.micOk, ptk, k);
    FirstOkIs(e.candidates, e.micOk, ptk, k);
  }

  // ------------------------------------------------------------------ counters

  /** The event is a data frame of x that counts for the given counter: it carries a packet number, decrypts, and is
      not of a TDLS link. Without any key there is no counter. */
  ghost predicate Counts(e: Event, x: nat, fromAp: bool, tid: nat, hasKey: bool) {
    && e.DataFrame? && e.i == x && e.f.fromAp == fromAp && e.f.tid == tid
    && e.f.longEnough && e.f.extIv && e.f.decrypts && !e.f.tdls && (hasKey || e.f.presetsKnown)
  }

  ghost function CounterAt(w: World, es: seq<Event>, x: nat, k: nat, fromAp: bool, tid: nat): nat
    requires GoodRun(|w|, es) && x < |w| && k <= |es| && tid < MGMT
  {
    Value(Rsc(After(w, es[..k])[x], fromAp, tid))
  }

  lemma CounterStep(w: World, e: Event, x: nat, fromAp: bool, tid: nat)
    requires e.Good(|w|) && x < |w| && tid < MGMT && !Installs(w, e, x)
    ensures var s, t := w[x], Step(w, e)[x];
            Value(Rsc(t, fromAp, tid)) ==
            if Counts(e, x, fromAp, tid, s.ptkSet) && Value(e.f.pn) > Value(Rsc(s, fromAp, tid)) then Value(e.f.pn)
            else Value(Rsc(s, fromAp, tid))
  {
    hide FirstOk, LastOk, Sibling, ZeroRsc, Value, Memcmp;
    if e.DataFrame? && e.i == x {
      MemcmpIsOrder(e.f.pn, Rsc(w[x], e.f.fromAp, e.f.tid));
    }
  }

  /** n is the largest of start and the packet numbers that count from a up to b. */
  ghost predicate IsPeak(es: seq<Event>, x: nat, a: nat, b: nat, fromAp: bool, tid: nat, hasKey: bool,
                         start: nat, n: nat)
    requires a <= b <= |es|
  {
    && start <= n
    && (forall k :: a <= k < b && Counts(es[k], x, fromAp, tid, hasKey) ==> Value(es[k].f.pn) <= n)
    && (n == start || exists k :: a <= k < b && Counts(es[k], x, fromAp, tid, hasKey) && Value(es[k].f.pn) == n)
  }

  /** Every data counter is a high-water mark: between installations it is the largest packet number of all decrypted
      frames of its direction and TID, over any run. */
  lemma {:induction false} CounterIsPeak(w: World, es: seq<Event>, x: nat, a: nat, b: nat, fromAp: bool, tid: nat)
    requires GoodRun(|w|, es) && x < |w| && a <= b <= |es| && tid < MGMT && Quiet(w, es, x, a, b)
    ensures IsPeak(es, x, a, b, fromAp, tid, After(w, es[..a])[x].ptkSet,
                   CounterAt(w, es, x, a, fromAp, tid), CounterAt(w, es, x, b, fromAp, tid))
    decreases b
  {
    hide After, Step, Installs, Rsc, Value, NotBelow, Counts;
    if a < b {
      QuietPart(w, es, x, a, b, b - 1);
      CounterIsPeak(w, es, x, a, b - 1, fromAp, tid);
      CountersNeverDecrease(w, es, x, a, b - 1);
      AfterNext(w, es, b - 1);
      CounterStep(After(w, es[..b - 1]), es[b - 1], x, fromAp, tid);
      PeakGrows(es, x, a, b - 1, fromAp, tid, After(w, es[..a])[x].ptkSet, CounterAt(w, es, x, a, fromAp, tid),
                CounterAt(w, es, x, b - 1, fromAp, tid), CounterAt(w, es, x, b, fromAp, tid));
    }
  }

  lemma PeakGrows(es: seq<Event>, x: nat, a: nat, b: nat, fromAp: bool, tid: nat, hasKey: bool,
                  start: nat, n: nat, n': nat)
    requires a <= b < |es| && IsPeak(es, x, a, b, fromAp, tid, hasKey, start, n)
    requires n' == if Counts(es[b], x, fromAp, tid, hasKey) && Value(es[b].f.pn) > n then Value(es[b].f.pn) else n
    ensures IsPeak(es, x, a, b + 1, fromAp, tid, hasKey, start, n')
  {
    hide Value;
    if n' != start {
      if n' == n {
        var k :| a <= k < b && Counts(es[k], x, fromAp, tid, hasKey) && Value(es[k].f.pn) == n;
      } else {
        assert Counts(es[b], x, fromAp, tid, hasKey);
      }
    }
  }

  // ------------------------------------------------------------------ the retry mark

  /** A protected frame of x that no key opens: a data frame while no key is pending, or a management frame of a station
      with a key. */
  ghost predicate Unopened(s: Sta, e: Event, x: nat) {
    && e.i == x
    && (|| (&& e.DataFrame? && e.f.longEnough && !e.f.decrypts && !s.tptkSet
            && (e.f.extIv || (!s.ptkSet && !e.f.tdls && !e.f.presetsKnown)))
        || (e.MgmtFrame? && s.ptkSet && !e.m.decrypts))
  }

  lemma RetryStep(w: World, e: Event, x: nat)
    requires e.Good(|w|) && x < |w|
    ensures Step(w, e)[x].allowDuplicate <==> w[x].allowDuplicate || Unopened(w[x], e, x)
  {
    hide FirstOk, LastOk, Sibling, Replay, ZeroRsc;
  }

  ghost predicate UnopenedAt(w: World, es: seq<Event>, x: nat, k: nat)
    requires GoodRun(|w|, es) && x < |w| && k < |es|
  {
    Unopened(After(w, es[..k])[x], es[k], x)
  }

  /** A retry is allowed exactly when some frame before could not be opened, over any run. */
  lemma {:induction false} RetryIff(w: World, es: seq<Event>, x: nat, b: nat)
    requires GoodRun(|w|, es) && x < |w| && b <= |es|
    ensures After(w, es[..b])[x].allowDuplicate <==>
            w[x].allowDuplicate || exists k :: 0 <= k < b && UnopenedAt(w, es, x, k)
    decreases b
  {
    hide Step, Unopened, UnopenedAt, After;
    if b == 0 {
      NothingYet(w, es);
    } else {
      RetryIff(w, es, x, b - 1);
      RetryNext(w, es, x, b - 1);
    }
  }

  lemma NothingYet(w: World, es: seq<Event>)
    requires GoodRun(|w|, es)
    ensures After(w, es[..0]) == w
  {
  }

  lemma RetryNext(w: World, es: seq<Event>, x: nat, k: nat)
    requires GoodRun(|w|, es) && x < |w| && k < |es|
    ensures After(w, es[..k + 1])[x].allowDuplicate <==>
            After(w, es[..k])[x].allowDuplicate || UnopenedAt(w, es, x, k)
  {
    hide Step, Unopened, After;
    AfterNext(w, es, k);
    RetryStep(After(w, es[..k]), es[k], x);
  }

  // ------------------------------------------------------------------ addresses

  /** Which frame changes which address of an entry. */
  ghost predicate Addressed(w: World, e: Event, x: nat, t: Sta)
    requires e.Good(|w|) && x < |w|
  {
    var s := w[x];
    && t.addr == s.addr && t.bssid == s.bssid
    && t.apMld == (if e.ApMldLearned? && w[e.i].bssid == s.bssid then e.mac else s.apMld)
    && t.links == (if e.StaMldLearned? && e.i == x then e.links else s.links)
    && t.mld == (if e.StaMldLearned? && e.i == x then e.mld
                 else if Spreads(w, e, x) then w[e.i].mld else s.mld)
  }

  lemma AddressStep(w: World, e: Event, x: nat)
    requires e.Good(|w|) && x < |w|
    ensures Addressed(w, e, x, Step(w, e)[x])
  {
    hide FirstOk, LastOk, Sibling, ZeroRsc;
    if e.EapolDerive? {
      DeriveAddresses(w, e, x);
    } else if e.DataFrame? {
      DataAddresses(w, e, x);
    }
  }

  lemma DeriveAddresses(w: World, e: Event, x: nat)
    requires e.Good(|w|) && x < |w| && e.EapolDerive?
    ensures Addressed(w, e, x, Step(w, e)[x])
  {
    hide FirstOk, LastOk, Sibling, ZeroRsc;
  }

  lemma DataAddresses(w: World, e: Event, x: nat)
    requires e.Good(|w|) && x < |w| && e.DataFrame?
    ensures Addressed(w, e, x, Step(w, e)[x])
  {
    hide Dropped, Replay, ZeroRsc, OnlyZeroTk;
  }
}
