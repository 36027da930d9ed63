/** Pairwise key state of wlantest: hostap/wlantest/sta.c, rx_eapol.c, rx_data.c and rx_mgmt.c. The first half gives
    each frame's effect as a function on values and proves what every run keeps; the second half is the code that
    updates station records in place, proved against those functions. */
module KeyState {
  import opened Wrappers

  type byte = x: int | 0 <= x < 256
  type Bytes = seq<byte>
  type Mac = Bytes

  // ------------------------------------------------------------------ packet numbers

  type Pn = s: Bytes | |s| == 6 witness [0, 0, 0, 0, 0, 0]

  const ZERO_PN: Pn := [0, 0, 0, 0, 0, 0]

  /** The sign of os_memcmp: the first differing byte decides. */
  function Memcmp(s: Bytes, t: Bytes): int
    requires |s| == |t|
  {
    if s == [] then 0
    else if s[0] != t[0] then s[0] - t[0]
    else Memcmp(s[1..], t[1..])
  }

  /** A packet number read as a big-endian integer. */
  function Value(s: Bytes): nat {
    if s == [] then 0 else Value(s[..|s| - 1]) * 256 + s[|s| - 1]
  }

  function Weight(n: nat): nat {
    if n == 0 then 1 else 256 * Weight(n - 1)
  }

  lemma {:induction false} ValueFront(s: Bytes)
    requires |s| > 0
    ensures Value(s) == s[0] * Weight(|s| - 1) + Value(s[1..])
    ensures 0 <= Value(s[1..]) < Weight(|s| - 1)
    decreases |s|
  {
    if |s| > 1 {
      var t, n := s[..|s| - 1], |s|;
      ValueFront(t);
      assert t[1..] == s[1..][..n - 2];
      FrontAlgebra(s[0], Weight(n - 2), Value(t[1..]), s[n - 1]);
    } else {
      assert s[..0] == [] && s[1..] == [];
    }
  }

  lemma FrontAlgebra(a: int, w: int, v: int, b: int)
    ensures (a * w + v) * 256 + b == a * (256 * w) + (v * 256 + b)
  {
  }

  /** memcmp on packet numbers is numeric order. */
  lemma {:induction false} MemcmpIsOrder(s: Bytes, t: Bytes)
    requires |s| == |t|
    ensures Memcmp(s, t) < 0 <==> Value(s) < Value(t)
    ensures Memcmp(s, t) == 0 <==> Value(s) == Value(t)
    ensures Memcmp(s, t) == 0 <==> s == t
  {
    if s != [] {
      ValueFront(s);
      ValueFront(t);
      if s[0] == t[0] {
        MemcmpIsOrder(s[1..], t[1..]);
        assert s == [s[0]] + s[1..] && t == [t[0]] + t[1..];
      } else if s[0] < t[0] {
        LeadDecides(s[0], t[0], Weight(|s| - 1), Value(s[1..]), Value(t[1..]));
      } else {
        LeadDecides(t[0], s[0], Weight(|s| - 1), Value(t[1..]), Value(s[1..]));
      }
    }
  }

  lemma MulNonnegative(d: int, w: int)
    requires d >= 0 && w >= 0
    ensures d * w >= 0
  {
  }

  lemma LeadDecides(a: int, b: int, w: int, v: int, v': int)
    requires a < b && 0 <= v < w && 0 <= v' < w
    ensures a * w + v < b * w + v'
  {
    var d := b - a - 1;
    MulNonnegative(d, w);
    assert b * w == a * w + w + d * w by {
      assert b == a + 1 + d;
    }
  }

  // ------------------------------------------------------------------ stations as values

  datatype Ptk = Ptk(kck: Bytes, kek: Bytes, tk: Bytes)

  /** Counters 0..15 belong to the TIDs of data frames, the last one to management frames. */
  const MGMT := 16

  type Counters = s: seq<Pn> | |s| == 17 witness seq<Pn>(17, _ => ZERO_PN)

  function ZeroRsc(): (r: Counters)
    ensures forall k :: 0 <= k <= MGMT ==> r[k] == ZERO_PN
  {
    seq<Pn>(17, _ => ZERO_PN)
  }

  /** A station entry; apMld is the MLD address of its BSS and is shared by all entries with the same bssid. */
  datatype Sta = Sta(
    addr: Mac, bssid: Mac, links: seq<Mac>, apMld: Mac, mld: Mac,
    ptk: Ptk, ptkSet: bool, tptk: Ptk, tptkSet: bool,
    tods: Counters, fromds: Counters, allowDuplicate: bool)

  type World = seq<Sta>

  /** hostap/wlantest/sta.c sta_copy_ptk. */
  function Install(s: Sta, ptk: Ptk): Sta {
    s.(ptk := ptk, ptkSet := true, tods := ZeroRsc(), fromds := ZeroRsc())
  }

  /** hostap/wlantest/sta.c:337-352: another entry of the same station, in the same multi-link AP. */
  predicate Sibling(me: Sta, other: Sta) {
    (me.addr == other.addr || me.addr in other.links) && me.apMld == other.apMld
  }

  /** hostap/wlantest/sta.c sta_new_ptk: what it leaves in entry k. */
  function NewPtkAt(w: World, i: nat, ptk: Ptk, k: nat): Sta
    requires i < |w| && k < |w|
  {
    if k == i then Install(w[k], ptk)
    else if Sibling(w[i], w[k]) then Install(w[k], ptk).(mld := w[i].mld)
    else w[k]
  }

  function NewPtk(w: World, i: nat, ptk: Ptk): (w': World)
    requires i < |w|
    ensures |w'| == |w| && forall k :: 0 <= k < |w| ==> w'[k] == NewPtkAt(w, i, ptk, k)
  {
    seq(|w|, k requires 0 <= k < |w| => NewPtkAt(w, i, ptk, k))
  }

  /** The first key under whose KCK the MIC of the frame verifies. */
  function FirstOk(ps: seq<Ptk>, micOk: Bytes -> bool): Option<Ptk> {
    if ps == [] then None
    else if micOk(ps[0].kck) then Some(ps[0])
    else FirstOk(ps[1..], micOk)
  }

  /** The last such key; the loop over preset keys does not stop at the first. */
  function LastOk(ps: seq<Ptk>, micOk: Bytes -> bool): Option<Ptk> {
    if ps == [] then None
    else if micOk(ps[|ps| - 1].kck) then Some(ps[|ps| - 1])
    else LastOk(ps[..|ps| - 1], micOk)
  }

  /** ptk stands at place k of ps, the MIC verifies under it, and it does under no key before it. */
  ghost predicate FirstAt(ps: seq<Ptk>, micOk: Bytes -> bool, ptk: Ptk, k: int) {
    && 0 <= k < |ps| && ps[k] == ptk && micOk(ptk.kck)
    && forall i :: 0 <= i < k ==> !micOk(ps[i].kck)
  }

  /** ... and under no key after it. */
  ghost predicate LastAt(ps: seq<Ptk>, micOk: Bytes -> bool, ptk: Ptk, k: int) {
    && 0 <= k < |ps| && ps[k] == ptk && micOk(ptk.kck)
    && forall i :: k < i < |ps| ==> !micOk(ps[i].kck)
  }

  lemma {:induction false} FirstOkMeaning(ps: seq<Ptk>, micOk: Bytes -> bool)
    ensures var r := FirstOk(ps, micOk);
            if r.None? then forall k :: 0 <= k < |ps| ==> !micOk(ps[k].kck)
            else r.value in ps && exists k :: FirstAt(ps, micOk, r.value, k)
    decreases |ps|
  {
    if ps != [] {
      if micOk(ps[0].kck) {
        assert FirstAt(ps, micOk, ps[0], 0);
      } else {
        FirstOkMeaning(ps[1..], micOk);
        var r := FirstOk(ps[1..], micOk);
        if r.Some? {
          var k :| FirstAt(ps[1..], micOk, r.value, k);
          assert forall i :: 0 < i < |ps| ==> ps[i] == ps[1..][i - 1];
          assert FirstAt(ps, micOk, r.value, k + 1);
        } else {
          assert forall i :: 0 < i < |ps| ==> ps[i] == ps[1..][i - 1];
        }
      }
    }
  }

  lemma {:induction false} LastOkMeaning(ps: seq<Ptk>, micOk: Bytes -> bool)
    ensures var r := LastOk(ps, micOk);
            if r.None? then forall k :: 0 <= k < |ps| ==> !micOk(ps[k].kck)
            else r.value in ps && exists k :: LastAt(ps, micOk, r.value, k)
    decreases |ps|
  {
    if ps != [] {
      var n := |ps| - 1;
      if micOk(ps[n].kck) {
        assert LastAt(ps, micOk, ps[n], n);
      } else {
        LastOkMeaning(ps[..n], micOk);
        var r := LastOk(ps[..n], micOk);
        if r.Some? {
          var k :| LastAt(ps[..n], micOk, r.value, k);
          assert forall i :: 0 <= i < n ==> ps[i] == ps[..n][i];
          assert LastAt(ps, micOk, r.value, k);
        }
      }
    }
  }

  /** hostap/wlantest/rx_eapol.c derive_ptk and try_pmk. The candidates are the PTKs derived from the known PMKs, in the
      order in which they are tried; micOk tells under which KCK the MIC of the frame verifies. */
  function Derive(w: World, i: nat, candidates: seq<Ptk>, presets: seq<Ptk>, micOk: Bytes -> bool): (w': World)
    requires i < |w|
    ensures |w'| == |w|
  {
    match FirstOk(candidates, micOk)
    case Some(ptk) =>
      if w[i].ptkSet then w[i := w[i].(tptk := ptk, tptkSet := true)] else NewPtk(w, i, ptk)
    case None =>
      if w[i].ptkSet then w
      else
        match LastOk(presets, micOk)
        case Some(ptk) => w[i := Install(w[i], ptk)]
        case None => w
  }

  function Promote(s: Sta): Sta {
    Install(s, s.tptk).(tptkSet := false)
  }

  /** hostap/wlantest/rx_eapol.c rx_data_eapol_key_4_of_4; micOk tells under which KCK the MIC verifies. */
  function Msg4(s: Sta, micOk: Bytes -> bool): Sta {
    if !s.ptkSet && !s.tptkSet then s
    else if !micOk(if s.tptkSet then s.tptk.kck else s.ptk.kck) then s
    else if s.tptkSet then Promote(s)
    else s
  }

  /** A protected data frame with a TKIP, CCMP or GCMP header. decrypts: under the current PTK, another known
      PTK or the all-zero TK; tptkDecrypts: under the pending TPTK; tdls: a TDLS link key is used, so the counters
      are those of the link; presetsKnown: the list of preset PTKs is not empty. */
  datatype Frame = Frame(
    fromAp: bool, tid: nat, pn: Pn, longEnough: bool, extIv: bool, tdls: bool, presetsKnown: bool,
    decrypts: bool, tptkDecrypts: bool)

  function Rsc(s: Sta, fromAp: bool, tid: nat): Pn
    requires tid <= MGMT
  {
    if fromAp then s.fromds[tid] else s.tods[tid]
  }

  function SetRsc(s: Sta, fromAp: bool, tid: nat, pn: Pn): Sta
    requires tid <= MGMT
  {
    if fromAp then s.(fromds := s.fromds[tid := pn]) else s.(tods := s.tods[tid := pn])
  }

  /** No key at all: only the all-zero TK is tried, without a counter. */
  predicate OnlyZeroTk(s: Sta, f: Frame) {
    !s.ptkSet && !f.tdls && !f.presetsKnown
  }

  /** The frame is dropped before any decryption. */
  predicate Dropped(s: Sta, f: Frame) {
    !f.longEnough || (!OnlyZeroTk(s, f) && !f.extIv)
  }

  predicate Replay(s: Sta, f: Frame)
    requires f.tid < MGMT
  {
    Memcmp(f.pn, Rsc(s, f.fromAp, f.tid)) <= 0
  }

  /** The frame moves a counter of the station. */
  predicate Accepted(s: Sta, f: Frame)
    requires f.tid < MGMT
  {
    !Dropped(s, f) && f.decrypts && !OnlyZeroTk(s, f) && !f.tdls && !Replay(s, f)
  }

  /** hostap/wlantest/rx_data.c rx_data_bss_prot. */
  function Data(s: Sta, f: Frame): Sta
    requires f.tid < MGMT
  {
    if Dropped(s, f) then s
    else if f.decrypts then
      if Accepted(s, f) then SetRsc(s, f.fromAp, f.tid, f.pn) else s
    else if s.tptkSet then
      if f.tptkDecrypts then Promote(s) else s
    else s.(allowDuplicate := true)
  }

  /** A protected unicast management frame that is long enough and has the ExtIV bit; decrypts: under the PTK. */
  datatype Mgmt = Mgmt(fromAp: bool, pn: Pn, decrypts: bool)

  /** hostap/wlantest/rx_mgmt.c mgmt_decrypt. A replay is noted, but the counter is overwritten all the same. */
  function Management(s: Sta, m: Mgmt): Sta {
    if !s.ptkSet then s
    else if m.decrypts then SetRsc(s, m.fromAp, MGMT, m.pn)
    else s.(allowDuplicate := true)
  }

  /** hostap/wlantest/rx_eapol.c:160-173: message 1/4 rewrites the MLD address of the BSS, which all its entries see. */
  function ApMldSet(w: World, i: nat, mac: Mac): (w': World)
    requires i < |w|
    ensures |w'| == |w|
    ensures forall k :: 0 <= k < |w| ==> w'[k] == if w[k].bssid == w[i].bssid then w[k].(apMld := mac) else w[k]
  {
    seq(|w|, k requires 0 <= k < |w| => if w[k].bssid == w[i].bssid then w[k].(apMld := mac) else w[k])
  }

  // ------------------------------------------------------------------ runs

  datatype Event =
    | EapolDerive(i: nat, candidates: seq<Ptk>, presets: seq<Ptk>, micOk: Bytes -> bool)
    | Eapol4(i: nat, micOk: Bytes -> bool)
    | DataFrame(i: nat, f: Frame)
    | MgmtFrame(i: nat, m: Mgmt)
    | ApMldLearned(i: nat, mac: Mac)
    | StaMldLearned(i: nat, links: seq<Mac>, mld: Mac)
  {
    ghost predicate Good(n: nat) {
      i < n && (DataFrame? ==> f.tid < MGMT)
    }
  }

  function Step(w: World, e: Event): (w': World)
    requires e.Good(|w|)
    ensures |w'| == |w|
  {
    match e
    case EapolDerive(i, candidates, presets, micOk) => Derive(w, i, candidates, presets, micOk)
    case Eapol4(i, micOk) => w[i := Msg4(w[i], micOk)]
    case DataFrame(i, f) => w[i := Data(w[i], f)]
    case MgmtFrame(i, m) => w[i := Management(w[i], m)]
    case ApMldLearned(i, mac) => ApMldSet(w, i, mac)
    case StaMldLearned(i, links, mld) => w[i := w[i].(links := links, mld := mld)]
  }

  ghost predicate GoodRun(n: nat, es: seq<Event>) {
    forall k :: 0 <= k < |es| ==> es[k].Good(n)
  }

  ghost function After(w: World, es: seq<Event>): (w': World)
    requires GoodRun(|w|, es)
    ensures |w'| == |w|
  {
    if es == [] then w else Step(After(w, es[..|es| - 1]), es[|es| - 1])
  }

  /** The pending key is promoted at x: a valid message 4/4, or a data frame that decrypts only under it. */
  ghost predicate Promotes(w: World, e: Event, x: nat)
    requires e.Good(|w|) && x < |w|
  {
    && e.i == x && w[x].tptkSet
    && (|| (e.Eapol4? && e.micOk(w[x].tptk.kck))
        || (e.DataFrame? && !Dropped(w[x], e.f) && !e.f.decrypts && e.f.tptkDecrypts))
  }

  /** A first key is derived at e.i and copied to x. */
  ghost predicate Spreads(w: World, e: Event, x: nat)
    requires e.Good(|w|) && x < |w|
  {
    && e.EapolDerive? && !w[e.i].ptkSet && FirstOk(e.candidates, e.micOk).Some?
    && e.i != x && Sibling(w[e.i], w[x])
  }

  /** x, which has no key, gets one of its own. */
  ghost predicate FirstKey(w: World, e: Event, x: nat)
    requires e.Good(|w|) && x < |w|
  {
    && e.EapolDerive? && e.i == x && !w[x].ptkSet
    && (FirstOk(e.candidates, e.micOk).Some? || LastOk(e.presets, e.micOk).Some?)
  }

  ghost predicate Installs(w: World, e: Event, x: nat)
    requires e.Good(|w|) && x < |w|
  {
    Promotes(w, e, x) || Spreads(w, e, x) || FirstKey(w, e, x)
  }

  /** No data counter of t is below the one of s. */
  ghost predicate NotBelow(s: Sta, t: Sta) {
    forall d, k :: 0 <= k < MGMT ==> Value(Rsc(s, d, k)) <= Value(Rsc(t, d, k))
  }

  ghost predicate AllZero(s: Sta) {
    forall d, k :: 0 <= k <= MGMT ==> Rsc(s, d, k) == ZERO_PN
  }

  lemma ZeroCounters(s: Sta)
    requires s.tods == ZeroRsc() == s.fromds
    ensures AllZero(s)
  {
  }

  lemma NotBelowSame(s: Sta, t: Sta)
    requires s.tods == t.tods && s.fromds == t.fromds
    ensures NotBelow(s, t)
  {
  }

  lemma AcceptedRaises(s: Sta, f: Frame)
    requires f.tid < MGMT && !Replay(s, f)
    ensures NotBelow(s, SetRsc(s, f.fromAp, f.tid, f.pn))
  {
    hide Value;
    MemcmpIsOrder(f.pn, Rsc(s, f.fromAp, f.tid));
  }

  /** What a step may do to the entry x: either a key is installed there, in one of the three ways, and all its
      counters are zero; or its key stays and no data counter moves back. */
  ghost predicate Effect(w: World, e: Event, x: nat, w': World)
    requires e.Good(|w|) && x < |w| && |w'| == |w|
  {
    var s, t := w[x], w'[x];
    if Installs(w, e, x) then
      && t.ptkSet && AllZero(t)
      && (Promotes(w, e, x) ==> t.ptk == s.tptk && !t.tptkSet)
      && (Spreads(w, e, x) ==> t.ptk == FirstOk(e.candidates, e.micOk).value == w'[e.i].ptk)
      && (FirstKey(w, e, x) ==>
            var first := FirstOk(e.candidates, e.micOk);
            t.ptk == if first.Some? then first.value else LastOk(e.presets, e.micOk).value)
    else t.ptk == s.ptk && t.ptkSet == s.ptkSet && NotBelow(s, t)
  }

  lemma DeriveEffect(w: World, e: Event, x: nat)
    requires e.Good(|w|) && x < |w| && e.EapolDerive?
    ensures Effect(w, e, x, Step(w, e))
  {
    hide NotBelow, AllZero, FirstOk, LastOk, Sibling, ZeroRsc;
    var s, t := w[x], Step(w, e)[x];
    if Installs(w, e, x) {
      ZeroCounters(t);
    } else {
      NotBelowSame(s, t);
    }
  }

  lemma Msg4Effect(w: World, e: Event, x: nat)
    requires e.Good(|w|) && x < |w| && e.Eapol4?
    ensures Effect(w, e, x, Step(w, e))
  {
    hide NotBelow, AllZero, ZeroRsc;
    var s, t := w[x], Step(w, e)[x];
    if Installs(w, e, x) {
      ZeroCounters(t);
    } else {
      NotBelowSame(s, t);
    }
  }

  lemma DataEffect(w: World, e: Event, x: nat)
    requires e.Good(|w|) && x < |w| && e.DataFrame?
    ensures Effect(w, e, x, Step(w, e))
  {
    hide NotBelow, AllZero, ZeroRsc, Dropped, Replay, OnlyZeroTk;
    var s, t := w[x], Step(w, e)[x];
    if Installs(w, e, x) {
      ZeroCounters(t);
    } else if e.i == x && Accepted(s, e.f) {
      AcceptedRaises(s, e.f);
    } else {
      NotBelowSame(s, t);
    }
  }

  /** Every step has that effect on every entry. */
  lemma StepEffect(w: World, e: Event, x: nat)
    requires e.Good(|w|) && x < |w|
    ensures Effect(w, e, x, Step(w, e))
  {
    match e
    case EapolDerive(_, _, _, _) => DeriveEffect(w, e, x);
    case Eapol4(_, _) => Msg4Effect(w, e, x);
    case DataFrame(_, _) => DataEffect(w, e, x);
    case MgmtFrame(_, _) => MgmtEffect(w, e, x);
    case ApMldLearned(_, _) => AddressEffect(w, e, x);
    case StaMldLearned(_, _, _) => AddressEffect(w, e, x);
  }

  lemma MgmtEffect(w: World, e: Event, x: nat)
    requires e.Good(|w|) && x < |w| && e.MgmtFrame?
    ensures Effect(w, e, x, Step(w, e))
  {
    hide Value;
  }

  lemma AddressEffect(w: World, e: Event, x: nat)
    requires e.Good(|w|) && x < |w| && (e.ApMldLearned? || e.StaMldLearned?)
    ensures Effect(w, e, x, Step(w, e))
  {
    hide NotBelow, AllZero;
    NotBelowSame(w[x], Step(w, e)[x]);
  }

  // ------------------------------------------------------------------ the management counter

  /** The frame overwrites a management counter of x with a smaller number. */
  ghost predicate Lowers(w: World, e: Event, x: nat, fromAp: bool)
    requires e.Good(|w|) && x < |w|
  {
    && e.MgmtFrame? && e.i == x && e.m.fromAp == fromAp && e.m.decrypts && w[x].ptkSet
    && Value(e.m.pn) < Value(Rsc(w[x], fromAp, MGMT))
  }

  /** Without an installation, a step lowers a counter exactly when it is the management counter and the step is a
      decrypted management frame with a smaller packet number. */
  lemma LoweredIff(w: World, e: Event, x: nat, fromAp: bool, k: nat)
    requires e.Good(|w|) && x < |w| && k <= MGMT && !Installs(w, e, x)
    ensures Value(Rsc(Step(w, e)[x], fromAp, k)) < Value(Rsc(w[x], fromAp, k)) <==> k == MGMT && Lowers(w, e, x, fromAp)
  {
    hide Value;
    if k < MGMT {
      hide Step, Installs;
      StepEffect(w, e, x);
    } else {
      OtherKept(w, e, x, fromAp);
    }
  }

  /** Only a management frame touches a management counter outside an installation. */
  lemma OtherKept(w: World, e: Event, x: nat, fromAp: bool)
    requires e.Good(|w|) && x < |w| && !Installs(w, e, x)
    ensures Rsc(Step(w, e)[x], fromAp, MGMT) ==
            if e.MgmtFrame? && e.i == x && e.m.fromAp == fromAp && e.m.decrypts && w[x].ptkSet then e.m.pn
            else Rsc(w[x], fromAp, MGMT)
  {
    hide FirstOk, LastOk, Sibling, Dropped, Replay, ZeroRsc;
  }

  /** An installed key is only replaced by promotion or by a copy from a sibling entry. */
  lemma ReplacedOnlyBy(w: World, e: Event, x: nat)
    requires e.Good(|w|) && x < |w| && w[x].ptkSet
    ensures Step(w, e)[x].ptkSet
    ensures Step(w, e)[x].ptk != w[x].ptk ==> (Promotes(w, e, x) || Spreads(w, e, x)) && AllZero(Step(w, e)[x])
  {
    StepEffect(w, e, x);
  }

  /** No event from a up to b installs a key at x. */
  ghost predicate Quiet(w: World, es: seq<Event>, x: nat, a: nat, b: nat)
    requires GoodRun(|w|, es) && x < |w| && a <= b <= |es|
  {
    forall k :: a <= k < b ==> !Installs(After(w, es[..k]), es[k], x)
  }

  lemma AfterNext(w: World, es: seq<Event>, k: nat)
    requires GoodRun(|w|, es) && k < |es|
    ensures After(w, es[..k + 1]) == Step(After(w, es[..k]), es[k])
  {
    assert es[..k + 1][..k] == es[..k];
  }

  /** Between installations the key stays and no data counter ever decreases, over any run. */
  lemma {:induction false} CountersNeverDecrease(w: World, es: seq<Event>, x: nat, a: nat, b: nat)
    requires GoodRun(|w|, es) && x < |w| && a <= b <= |es| && Quiet(w, es, x, a, b)
    ensures var s, t := After(w, es[..a])[x], After(w, es[..b])[x];
            t.ptk == s.ptk && t.ptkSet == s.ptkSet && NotBelow(s, t)
    decreases b
  {
    hide After, Step, Installs, Rsc, Value;
    if a < b {
      CountersNeverDecrease(w, es, x, a, b - 1);
      AfterNext(w, es, b - 1);
      StepEffect(After(w, es[..b - 1]), es[b - 1], x);
    }
  }

  /** Event k leaves the management counter at least as high as it was. */
  ghost predicate KeptAt(w: World, es: seq<Event>, x: nat, k: nat, fromAp: bool)
    requires GoodRun(|w|, es) && x < |w| && k < |es|
  {
    MgmtValue(w, es, x, k, fromAp) <= MgmtValue(w, es, x, k + 1, fromAp)
  }

  ghost function MgmtValue(w: World, es: seq<Event>, x: nat, k: nat, fromAp: bool): nat
    requires GoodRun(|w|, es) && x < |w| && k <= |es|
  {
    Value(Rsc(After(w, es[..k])[x], fromAp, MGMT))
  }

  /** The frame is a decrypted management frame of x in the given direction. */
  ghost predicate Numbered(e: Event, x: nat, fromAp: bool) {
    e.MgmtFrame? && e.i == x && e.m.fromAp == fromAp && e.m.decrypts
  }

  /** The packet numbers of these frames, from a up to b, begin at or above start and never fall. */
  ghost predicate NeverFall(es: seq<Event>, x: nat, a: nat, b: nat, fromAp: bool, start: nat)
    requires a <= b <= |es|
  {
    && (forall k :: a <= k < b && Numbered(es[k], x, fromAp) ==> start <= Value(es[k].m.pn))
    && (forall k, l :: a <= k < l < b && Numbered(es[k], x, fromAp) && Numbered(es[l], x, fromAp) ==>
                       Value(es[k].m.pn) <= Value(es[l].m.pn))
  }

  /** One event's effect on the management counter, by the frame alone. */
  lemma MgmtStep(w: World, es: seq<Event>, x: nat, a: nat, k: nat, fromAp: bool)
    requires GoodRun(|w|, es) && x < |w| && a <= k < |es| && Quiet(w, es, x, a, k + 1) && After(w, es[..a])[x].ptkSet
    ensures MgmtValue(w, es, x, k + 1, fromAp) ==
            if Numbered(es[k], x, fromAp) then Value(es[k].m.pn) else MgmtValue(w, es, x, k, fromAp)
  {
    hide After, Step, Installs, Rsc, Value, NotBelow;
    CountersNeverDecrease(w, es, x, a, k);
    AfterNext(w, es, k);
    OtherKept(After(w, es[..k]), es[k], x, fromAp);
  }

  /** Without a key nothing overwrites the counter. */
  lemma MgmtIdle(w: World, es: seq<Event>, x: nat, a: nat, k: nat, fromAp: bool)
    requires GoodRun(|w|, es) && x < |w| && a <= k < |es| && Quiet(w, es, x, a, k + 1) && !After(w, es[..a])[x].ptkSet
    ensures KeptAt(w, es, x, k, fromAp)
  {
    hide After, Step, Installs, Rsc, Value, NotBelow;
    CountersNeverDecrease(w, es, x, a, k);
    AfterNext(w, es, k);
    OtherKept(After(w, es[..k]), es[k], x, fromAp);
  }

  lemma {:induction false} MgmtMonotone(w: World, es: seq<Event>, x: nat, a: nat, b: nat, fromAp: bool)
    requires GoodRun(|w|, es) && x < |w| && a <= b <= |es|
    requires forall k :: a <= k < b ==> KeptAt(w, es, x, k, fromAp)
    ensures MgmtValue(w, es, x, a, fromAp) <= MgmtValue(w, es, x, b, fromAp)
    decreases b
  {
    hide MgmtValue;
    if a < b {
      MgmtMonotone(w, es, x, a, b - 1, fromAp);
      assert KeptAt(w, es, x, b - 1, fromAp);
    }
  }

  /** The counter is where it was at a, or holds the number of a frame since then. */
  lemma {:induction false} MgmtOrigin(w: World, es: seq<Event>, x: nat, a: nat, b: nat, fromAp: bool)
    requires GoodRun(|w|, es) && x < |w| && a <= b <= |es| && Quiet(w, es, x, a, b) && After(w, es[..a])[x].ptkSet
    ensures MgmtValue(w, es, x, b, fromAp) == MgmtValue(w, es, x, a, fromAp)
            || exists k :: && a <= k < b && Numbered(es[k], x, fromAp)
                           && MgmtValue(w, es, x, b, fromAp) == Value(es[k].m.pn)
    decreases b
  {
    hide MgmtValue, After, Installs, Value;
    if a < b {
      MgmtOrigin(w, es, x, a, b - 1, fromAp);
      MgmtStep(w, es, x, a, b - 1, fromAp);
    }
  }

  /** Between installations, the management counter of a station with a key never decreases exactly when the packet
      numbers of its decrypted management frames never fall, starting from the counter's value. */
  lemma MgmtCounterIff(w: World, es: seq<Event>, x: nat, a: nat, b: nat, fromAp: bool)
    requires GoodRun(|w|, es) && x < |w| && a <= b <= |es| && Quiet(w, es, x, a, b)
    ensures (forall k :: a <= k < b ==> KeptAt(w, es, x, k, fromAp)) <==>
            !After(w, es[..a])[x].ptkSet || NeverFall(es, x, a, b, fromAp, MgmtValue(w, es, x, a, fromAp))
  {
    hide MgmtValue, After, Installs, Value, KeptAt, NeverFall;
    if !After(w, es[..a])[x].ptkSet {
      forall k | a <= k < b
        ensures KeptAt(w, es, x, k, fromAp)
      {
        MgmtIdle(w, es, x, a, k, fromAp);
      }
    } else {
      if forall k :: a <= k < b ==> KeptAt(w, es, x, k, fromAp) {
        KeptRises(w, es, x, a, b, fromAp);
      }
      if NeverFall(es, x, a, b, fromAp, MgmtValue(w, es, x, a, fromAp)) {
        forall k | a <= k < b
          ensures KeptAt(w, es, x, k, fromAp)
        {
          RisingKept(w, es, x, a, b, k, fromAp);
        }
      }
    }
  }

  lemma KeptRises(w: World, es: seq<Event>, x: nat, a: nat, b: nat, fromAp: bool)
    requires GoodRun(|w|, es) && x < |w| && a <= b <= |es| && Quiet(w, es, x, a, b) && After(w, es[..a])[x].ptkSet
    requires forall k :: a <= k < b ==> KeptAt(w, es, x, k, fromAp)
    ensures NeverFall(es, x, a, b, fromAp, MgmtValue(w, es, x, a, fromAp))
  {
    hide MgmtValue, After, Installs, Value, KeptAt, Quiet;
    forall k | a <= k < b && Numbered(es[k], x, fromAp)
      ensures MgmtValue(w, es, x, a, fromAp) <= Value(es[k].m.pn)
    {
      NumberAbove(w, es, x, a, b, a, k, fromAp);
    }
    forall k, l | a <= k < l < b && Numbered(es[k], x, fromAp) && Numbered(es[l], x, fromAp)
      ensures Value(es[k].m.pn) <= Value(es[l].m.pn)
    {
      QuietPart(w, es, x, a, b, k + 1);
      MgmtStep(w, es, x, a, k, fromAp);
      NumberAbove(w, es, x, a, b, k + 1, l, fromAp);
    }
  }

  lemma QuietPart(w: World, es: seq<Event>, x: nat, a: nat, b: nat, c: nat)
    requires GoodRun(|w|, es) && x < |w| && a <= c <= b <= |es| && Quiet(w, es, x, a, b)
    ensures Quiet(w, es, x, a, c)
  {
    hide After, Installs;
  }

  /** A frame's number is at least what the counter was at any earlier time. */
  lemma NumberAbove(w: World, es: seq<Event>, x: nat, a: nat, b: nat, from: nat, l: nat, fromAp: bool)
    requires GoodRun(|w|, es) && x < |w| && a <= from <= l < b <= |es| && Quiet(w, es, x, a, b)
    requires After(w, es[..a])[x].ptkSet && Numbered(es[l], x, fromAp)
    requires forall k :: a <= k < b ==> KeptAt(w, es, x, k, fromAp)
    ensures MgmtValue(w, es, x, from, fromAp) <= Value(es[l].m.pn)
  {
    hide MgmtValue, After, Installs, Value, KeptAt, Quiet;
    QuietPart(w, es, x, a, b, l + 1);
    MgmtStep(w, es, x, a, l, fromAp);
    MgmtMonotone(w, es, x, from, l + 1, fromAp);
  }

  lemma RisingKept(w: World, es: seq<Event>, x: nat, a: nat, b: nat, k: nat, fromAp: bool)
    requires GoodRun(|w|, es) && x < |w| && a <= k < b <= |es| && Quiet(w, es, x, a, b) && After(w, es[..a])[x].ptkSet
    requires NeverFall(es, x, a, b, fromAp, MgmtValue(w, es, x, a, fromAp))
    ensures KeptAt(w, es, x, k, fromAp)
  {
    hide MgmtValue, After, Installs, Value;
    MgmtStep(w, es, x, a, k, fromAp);
    MgmtOrigin(w, es, x, a, k, fromAp);
  }

  function MgmtNumbered(b: byte): Event {
    MgmtFrame(0, Mgmt(true, [0, 0, 0, 0, 0, b], true))
  }

  /** Packet number 2 and then 1 on a station with a key: the counter is 2 and then 1. */
  lemma MgmtCounterFalls(s: Sta)
    requires s.ptkSet
    ensures var es := [MgmtNumbered(2), MgmtNumbered(1)];
            && GoodRun(1, es) && Quiet([s], es, 0, 0, 2)
            && MgmtValue([s], es, 0, 1, true) == 2 && MgmtValue([s], es, 0, 2, true) == 1
  {
    var es := [MgmtNumbered(2), MgmtNumbered(1)];
    assert es[..0] == [] && es[..1] == [es[0]] && es[..2] == es;
    AfterNext([s], es, 0);
    AfterNext([s], es, 1);
    hide Value;
    SmallValue(2);
    SmallValue(1);
  }

  lemma SmallValue(b: byte)
    ensures Value([0, 0, 0, 0, 0, b]) == b
  {
    ZeroValue([0, 0, 0, 0, 0]);
    assert [0, 0, 0, 0, 0, b][..5] == [0, 0, 0, 0, 0];
  }

  lemma {:induction false} ZeroValue(s: Bytes)
    requires forall k :: 0 <= k < |s| ==> s[k] == 0
    ensures Value(s) == 0
    decreases |s|
  {
    if s != [] { ZeroValue(s[..|s| - 1]); }
  }

  /** Event k is a data frame of x that moves the given counter. */
  ghost predicate Moves(w: World, es: seq<Event>, x: nat, k: nat, fromAp: bool, tid: nat)
    requires GoodRun(|w|, es) && x < |w| && k < |es|
  {
    && es[k].DataFrame? && es[k].i == x && es[k].f.fromAp == fromAp && es[k].f.tid == tid
    && Accepted(After(w, es[..k])[x], es[k].f)
  }

  /** Under one key, the accepted packet numbers of a direction and TID strictly increase, over any run. */
  lemma AcceptedStrictlyIncrease(w: World, es: seq<Event>, x: nat, a: nat, b: nat, fromAp: bool, tid: nat)
    requires GoodRun(|w|, es) && x < |w| && a < b < |es|
    requires Moves(w, es, x, a, fromAp, tid) && Moves(w, es, x, b, fromAp, tid)
    requires Quiet(w, es, x, a, b)
    ensures Value(es[a].f.pn) < Value(es[b].f.pn)
  {
    AfterNext(w, es, a);
    CountersNeverDecrease(w, es, x, a + 1, b);
    var s, t := After(w, es[..a + 1])[x], After(w, es[..b])[x];
    assert Rsc(s, fromAp, tid) == es[a].f.pn;
    assert Value(Rsc(s, fromAp, tid)) <= Value(Rsc(t, fromAp, tid));
    MemcmpIsOrder(es[b].f.pn, Rsc(t, fromAp, tid));
  }

  // ------------------------------------------------------------------ where keys come from

  /** The frame offers the key, derived or preset, and its MIC verifies under the key's KCK. */
  ghost predicate Verified(e: Event, ptk: Ptk) {
    e.EapolDerive? && e.micOk(ptk.kck) && (ptk in e.candidates || ptk in e.presets)
  }

  /** ... for entry x itself, and from a PMK. */
  ghost predicate VerifiedFor(e: Event, x: nat, ptk: Ptk) {
    e.EapolDerive? && e.i == x && e.micOk(ptk.kck) && ptk in e.candidates
  }

  ghost predicate HasOrigin(es: seq<Event>, x: nat, s: Sta) {
    && (s.ptkSet ==> exists k :: 0 <= k < |es| && Verified(es[k], s.ptk))
    && (s.tptkSet ==> exists k :: 0 <= k < |es| && VerifiedFor(es[k], x, s.tptk))
  }

  ghost predicate NoKeys(w: World) {
    forall x :: 0 <= x < |w| ==> !w[x].ptkSet && !w[x].tptkSet
  }

  lemma OriginGrows(es: seq<Event>, e: Event, x: nat, s: Sta)
    requires HasOrigin(es, x, s)
    ensures HasOrigin(es + [e], x, s)
  {
    var fs := es + [e];
    if s.ptkSet {
      var k :| 0 <= k < |es| && Verified(es[k], s.ptk);
      assert Verified(fs[k], s.ptk);
    }
    if s.tptkSet {
      var k :| 0 <= k < |es| && VerifiedFor(es[k], x, s.tptk);
      assert VerifiedFor(fs[k], x, s.tptk);
    }
  }

  lemma OfferedAreVerified(e: Event)
    requires e.EapolDerive?
    ensures var r := FirstOk(e.candidates, e.micOk); r.Some? ==> Verified(e, r.value) && VerifiedFor(e, e.i, r.value)
    ensures var r := LastOk(e.presets, e.micOk); r.Some? ==> Verified(e, r.value)
  {
    FirstOkMeaning(e.candidates, e.micOk);
    LastOkMeaning(e.presets, e.micOk);
  }

  /** A step leaves the current key, takes the pending one, or takes the key its frame verified; a pending key changes
      only to the one its frame verified for that entry. */
  lemma StepSources(w: World, e: Event, x: nat)
    requires e.Good(|w|) && x < |w|
    ensures var s, t := w[x], Step(w, e)[x];
            && (t.ptkSet ==> (s.ptkSet && t.ptk == s.ptk) || (s.tptkSet && t.ptk == s.tptk) || Verified(e, t.ptk))
            && (t.tptkSet ==> (s.tptkSet && t.tptk == s.tptk) || VerifiedFor(e, x, t.tptk))
  {
    hide FirstOk, LastOk, Sibling, Dropped, Replay, ZeroRsc, Verified, VerifiedFor;
    if e.EapolDerive? { OfferedAreVerified(e); }
  }

  /** In any run that starts without keys, every installed key was verified by the MIC of an earlier EAPOL-Key frame,
      and every pending key by one addressed to its own entry. */
  lemma {:induction false} KeysHaveOrigin(w: World, es: seq<Event>, x: nat)
    requires GoodRun(|w|, es) && NoKeys(w) && x < |w|
    ensures HasOrigin(es, x, After(w, es)[x])
    decreases |es|
  {
    hide Step, Verified, VerifiedFor;
    if es != [] {
      var n := |es| - 1;
      var prev, e := es[..n], es[n];
      KeysHaveOrigin(w, prev, x);
      assert prev + [e] == es;
      var v := After(w, prev);
      OriginGrows(prev, e, x, v[x]);
      StepSources(v, e, x);
      if v[x].tptkSet {
        PendingIsVerified(es, x, v[x]);
      }
    }
  }

  lemma PendingIsVerified(es: seq<Event>, x: nat, s: Sta)
    requires HasOrigin(es, x, s) && s.tptkSet
    ensures exists k :: 0 <= k < |es| && Verified(es[k], s.tptk)
  {
    var k :| 0 <= k < |es| && VerifiedFor(es[k], x, s.tptk);
    assert Verified(es[k], s.tptk);
  }

  // ------------------------------------------------------------------ stations as records updated in place

  class Bss {
    const bssid: Mac
    var mld: Mac

    constructor (bssid: Mac)
      ensures this.bssid == bssid
    {
      this.bssid, mld := bssid, [];
    }
  }

  class Station {
    const addr: Mac
    const bss: Bss
    var links: seq<Mac>
    var mld: Mac
    var ptk: Ptk
    var ptkSet: bool
    var tptk: Ptk
    var tptkSet: bool
    var tods: Counters
    var fromds: Counters
    var allowDuplicate: bool

    function View(): Sta
      reads this, bss
    {
      Sta(addr, bss.bssid, links, bss.mld, mld, ptk, ptkSet, tptk, tptkSet, tods, fromds, allowDuplicate)
    }

    constructor (addr: Mac, bss: Bss)
      ensures !ptkSet && !tptkSet && this.addr == addr && this.bss == bss
      ensures tods == ZeroRsc() && fromds == ZeroRsc()
    {
      this.addr, this.bss := addr, bss;
      links, mld := [], [];
      ptk, ptkSet, tptk, tptkSet := Ptk([], [], []), false, Ptk([], [], []), false;
      tods, fromds, allowDuplicate := ZeroRsc(), ZeroRsc(), false;
    }

    /** hostap/wlantest/sta.c sta_copy_ptk. */
    method CopyPtk(key: Ptk)
      modifies this
      ensures View() == Install(old(View()), key)
    {
      ptk := key;
      ptkSet := true;
      tods := ZeroRsc();
      fromds := ZeroRsc();
    }

    /** hostap/wlantest/rx_eapol.c rx_data_eapol_key_4_of_4. */
    method RxKey4of4(micOk: Bytes -> bool)
      modifies this
      ensures View() == Msg4(old(View()), micOk)
    {
      if !ptkSet && !tptkSet {
        return;
      }
      var kck := ptk.kck;
      if tptkSet {
        kck := tptk.kck;
      }
      if !micOk(kck) {
        return;
      }
      if tptkSet {
        ptk := tptk;
        ptkSet := true;
        tptkSet := false;
        tods := ZeroRsc();
        fromds := ZeroRsc();
      }
    }

    /** hostap/wlantest/rx_mgmt.c mgmt_decrypt, from the lookup of the station on. */
    method RxMgmt(m: Mgmt)
      modifies this
      ensures View() == Management(old(View()), m)
    {
      if !ptkSet {
        return;
      }
      if m.decrypts {
        if m.fromAp {
          fromds := fromds[MGMT := m.pn];
        } else {
          tods := tods[MGMT := m.pn];
        }
      } else {
        allowDuplicate := true;
      }
    }

    /** hostap/wlantest/rx_data.c rx_data_bss_prot, from the key checks on, for TKIP, CCMP and GCMP. */
    method RxData(f: Frame)
      requires f.tid < MGMT
      modifies this
      ensures View() == Data(old(View()), f)
    {
      var onlyZeroTk := false;
      var haveRsc := false;
      var replay := false;
      if !ptkSet && !f.tdls && !f.presetsKnown {
        if !f.longEnough {
          return;
        }
        onlyZeroTk := true;
      }
      if !onlyZeroTk {
        if !f.longEnough {
          return;
        }
        if !f.extIv {
          return;
        }
        if !f.tdls {
          haveRsc := true;
          var rsc := if f.fromAp then fromds[f.tid] else tods[f.tid];
          if Memcmp(f.pn, rsc) <= 0 {
            replay := true;
          }
        }
      }
      if f.decrypts {
        if !replay && haveRsc {
          if f.fromAp {
            fromds := fromds[f.tid := f.pn];
          } else {
            tods := tods[f.tid := f.pn];
          }
        }
      } else if tptkSet {
        if f.tptkDecrypts {
          ptk := tptk;
          ptkSet := true;
          tptkSet := false;
          tods := ZeroRsc();
          fromds := ZeroRsc();
        }
      } else {
        allowDuplicate := true;
      }
    }
  }

  ghost predicate Distinct(stas: seq<Station>) {
    forall i, j :: 0 <= i < j < |stas| ==> stas[i] != stas[j]
  }

  /** There is one record per BSS. */
  ghost predicate OneRecord(stas: seq<Station>) {
    forall i, j :: 0 <= i < |stas| && 0 <= j < |stas| && stas[i].bss.bssid == stas[j].bss.bssid ==>
                   stas[i].bss == stas[j].bss
  }

  ghost function BssOf(stas: seq<Station>): (bs: set<Bss>)
    ensures forall k :: 0 <= k < |stas| ==> stas[k].bss in bs
  {
    set k | 0 <= k < |stas| :: stas[k].bss
  }

  ghost function Views(stas: seq<Station>): (w: World)
    reads stas, BssOf(stas)
    ensures |w| == |stas| && forall k :: 0 <= k < |stas| ==> w[k] == stas[k].View()
  {
    seq(|stas|, k requires 0 <= k < |stas| reads stas, BssOf(stas) => stas[k].View())
  }

  /** A later installation forgets an earlier one. */
  lemma InstallTwice(s: Sta, key: Ptk)
    ensures forall other :: Install(Install(s, other), key) == Install(s, key)
  {
  }

  lemma InstallKeeps(s: Sta, key: Ptk)
    ensures var t := Install(s, key);
            t.addr == s.addr && t.bssid == s.bssid && t.links == s.links && t.apMld == s.apMld && t.mld == s.mld
  {
  }

  /** hostap/wlantest/sta.c:337-364, for one other entry. */
  method CopyToSibling(me: Station, other: Station, key: Ptk)
    requires me != other
    modifies other
    ensures other.View() == if Sibling(me.View(), old(other.View()))
                            then Install(old(other.View()), key).(mld := me.View().mld)
                            else old(other.View())
  {
    var match_ := me.addr == other.addr;
    if me.addr in other.links {
      match_ := true;
    }
    if match_ && me.bss.mld == other.bss.mld {
      other.CopyPtk(key);
      other.mld := me.mld;
    }
  }

  /** hostap/wlantest/sta.c sta_new_ptk; the entries of all BSSs in list order. */
  method NewPtkAll(stas: seq<Station>, i: nat, key: Ptk)
    requires Distinct(stas) && i < |stas|
    modifies stas
    ensures Views(stas) == NewPtk(old(Views(stas)), i, key)
  {
    hide Install;
    ghost var was := Views(stas);
    var me := stas[i];
    me.CopyPtk(key);
    InstallKeeps(was[i], key);
    for k := 0 to |stas|
      invariant me.View() == Install(was[i], key)
      invariant forall j :: 0 <= j < k ==> stas[j].View() == NewPtkAt(was, i, key, j)
      invariant forall j :: k <= j < |stas| && j != i ==> stas[j].View() == was[j]
    {
      if stas[k] != me {
        CopyToSibling(me, stas[k], key);
      }
    }
  }

  /** hostap/wlantest/rx_eapol.c derive_ptk with try_pmk. */
  method DerivePtk(stas: seq<Station>, i: nat, candidates: seq<Ptk>, presets: seq<Ptk>, micOk: Bytes -> bool)
    requires Distinct(stas) && i < |stas|
    modifies stas
    ensures Views(stas) == Derive(old(Views(stas)), i, candidates, presets, micOk)
  {
    hide NewPtk, Sibling;
    ghost var was := Views(stas);
    var sta := stas[i];
    for k := 0 to |candidates|
      invariant Views(stas) == was && FirstOk(candidates, micOk) == FirstOk(candidates[k..], micOk)
    {
      if micOk(candidates[k].kck) {
        if sta.ptkSet {
          sta.tptk := candidates[k];
          sta.tptkSet := true;
          assert Views(stas) == was[i := was[i].(tptk := candidates[k], tptkSet := true)];
        } else {
          NewPtkAll(stas, i, candidates[k]);
        }
        return;
      }
    }
    if !sta.ptkSet {
      TryPresets(stas, i, presets, micOk);
    }
  }

  lemma LastOkStep(ps: seq<Ptk>, micOk: Bytes -> bool)
    ensures ps == [] ==> LastOk(ps, micOk) == None
    ensures ps != [] ==>
              LastOk(ps, micOk) ==
              if micOk(ps[|ps| - 1].kck) then Some(ps[|ps| - 1]) else LastOk(ps[..|ps| - 1], micOk)
  {
  }

  /** hostap/wlantest/rx_eapol.c:301-328. */
  method TryPresets(stas: seq<Station>, i: nat, presets: seq<Ptk>, micOk: Bytes -> bool)
    requires Distinct(stas) && i < |stas|
    modifies stas
    ensures var was, last := old(Views(stas)), LastOk(presets, micOk);
            Views(stas) == if last.Some? then was[i := Install(was[i], last.value)] else was
  {
    hide Install, LastOk;
    ghost var was := Views(stas);
    var sta := stas[i];
    LastOkStep(presets[..0], micOk);
    for k := 0 to |presets|
      invariant var last := LastOk(presets[..k], micOk);
                Views(stas) == if last.Some? then was[i := Install(was[i], last.value)] else was
    {
      assert presets[..k + 1][..k] == presets[..k];
      LastOkStep(presets[..k + 1], micOk);
      if micOk(presets[k].kck) {
        InstallTwice(was[i], presets[k]);
        sta.CopyPtk(presets[k]);
        assert Views(stas) == was[i := Install(was[i], presets[k])];
      }
    }
    assert presets[..|presets|] == presets;
  }

  /** hostap/wlantest/rx_eapol.c:160-173. */
  method LearnApMld(stas: seq<Station>, i: nat, mac: Mac)
    requires OneRecord(stas) && i < |stas|
    modifies stas[i].bss
    ensures Views(stas) == ApMldSet(old(Views(stas)), i, mac)
  {
    stas[i].bss.mld := mac;
  }

  /** A frame that concerns one entry only. */
  method ReceiveOne(stas: seq<Station>, e: Event)
    requires Distinct(stas) && e.Good(|stas|) && !e.EapolDerive? && !e.ApMldLearned?
    modifies stas[e.i]
    ensures stas[e.i].View() == Step(old(Views(stas)), e)[e.i]
    ensures forall k :: 0 <= k < |stas| && k != e.i ==> stas[k].View() == old(stas[k].View())
  {
    hide Data, Msg4, Management;
    var sta := stas[e.i];
    match e
    case Eapol4(_, micOk) =>
      sta.RxKey4of4(micOk);
    case DataFrame(_, f) =>
      sta.RxData(f);
    case MgmtFrame(_, m) =>
      sta.RxMgmt(m);
    case StaMldLearned(_, links, mld) =>
      sta.links := links;
      sta.mld := mld;
  }

  lemma OtherEntries(w: World, e: Event)
    requires e.Good(|w|) && !e.EapolDerive? && !e.ApMldLearned?
    ensures Step(w, e) == w[e.i := Step(w, e)[e.i]]
  {
    hide Data, Msg4, Management;
  }

  /** One received frame. */
  method Receive(stas: seq<Station>, e: Event)
    requires Distinct(stas) && OneRecord(stas) && e.Good(|stas|)
    modifies stas, BssOf(stas)
    ensures Views(stas) == Step(old(Views(stas)), e)
  {
    ghost var was := Views(stas);
    if e.EapolDerive? {
      DerivePtk(stas, e.i, e.candidates, e.presets, e.micOk);
    } else if e.ApMldLearned? {
      LearnApMld(stas, e.i, e.mac);
    } else {
      ReceiveOne(stas, e);
      hide Step;
      OtherEntries(was, e);
      assert Views(stas) == was[e.i := Step(was, e)[e.i]];
    }
  }

  /** A whole capture: the records end up as the run of values does. */
  method Process(stas: seq<Station>, es: seq<Event>)
    requires Distinct(stas) && OneRecord(stas) && GoodRun(|stas|, es)
    modifies stas, BssOf(stas)
    ensures Views(stas) == After(old(Views(stas)), es)
  {
    ghost var was := Views(stas);
    for k := 0 to |es|
      invariant Views(stas) == After(was, es[..k])
    {
      Receive(stas, es[k]);
      assert es[..k + 1][..k] == es[..k];
    }
    assert es[..|es|] == es;
  }
}
