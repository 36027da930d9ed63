/** The DecoyAuth handshake with many keys: scripts/decoyauth.py hash_to_element and
    simulate_decoyauth_handshake. Hash outputs and random draws are inputs. */
module Handshake {
  import opened ModArith
  import opened Primes
  import opened Polynomials
  import opened Curves
  import opened Elligator
  import opened Encode
  import opened Swu
  import opened Weaver
  import opened Dragonfly
  import opened Wrappers

  type Key = string
  type Bytes = seq<int>

  /** The hash functions, as functions of what the protocol feeds them: the two field elements of
      hash_to_element, the password hash, the key derivation from k and the scalar sum, and the confirm MAC. */
  datatype Hashes = Hashes(
    u1: Key -> int,
    u2: Key -> int,
    password: Key -> int,
    kdf: (int, int) -> (Bytes, Bytes),
    confirm: (Bytes, int, int, Point, int, Point) -> Bytes)

  datatype Suite = Suite(c: Curve, z: int, g: Group, order: int, h: Hashes)
  {
    ghost predicate Valid() {
      && EncodingCurve(c) && SwuCurve(c, z) && IsGroup(c, g) && HasOrder(c, g, order)
    }
  }

  lemma SuiteFacts(s: Suite)
    requires s.Valid()
    ensures s.order > 0 && IsPrime(s.c.p)
  {
  }

  const SEND_CONFIRM := 1

  /** The password element of a key. */
  ghost function Element(s: Suite, key: Key): (q: Point)
    requires s.Valid()
    ensures s.c.OnCurve(q)
  {
    s.g.add(SwuPoint(s.c, s.z, s.h.u1(key)), SwuPoint(s.c, s.z, s.h.u2(key)))
  }

  /** q is the sum of the simplified SWU points of both field elements of the key. */
  ghost predicate IsElement(s: Suite, key: Key, q: Point)
    requires s.Valid()
  {
    exists p1, p2 :: IsSwu(s.c, s.z, s.h.u1(key), p1) && IsSwu(s.c, s.z, s.h.u2(key), p2) && q == s.g.add(p1, p2)
  }

  /** Exactly one point is. */
  lemma ElementMeaning(s: Suite, key: Key, q: Point)
    requires s.Valid()
    ensures IsElement(s, key, q) <==> q == Element(s, key)
  {
    hide IsSwu, EncodingCurve, IsGroup, HasOrder;
    var c, z, u1, u2 := s.c, s.z, s.h.u1(key), s.h.u2(key);
    if IsElement(s, key, q) {
      var p1, p2 :| IsSwu(c, z, u1, p1) && IsSwu(c, z, u2, p2) && q == s.g.add(p1, p2);
      SwuUnique(c, z, u1, p1, SwuPoint(c, z, u1));
      SwuUnique(c, z, u2, p2, SwuPoint(c, z, u2));
    }
  }

  /** scripts/decoyauth.py hash_to_element. */
  method HashToElement(s: Suite, key: Key) returns (q: Point)
    requires s.Valid()
    ensures q == Element(s, key)
    ensures IsElement(s, key, q)
  {
    var p1 := SimplifiedSwu(s.c, s.z, s.h.u1(key));
    var p2 := SimplifiedSwu(s.c, s.z, s.h.u2(key));
    SwuUnique(s.c, s.z, s.h.u1(key), p1, SwuPoint(s.c, s.z, s.h.u1(key)));
    SwuUnique(s.c, s.z, s.h.u2(key), p2, SwuPoint(s.c, s.z, s.h.u2(key)));
    q := s.g.add(p1, p2);
  }

  /** The abscissa the library reports; 0 at infinity. */
  function Abscissa(q: Point): int {
    if q.Infinity? then 0 else q.x
  }

  datatype Session = Session(k: int, kck: Bytes, pmk: Bytes)

  /** scripts/decoyauth.py calc_k_kck_pmk. */
  function SessionKeys(s: Suite, pwe: Point, peerElement: Point, peerScalar: nat, rand: nat, scalar: nat): Session
    requires s.order > 0
  {
    var k := Abscissa(SharedPoint(s.g, pwe, peerElement, peerScalar, rand));
    var (kck, pmk) := s.h.kdf(k, (scalar + peerScalar) % s.order);
    Session(k, kck, pmk)
  }

  /** What the AP derives for one key from the client's commit. */
  function ApSession(s: Suite, pwe: Point, frame: Commit, a: Commit): Session
    requires s.order > 0
  {
    SessionKeys(s, pwe, a.element, a.scalar, frame.rand, frame.scalar)
  }

  function ConfirmValue(s: Suite, kck: Bytes, a: Commit, scalar: nat, element: Point): Bytes {
    s.h.confirm(kck, SEND_CONFIRM, a.scalar, a.element, scalar, element)
  }

  ghost function Frame(s: Suite, key: Key, rB: nat, mB: nat): Commit
    requires s.Valid()
  {
    CommitInfo(s.g, s.order, Element(s, key), rB, mB)
  }

  /** The confirm value the AP expects for one key. */
  ghost function Expected(s: Suite, key: Key, rB: nat, mB: nat, a: Commit): Bytes
    requires s.Valid()
  {
    var frame := Frame(s, key, rB, mB);
    ConfirmValue(s, ApSession(s, Element(s, key), frame, a).kck, a, frame.scalar, frame.element)
  }

  lemma FrameOnCurve(s: Suite, key: Key, rB: nat, mB: nat)
    requires s.Valid()
    ensures s.c.OnCurve(Frame(s, key, rB, mB).element)
  {
    var q := Element(s, key);
    NegOnCurve(s.c, s.g, q);
    TimesOnCurve(s.c, s.g, mB, s.g.neg(q));
  }

  ghost predicate GoodDraws(c: Curve, draws: seq<(int, int)>) {
    |draws| == TRIES && forall i :: 0 <= i < |draws| ==> 0 < draws[i].0 < c.p
  }

  /** No draw of this key encodes its element. */
  ghost predicate Unencodable(s: Suite, q: Point, draws: seq<(int, int)>)
    requires s.Valid()
  {
    forall i :: 0 <= i < |draws| ==> Rejects(s.c, s.g, q, draws[i])
  }

  // ------------------------------------------------------------------ the access point

  /** scripts/decoyauth.py:113-124: one commit per key, with shared secrets. */
  method CommitAll(s: Suite, keys: seq<Key>, rB: nat, mB: nat) returns (frames: seq<Commit>)
    requires s.Valid()
    ensures |frames| == |keys| && forall i :: 0 <= i < |keys| ==> frames[i] == Frame(s, keys[i], rB, mB)
  {
    frames := [];
    for i := 0 to |keys|
      invariant |frames| == i && forall k :: 0 <= k < i ==> frames[k] == Frame(s, keys[k], rB, mB)
    {
      var q := HashToElement(s, keys[i]);
      frames := frames + [CommitInfo(s.g, s.order, q, rB, mB)];
    }
  }

  ghost predicate Encoded(s: Suite, frames: seq<Commit>, us: seq<int>, vs: seq<int>)
    requires s.Valid()
  {
    && |us| == |vs| == |frames| && Reduced(s.c.p, us) && Reduced(s.c.p, vs)
    && forall i :: 0 <= i < |frames| ==> ValuesToPoint(s.c, s.g, us[i], vs[i]) == Ok(frames[i].element)
  }

  lemma EncodedSnoc(s: Suite, frames: seq<Commit>, us: seq<int>, vs: seq<int>, frame: Commit, u: int, v: int)
    requires s.Valid() && Encoded(s, frames, us, vs)
    requires 0 <= u < s.c.p && 0 <= v < s.c.p && ValuesToPoint(s.c, s.g, u, v) == Ok(frame.element)
    ensures Encoded(s, frames + [frame], us + [u], vs + [v])
  {
    hide ValuesToPoint;
  }

  /** scripts/decoyauth.py:130-137: every element becomes a pair of field elements. */
  method EncodeAll(s: Suite, frames: seq<Commit>, draws: seq<seq<(int, int)>>)
    returns (r: Option<(seq<int>, seq<int>)>)
    requires s.Valid() && |draws| == |frames|
    requires forall i :: 0 <= i < |frames| ==> s.c.OnCurve(frames[i].element) && GoodDraws(s.c, draws[i])
    ensures r.None? <==> exists i :: 0 <= i < |frames| && Unencodable(s, frames[i].element, draws[i])
    ensures r.Some? ==> Encoded(s, frames, r.value.0, r.value.1)
  {
    hide ValuesToPoint, Rejects, EncodingCurve, SwuCurve, IsGroup, HasOrder;
    var us, vs := [], [];
    for i := 0 to |frames|
      invariant Encoded(s, frames[..i], us, vs)
      invariant forall k :: 0 <= k < i ==> !Unencodable(s, frames[k].element, draws[k])
    {
      var uv := PointToValues(s.c, s.g, frames[i].element, draws[i]);
      if uv.None? {
        assert Unencodable(s, frames[i].element, draws[i]);
        return None;
      }
      EncodedSnoc(s, frames[..i], us, vs, frames[i], uv.value.0, uv.value.1);
      assert frames[..i] + [frames[i]] == frames[..i + 1];
      us, vs := us + [uv.value.0], vs + [uv.value.1];
    }
    assert frames[..|frames|] == frames;
    r := Some((us, vs));
  }

  /** Some key's element is rejected by all its draws. */
  ghost predicate SomeUnencodable(s: Suite, keys: seq<Key>, rB: nat, mB: nat, draws: seq<seq<(int, int)>>)
    requires s.Valid() && |draws| == |keys|
  {
    exists i :: 0 <= i < |keys| && Unencodable(s, Frame(s, keys[i], rB, mB).element, draws[i])
  }

  ghost function PasswordHashes(s: Suite, keys: seq<Key>): (xs: seq<int>)
    requires s.c.p > 0
    ensures |xs| == |keys| && forall i :: 0 <= i < |keys| ==> xs[i] == s.h.password(keys[i]) % s.c.p
  {
    seq(|keys|, i requires 0 <= i < |keys| => s.h.password(keys[i]) % s.c.p)
  }

  /** What the AP sends: at the hash of every key the coefficients decode to the element committed for that key. */
  ghost predicate Sent(s: Suite, keys: seq<Key>, rB: nat, mB: nat, cu: seq<int>, cv: seq<int>)
    requires s.Valid()
  {
    && |cu| == |cv| == |keys| && Reduced(s.c.p, cu) && Reduced(s.c.p, cv)
    && forall i :: 0 <= i < |keys| ==> DecodesAt(s, keys[i], cu, cv) == Ok(Frame(s, keys[i], rB, mB).element)
  }

  /** What a client with this key decodes. */
  ghost function DecodesAt(s: Suite, key: Key, cu: seq<int>, cv: seq<int>): Result<Point, Error>
    requires s.Valid()
  {
    var p := s.c.p;
    var x := s.h.password(key) % p;
    ValuesToPoint(s.c, s.g, Eval(cu, x) % p, Eval(cv, x) % p)
  }

  lemma SentAt(s: Suite, key: Key, frames: seq<Commit>, xs: seq<int>, us: seq<int>, vs: seq<int>, m: Matrix,
               cu: seq<int>, cv: seq<int>, k: nat)
    requires s.Valid() && |xs| == |frames| && k < |frames| && Encoded(s, frames, us, vs)
    requires Interpolates(s.c.p, xs, m) && Woven(s.c.p, m, us, cu) && Woven(s.c.p, m, vs, cv)
    requires xs[k] == s.h.password(key) % s.c.p
    ensures DecodesAt(s, key, cu, cv) == Ok(frames[k].element)
  {
    SuiteFacts(s);
    hide ValuesToPoint, EncodingCurve, SwuCurve, IsGroup, HasOrder, Interpolates, Woven, Eval;
    RecoveredAt(s.c.p, xs, us, m, cu, k);
    RecoveredAt(s.c.p, xs, vs, m, cv, k);
  }

  lemma RecoveredAt(p: int, xs: seq<int>, ys: seq<int>, m: Matrix, c: seq<int>, k: nat)
    requires IsPrime(p) && |xs| == |ys| && k < |xs| && Interpolates(p, xs, m) && Woven(p, m, ys, c)
    requires Reduced(p, ys)
    ensures Eval(c, xs[k]) % p == ys[k]
  {
    hide Eval, Interpolates, Woven;
    Interpolation(p, xs, ys, m, c, k);
    CongIffSameResidue(p, Eval(c, xs[k]), ys[k]);
    MultipleDivides(p, 0);
    ReducedIsResidue(p, ys[k], ys[k]);
  }

  /** scripts/decoyauth.py:113-148: everything the AP does before it sends. */
  method SendAll(s: Suite, keys: seq<Key>, rB: nat, mB: nat, draws: seq<seq<(int, int)>>)
    returns (frames: seq<Commit>, r: Result<(seq<int>, seq<int>), Error>)
    requires s.Valid() && |draws| == |keys| && forall i :: 0 <= i < |draws| ==> GoodDraws(s.c, draws[i])
    ensures |frames| == |keys| && forall i :: 0 <= i < |keys| ==> frames[i] == Frame(s, keys[i], rB, mB)
    ensures r.Ok? <==>
            !SomeUnencodable(s, keys, rB, mB, draws) && |keys| >= 2 && DistinctMod(s.c.p, PasswordHashes(s, keys))
    ensures r.Err? ==> r.error == if SomeUnencodable(s, keys, rB, mB, draws) then EncodingFailed
                                  else if |keys| < 2 then IndexError else NotInvertible
    ensures r.Ok? ==> Sent(s, keys, rB, mB, r.value.0, r.value.1)
  {
    SuiteFacts(s);
    hide Element, EncodingCurve, SwuCurve, IsGroup, HasOrder, ValuesToPoint, Unencodable, DecodesAt;
    hide Interpolates, Woven, Encoded;
    var p := s.c.p;
    frames := CommitAll(s, keys, rB, mB);
    forall i | 0 <= i < |keys| ensures s.c.OnCurve(frames[i].element) { FrameOnCurve(s, keys[i], rB, mB); }
    var encoded := EncodeAll(s, frames, draws);
    if encoded.None? {
      return frames, Err(EncodingFailed);
    }
    var (us, vs) := encoded.value;
    EncodedLengths(s, frames, us, vs);
    var xs := seq(|keys|, i requires 0 <= i < |keys| => s.h.password(keys[i]) % p);
    assert xs == PasswordHashes(s, keys);
    var matrix := Precompute(xs, p);
    if matrix.Err? {
      return frames, Err(matrix.error);
    }
    InterpolatesSquare(p, xs, matrix.value);
    var cu := Weave(us, matrix.value, p);
    var cv := Weave(vs, matrix.value, p);
    WovenLength(p, matrix.value, us, cu);
    WovenLength(p, matrix.value, vs, cv);
    forall i | 0 <= i < |keys|
      ensures DecodesAt(s, keys[i], cu, cv) == Ok(Frame(s, keys[i], rB, mB).element)
    {
      SentAt(s, keys[i], frames, xs, us, vs, matrix.value, cu, cv, i);
    }
    r := Ok((cu, cv));
  }

  lemma EncodedLengths(s: Suite, frames: seq<Commit>, us: seq<int>, vs: seq<int>)
    requires s.Valid() && Encoded(s, frames, us, vs)
    ensures |us| == |vs| == |frames|
  {
  }

  lemma InterpolatesSquare(p: int, xs: seq<int>, m: Matrix)
    requires p > 0 && Interpolates(p, xs, m)
    ensures Square(m, |xs|)
  {
  }

  // ------------------------------------------------------------------ the client

  /** Evaluation and decoding at the hash of one key. */
  method DecodeOne(s: Suite, key: Key, cu: seq<int>, cv: seq<int>) returns (r: Result<Point, Error>)
    requires s.Valid() && |cu| > 0 && |cv| > 0
    ensures r == DecodesAt(s, key, cu, cv)
  {
    SuiteFacts(s);
    hide EncodingCurve, SwuCurve, IsGroup, HasOrder, Eval, F;
    var p := s.c.p;
    var x := s.h.password(key) % p;
    var u := EvalWeave(cu, x, Some(p));
    var v := EvalWeave(cv, x, Some(p));
    r := ValuesToPoint(s.c, s.g, u, v);
  }

  /** scripts/decoyauth.py:153-168: evaluate and decode at every key's hash, comparing with what was sent. */
  method DecodeAll(s: Suite, keys: seq<Key>, frames: seq<Commit>, ghost rB: nat, ghost mB: nat,
                   cu: seq<int>, cv: seq<int>, clientIndex: nat) returns (r: Result<Point, Error>)
    requires s.Valid() && |frames| == |keys| && clientIndex < |keys| && Sent(s, keys, rB, mB, cu, cv)
    requires forall i :: 0 <= i < |keys| ==> frames[i] == Frame(s, keys[i], rB, mB)
    ensures r == DecodesAt(s, keys[clientIndex], cu, cv) == Ok(frames[clientIndex].element)
  {
    hide EncodingCurve, SwuCurve, IsGroup, HasOrder, DecodesAt, Element, Frame;
    var decoded := Infinity;
    for i := 0 to |frames|
      invariant i > clientIndex ==> decoded == frames[clientIndex].element
    {
      var q := DecodeOne(s, keys[i], cu, cv);
      if q != Ok(frames[i].element) {
        return Err(AssertionFailed);
      }
      if i == clientIndex {
        decoded := q.value;
      }
    }
    r := Ok(decoded);
  }

  // ------------------------------------------------------------------ the confirm search

  /** indices is a reordering of 0..n-1. */
  ghost predicate Shuffled(indices: seq<nat>, n: nat) {
    && (forall i :: 0 <= i < |indices| ==> indices[i] < n)
    && (forall k :: 0 <= k < n ==> k in indices)
  }

  /** scripts/decoyauth.py:197-220: the first index, in shuffled order, whose expected value is the one
      received. */
  method ConfirmSearch(s: Suite, keys: seq<Key>, frames: seq<Commit>, ghost rB: nat, ghost mB: nat, a: Commit,
                       received: Bytes, indices: seq<nat>) returns (r: Option<nat>)
    requires s.Valid() && |frames| == |keys| && forall i :: 0 <= i < |indices| ==> indices[i] < |keys|
    requires forall i :: 0 <= i < |keys| ==> frames[i] == Frame(s, keys[i], rB, mB)
    ensures r.None? <==> forall i :: 0 <= i < |indices| ==> Expected(s, keys[indices[i]], rB, mB, a) != received
    ensures r.Some? ==>
              exists i :: && 0 <= i < |indices| && r.value == indices[i]
                          && Expected(s, keys[indices[i]], rB, mB, a) == received
                          && forall k :: 0 <= k < i ==> Expected(s, keys[indices[k]], rB, mB, a) != received
  {
    hide Element, EncodingCurve, SwuCurve, IsGroup, HasOrder, SharedPoint;
    SuiteFacts(s);
    for i := 0 to |indices|
      invariant forall k :: 0 <= k < i ==> Expected(s, keys[indices[k]], rB, mB, a) != received
    {
      var idx := indices[i];
      var q := HashToElement(s, keys[idx]);
      var frame := frames[idx];
      var session := ApSession(s, q, frame, a);
      if ConfirmValue(s, session.kck, a, frame.scalar, frame.element) == received {
        return Some(idx);
      }
    }
    r := None;
  }

  // ------------------------------------------------------------------ the whole exchange

  /** What both sides hold when the exchange ends. */
  datatype Outcome = Outcome(
    cu: seq<int>, cv: seq<int>, decoded: Point, client: Session, confirm: Bytes, usedIndex: nat, ap: Session)

  /** The session that belongs to a shared point and the sum of both scalars. */
  ghost predicate IsSession(s: Suite, shared: Point, sum: int, session: Session)
    requires s.order > 0
  {
    && session.k == (if shared.Affine? then shared.x else 0)
    && session.kck == s.h.kdf(session.k, sum % s.order).0
    && session.pmk == s.h.kdf(session.k, sum % s.order).1
  }

  ghost function ClientCommit(s: Suite, key: Key, rA: nat, mA: nat): Commit
    requires s.Valid()
  {
    CommitInfo(s.g, s.order, Element(s, key), rA, mA)
  }

  /** The client's session, by the secrets alone: k is the abscissa of rA*rB*P, and the derivation is salted with the
      sum of all four secrets. */
  lemma ClientSession(s: Suite, key: Key, rA: nat, mA: nat, rB: nat, mB: nat)
    requires s.Valid()
    ensures var a, b, q := ClientCommit(s, key, rA, mA), Frame(s, key, rB, mB), Element(s, key);
            IsSession(s, Times(s.g, rA, Times(s.g, rB, q)), rA + mA + rB + mB,
                      SessionKeys(s, q, b.element, b.scalar, rA, a.scalar))
  {
    hide EncodingCurve, SwuCurve, IsGroup, HasOrder, Element, Times;
    SuiteFacts(s);
    SharedPointValue(s.c, s.g, s.order, Element(s, key), rA, rB, mB);
    SumOfRemainders(rA + mA, rB + mB, s.order);
  }

  lemma SumOfRemainders(x: nat, y: nat, n: int)
    requires n > 0
    ensures (x % n + y % n) % n == (x + y) % n
  {
    ModCong(n, x);
    ModCong(n, y);
    CongAdd(n, x % n, x, y % n, y);
    CongIffSameResidue(n, x % n + y % n, x + y);
  }

  /** The session the AP derives for a key from any commit of the client. */
  lemma ApSessionMeaning(s: Suite, key: Key, rB: nat, mB: nat, a: Commit)
    requires s.Valid()
    ensures var q := Element(s, key);
            IsSession(s, Times(s.g, rB, s.g.add(Times(s.g, a.scalar, q), a.element)), a.scalar + rB + mB,
                      ApSession(s, q, Frame(s, key, rB, mB), a))
  {
    hide EncodingCurve, SwuCurve, IsGroup, HasOrder, Element, Times;
    SuiteFacts(s);
    var n := s.order;
    ModCong(n, rB + mB);
    CongAdd(n, (rB + mB) % n, rB + mB, a.scalar, a.scalar) by { MultipleDivides(n, 0); }
    CongIffSameResidue(n, (rB + mB) % n + a.scalar, rB + mB + a.scalar);
  }

  /** The client, given the element it decoded, derives what the AP derives for that key. */
  lemma SameSession(s: Suite, key: Key, rA: nat, mA: nat, rB: nat, mB: nat)
    requires s.Valid()
    ensures var a, b, q := ClientCommit(s, key, rA, mA), Frame(s, key, rB, mB), Element(s, key);
            SessionKeys(s, q, b.element, b.scalar, rA, a.scalar) == ApSession(s, q, b, a)
  {
    hide SharedPoint, EncodingCurve, SwuCurve, IsGroup, HasOrder, Element;
    SuiteFacts(s);
    Agreement(s.c, s.g, s.order, Element(s, key), rA, mA, rB, mB);
  }

  /** The point the AP reaches with a key from the client's commit. */
  ghost function ApShared(s: Suite, key: Key, rB: nat, a: Commit): Point
    requires s.Valid()
  {
    Times(s.g, rB, s.g.add(Times(s.g, a.scalar, Element(s, key)), a.element))
  }

  ghost predicate GoodInputs(s: Suite, keys: seq<Key>, draws: seq<seq<(int, int)>>, indices: seq<nat>)
  {
    && |draws| == |keys| && (forall i :: 0 <= i < |draws| ==> GoodDraws(s.c, draws[i]))
    && Shuffled(indices, |keys|)
  }

  /** scripts/decoyauth.py:100-103 and 172-189: the client's commit, its session and its confirm value; sane is the
      sanity check that both sides reach the same abscissa. */
  method ClientConfirm(s: Suite, key: Key, rA: nat, mA: nat, rB: nat, ghost mB: nat, b: Commit, decoded: Point)
    returns (a: Commit, client: Session, confirm: Bytes, sane: bool)
    requires s.Valid() && b == Frame(s, key, rB, mB) && decoded == b.element
    ensures a == ClientCommit(s, key, rA, mA) && sane
    ensures IsSession(s, Times(s.g, rA, Times(s.g, rB, Element(s, key))), rA + mA + rB + mB, client)
    ensures client == ApSession(s, Element(s, key), b, a)
    ensures confirm == s.h.confirm(client.kck, SEND_CONFIRM, a.scalar, a.element, b.scalar, b.element)
    ensures confirm == Expected(s, key, rB, mB, a)
  {
    SuiteFacts(s);
    hide Element, EncodingCurve, SwuCurve, IsGroup, HasOrder, IsSession, IsElement, Times, SharedPoint;
    var pwe := HashToElement(s, key);
    a := CommitInfo(s.g, s.order, pwe, rA, mA);
    SameSession(s, key, rA, mA, rB, mB);
    ClientSession(s, key, rA, mA, rB, mB);
    client := SessionKeys(s, pwe, decoded, b.scalar, rA, a.scalar);
    sane := client.k == Abscissa(SharedPoint(s.g, pwe, a.element, a.scalar, rB));
    confirm := ConfirmValue(s, client.kck, a, b.scalar, decoded);
  }

  /** The AP's session for the key it found. */
  method ApSessionFor(s: Suite, key: Key, ghost rB: nat, ghost mB: nat, frame: Commit, a: Commit) returns (ap: Session)
    requires s.Valid() && frame == Frame(s, key, rB, mB)
    ensures IsSession(s, ApShared(s, key, rB, a), a.scalar + rB + mB, ap)
    ensures ap == ApSession(s, Element(s, key), frame, a)
    ensures Expected(s, key, rB, mB, a)
            == s.h.confirm(ap.kck, SEND_CONFIRM, a.scalar, a.element, frame.scalar, frame.element)
  {
    SuiteFacts(s);
    hide Element, EncodingCurve, SwuCurve, IsGroup, HasOrder, IsSession, IsElement, Times, SharedPoint;
    var q := HashToElement(s, key);
    ApSessionMeaning(s, key, rB, mB, a);
    ap := ApSession(s, q, frame, a);
  }

  lemma SharedScalar(s: Suite, key: Key, other: Key, rB: nat, mB: nat)
    requires s.Valid()
    ensures Frame(s, key, rB, mB).scalar == Frame(s, other, rB, mB).scalar
  {
  }

  /** What holds after a completed exchange, in terms of the keys and the four secrets. */
  ghost predicate Completed(s: Suite, keys: seq<Key>, clientIndex: nat, rA: nat, mA: nat, rB: nat, mB: nat, o: Outcome)
    requires s.Valid() && clientIndex < |keys|
  {
    var key := keys[clientIndex];
    var a, b := ClientCommit(s, key, rA, mA), Frame(s, key, rB, mB);
    && Sent(s, keys, rB, mB, o.cu, o.cv)
    && DecodesAt(s, key, o.cu, o.cv) == Ok(o.decoded) && o.decoded == b.element
    && IsSession(s, Times(s.g, rA, Times(s.g, rB, Element(s, key))), rA + mA + rB + mB, o.client)
    && o.confirm == s.h.confirm(o.client.kck, SEND_CONFIRM, a.scalar, a.element, b.scalar, b.element)
    && o.usedIndex < |keys|
    && var used := keys[o.usedIndex];
       && IsSession(s, ApShared(s, used, rB, a), a.scalar + rB + mB, o.ap)
       && o.confirm == s.h.confirm(o.ap.kck, SEND_CONFIRM, a.scalar, a.element, b.scalar,
                                   Frame(s, used, rB, mB).element)
       && ((forall i :: 0 <= i < |keys| && i != clientIndex ==> Expected(s, keys[i], rB, mB, a) != o.confirm)
           ==> o.usedIndex == clientIndex && o.client == o.ap)
  }

  /** scripts/decoyauth.py simulate_decoyauth_handshake, for every list of keys, client index, secrets, draws
      and shuffle. It fails only if an element has no encoding among its draws, there are fewer than two keys,
      or two password hashes clash; its assertions never fail and the search always ends with an index. On
      success the client has decoded the element of its own key and holds the session the AP computes for that
      key, and the AP has found an index with the client's confirm value: the client's own, with the same
      session on both sides, unless another key gives the same confirm value. */
  method Run(s: Suite, keys: seq<Key>, clientIndex: nat, rA: nat, mA: nat, rB: nat, mB: nat,
             draws: seq<seq<(int, int)>>, indices: seq<nat>) returns (r: Result<Outcome, Error>)
    requires s.Valid() && clientIndex < |keys| && GoodInputs(s, keys, draws, indices)
    ensures r.Ok? <==>
            !SomeUnencodable(s, keys, rB, mB, draws) && |keys| >= 2 && DistinctMod(s.c.p, PasswordHashes(s, keys))
    ensures r.Err? ==> r.error == if SomeUnencodable(s, keys, rB, mB, draws) then EncodingFailed
                                  else if |keys| < 2 then IndexError else NotInvertible
    ensures r.Ok? ==> Completed(s, keys, clientIndex, rA, mA, rB, mB, r.value)
  {
    SuiteFacts(s);
    hide Element, EncodingCurve, SwuCurve, IsGroup, HasOrder, Sent, DecodesAt, IsSession, IsElement, Times;
    hide SomeUnencodable, DistinctMod, Frame, Completed;
    var frames, sent := SendAll(s, keys, rB, mB, draws);
    if sent.Err? {
      return Err(sent.error);
    }
    var (cu, cv) := sent.value;
    r := Receive(s, keys, clientIndex, rA, mA, rB, mB, frames, cu, cv, indices);
  }

  /** scripts/decoyauth.py:153-220: everything after the AP has sent its values. No assertion fails, and the search
      always ends with an index. */
  method Receive(s: Suite, keys: seq<Key>, clientIndex: nat, rA: nat, mA: nat, rB: nat, mB: nat,
                 frames: seq<Commit>, cu: seq<int>, cv: seq<int>, indices: seq<nat>) returns (r: Result<Outcome, Error>)
    requires s.Valid() && clientIndex < |keys| && Shuffled(indices, |keys|) && Sent(s, keys, rB, mB, cu, cv)
    requires |frames| == |keys| && forall i :: 0 <= i < |keys| ==> frames[i] == Frame(s, keys[i], rB, mB)
    ensures r.Ok? && Completed(s, keys, clientIndex, rA, mA, rB, mB, r.value)
  {
    hide Element, EncodingCurve, SwuCurve, IsGroup, HasOrder, Sent, DecodesAt, IsSession, IsElement, Times;
    hide Frame, ClientCommit, Expected, ApShared, ApSession;
    var decoded := DecodeAll(s, keys, frames, rB, mB, cu, cv, clientIndex);
    if decoded.Err? {
      return Err(AssertionFailed);
    }
    var key, b := keys[clientIndex], frames[clientIndex];
    var a, client, confirm, sane := ClientConfirm(s, key, rA, mA, rB, mB, b, decoded.value);
    if !sane {
      return Err(AssertionFailed);
    }
    var used := ConfirmSearch(s, keys, frames, rB, mB, a, confirm, indices);
    assert clientIndex in indices;
    if used.None? {
      return Err(KeyNotFound);
    }
    SharedScalar(s, key, keys[used.value], rB, mB);
    var ap := ApSessionFor(s, keys[used.value], rB, mB, frames[used.value], a);
    r := Ok(Outcome(cu, cv, decoded.value, client, confirm, used.value, ap));
  }
}
