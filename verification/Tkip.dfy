/** TKIP encapsulation, decapsulation and reassembly: hostap/wlantest/tkip.c. Memory allocation always succeeds in
    this model; CRC-32 and the S-box are parameters. */
module Tkip {
  import opened Michael
  import opened TkipMixing
  import opened Rc4
  import opened Wrappers

  datatype Env = Env(sbox: bv16 -> bv16, crc: Bytes -> bv32)

  const FC_TODS: bv16 := 0x0100
  const FC_FROMDS: bv16 := 0x0200
  const FC_MOREFRAG: bv16 := 0x0400

  // ------------------------------------------------------------------ headers

  /** An 802.11 header; the fixed part takes 24 bytes. */
  ghost predicate IsHeader(h: Bytes) {
    |h| >= 24 && |h| >= ReadLength(h)
  }

  function FrameControl(h: Bytes): bv16
    requires |h| >= 24
  {
    Mk16(h[1], h[0])
  }

  function Addr1(h: Bytes): (a: Bytes)
    requires |h| >= 24
    ensures |a| == 6
  {
    h[4..10]
  }

  function Addr2(h: Bytes): (a: Bytes)
    requires |h| >= 24
    ensures |a| == 6
  {
    h[10..16]
  }

  function Addr3(h: Bytes): (a: Bytes)
    requires |h| >= 24
    ensures |a| == 6
  {
    h[16..22]
  }

  function SeqControl(h: Bytes): bv16
    requires |h| >= 24
  {
    Mk16(h[23], h[22])
  }

  function SequenceNumber(h: Bytes): bv16
    requires |h| >= 24
  {
    SeqControl(h) >> 4
  }

  function FragmentNumber(h: Bytes): nat
    requires |h| >= 24
  {
    (SeqControl(h) & 0x000f) as nat
  }

  function MoreFragments(h: Bytes): bool
    requires |h| >= 24
  {
    FrameControl(h) & FC_MOREFRAG != 0
  }

  function FourAddresses(h: Bytes): bool
    requires |h| >= 24
  {
    FrameControl(h) & (FC_FROMDS | FC_TODS) == FC_FROMDS | FC_TODS
  }

  /** A data frame (type 2) whose subtype has the QoS bit. */
  function IsQos(h: Bytes): bool
    requires |h| >= 24
  {
    (FrameControl(h) & 0x000c) >> 2 == 2 && ((FrameControl(h) & 0x00f0) >> 4) & 0x08 != 0
  }

  /** How far michael_mic_hdr reads. */
  function ReadLength(h: Bytes): nat
    requires |h| >= 24
  {
    (if FourAddresses(h) then 30 else 24) + (if IsQos(h) then 1 else 0)
  }

  /** hostap/wlantest/tkip.c michael_mic_hdr: DA, SA, priority and three zero bytes. */
  function MichaelHeader(h: Bytes): (m: Bytes)
    requires IsHeader(h)
    ensures |m| == 16
  {
    var ds := FrameControl(h) & (FC_FROMDS | FC_TODS);
    var da := if ds == FC_TODS || ds == FC_FROMDS | FC_TODS then Addr3(h) else Addr1(h);
    var sa := if ds == FC_FROMDS then Addr3(h)
              else if ds == FC_FROMDS | FC_TODS then h[24..30]
              else Addr2(h);
    var priority := if IsQos(h) then h[if FourAddresses(h) then 30 else 24] & 0x0f else 0;
    da + sa + [priority, 0, 0, 0]
  }

  /** The Michael key for the direction of the frame. */
  function MicKey(tk: Bytes, h: Bytes): (k: Bytes)
    requires |tk| == 32 && |h| >= 24
    ensures |k| == 8
  {
    if FrameControl(h) & FC_FROMDS != 0 then tk[16..24] else tk[24..32]
  }

  // ------------------------------------------------------------------ headers, field by field

  /** A header with the given fields; rest begins after the sequence control field. */
  function Header(fc0: bv8, fc1: bv8, a1: Bytes, a2: Bytes, a3: Bytes, sc0: bv8, sc1: bv8, rest: Bytes): (h: Bytes)
    requires |a1| == 6 && |a2| == 6 && |a3| == 6
    ensures |h| == 24 + |rest|
  {
    [fc0, fc1, 0, 0] + a1 + a2 + a3 + [sc0, sc1] + rest
  }

  lemma HeaderParts(fc0: bv8, fc1: bv8, a1: Bytes, a2: Bytes, a3: Bytes, sc0: bv8, sc1: bv8, rest: Bytes)
    requires |a1| == 6 && |a2| == 6 && |a3| == 6
    ensures var h := Header(fc0, fc1, a1, a2, a3, sc0, sc1, rest);
            && Addr1(h) == a1 && Addr2(h) == a2 && Addr3(h) == a3 && h[24..] == rest
            && FrameControl(h) == Mk16(fc1, fc0) && SeqControl(h) == Mk16(sc1, sc0)
  {
    hide Mk16;
    var h := Header(fc0, fc1, a1, a2, a3, sc0, sc1, rest);
    assert h[4..10] == a1;
    assert h[10..16] == a2;
    assert h[16..22] == a3;
    assert h[22] == sc0 && h[23] == sc1;
  }

  lemma ControlBits(fc0: bv8, fc1: bv8)
    ensures var fc := Mk16(fc1, fc0);
            && (fc & FC_TODS != 0 <==> fc1 & 0x01 != 0) && (fc & FC_FROMDS != 0 <==> fc1 & 0x02 != 0)
            && (fc & FC_MOREFRAG != 0 <==> fc1 & 0x04 != 0)
            && fc & (FC_FROMDS | FC_TODS) == ((fc1 & 0x03) as bv16) << 8
            && ((fc & 0x000c) >> 2 == 2 && ((fc & 0x00f0) >> 4) & 0x08 != 0 <==> fc0 & 0x8c == 0x88)
  {
  }

  /** The sequence number is the upper twelve bits of the field, the fragment number the lower four. */
  lemma SequenceFields(sc0: bv8, sc1: bv8)
    ensures var sc := Mk16(sc1, sc0);
            && sc >> 4 == ((sc1 as bv16) << 4) | ((sc0 >> 4) as bv16) && sc & 0x000f == (sc0 & 0x0f) as bv16
  {
  }

  /** Where the fragment fields of a header lie. */
  lemma FragmentFields(fc0: bv8, fc1: bv8, a1: Bytes, a2: Bytes, a3: Bytes, sc0: bv8, sc1: bv8, rest: Bytes)
    requires |a1| == 6 && |a2| == 6 && |a3| == 6
    ensures var h := Header(fc0, fc1, a1, a2, a3, sc0, sc1, rest);
            && SequenceNumber(h) == ((sc1 as bv16) << 4) | ((sc0 >> 4) as bv16)
            && FragmentNumber(h) == ((sc0 & 0x0f) as bv16) as nat
            && (MoreFragments(h) <==> fc1 & 0x04 != 0)
  {
    HeaderParts(fc0, fc1, a1, a2, a3, sc0, sc1, rest);
    ControlBits(fc0, fc1);
    SequenceFields(sc0, sc1);
    hide Header, Mk16;
  }

  /** The direction bits of the second control byte: to the AP, from it, both between APs, or none. */
  datatype Direction = ToAp | FromAp | BetweenAps | Direct

  function DirectionBits(d: Direction): bv8 {
    match d case ToAp => 0x01 case FromAp => 0x02 case BetweenAps => 0x03 case Direct => 0x00
  }

  /** The header of a data frame from sa to da, sent over the AP (or between the APs) ap and via. */
  function Addressed(d: Direction, qos: bool, da: Bytes, sa: Bytes, ap: Bytes, via: Bytes, priority: bv8): (h: Bytes)
    requires |da| == 6 && |sa| == 6 && |ap| == 6 && |via| == 6
  {
    var fc0, fc1: bv8 := if qos then 0x88 else 0x08, DirectionBits(d);
    var tail := if qos then [priority, 0] else [];
    match d
    case ToAp => Header(fc0, fc1, ap, sa, da, 0, 0, tail)
    case FromAp => Header(fc0, fc1, da, ap, sa, 0, 0, tail)
    case BetweenAps => Header(fc0, fc1, ap, via, da, 0, 0, sa + tail)
    case Direct => Header(fc0, fc1, da, sa, ap, 0, 0, tail)
  }

  /** Whatever way a frame takes, Michael is computed over its destination, its source and its priority, in this order,
      and three zero bytes; the Michael key depends on whether the frame comes from an AP. */
  lemma MichaelHeaderMeaning(d: Direction, qos: bool, da: Bytes, sa: Bytes, ap: Bytes, via: Bytes, priority: bv8,
                             tk: Bytes)
    requires |da| == 6 && |sa| == 6 && |ap| == 6 && |via| == 6 && priority < 16 && |tk| == 32
    ensures var h := Addressed(d, qos, da, sa, ap, via, priority);
            && IsHeader(h) && MichaelHeader(h) == da + sa + [if qos then priority else 0, 0, 0, 0]
            && MicKey(tk, h) == if d.FromAp? || d.BetweenAps? then tk[16..24] else tk[24..32]
  {
    var fc0: bv8, fc1 := if qos then 0x88 else 0x08, DirectionBits(d);
    var tail := if qos then [priority, 0] else [];
    match d
    case ToAp => HeaderMeans(fc0, fc1, ap, sa, da, tail, qos, priority, tk);
    case FromAp => HeaderMeans(fc0, fc1, da, ap, sa, tail, qos, priority, tk);
    case BetweenAps => HeaderMeans(fc0, fc1, ap, via, da, sa + tail, qos, priority, tk);
    case Direct => HeaderMeans(fc0, fc1, da, sa, ap, tail, qos, priority, tk);
  }

  /** What is read of a header, by its two direction bits. */
  lemma HeaderMeans(fc0: bv8, fc1: bv8, a1: Bytes, a2: Bytes, a3: Bytes, rest: Bytes, qos: bool, priority: bv8,
                    tk: Bytes)
    requires |a1| == 6 && |a2| == 6 && |a3| == 6 && priority < 16 && |tk| == 32
    requires fc0 == (if qos then 0x88 else 0x08) && (fc1 == 0 || fc1 == 1 || fc1 == 2 || fc1 == 3)
    requires |rest| >= (if fc1 == 3 then 6 else 0) + (if qos then 1 else 0)
    requires qos ==> rest[if fc1 == 3 then 6 else 0] == priority
    ensures var h := Header(fc0, fc1, a1, a2, a3, 0, 0, rest);
            var da := if fc1 == 1 || fc1 == 3 then a3 else a1;
            var sa := if fc1 == 2 then a3 else if fc1 == 3 then rest[..6] else a2;
            && IsHeader(h) && MichaelHeader(h) == da + sa + [if qos then priority else 0, 0, 0, 0]
            && MicKey(tk, h) == if fc1 == 2 || fc1 == 3 then tk[16..24] else tk[24..32]
  {
    var h := Header(fc0, fc1, a1, a2, a3, 0, 0, rest);
    HeaderParts(fc0, fc1, a1, a2, a3, 0, 0, rest);
    ControlBits(fc0, fc1);
    PriorityBits(priority);
    hide Header, Mk16, Addr1, Addr2, Addr3;
    var four := fc1 == 3;
    assert FourAddresses(h) == four && IsQos(h) == qos;
    var at := if four then 30 else 24;
    assert qos ==> h[at] == h[24..][at - 24] == priority;
    if four { assert h[24..30] == h[24..][..6] == rest[..6]; }
  }

  lemma PriorityBits(priority: bv8)
    requires priority < 16
    ensures priority & 0x0f == priority
  {
  }

  // ------------------------------------------------------------------ encryption

  function Be32(b0: bv8, b1: bv8, b2: bv8, b3: bv8): bv32 {
    Le32(b3, b2, b1, b0)
  }

  /** The cleartext that is enciphered: payload, MIC, ICV. */
  function Sealed(env: Env, tk: Bytes, h: Bytes, payload: Bytes): (s: Bytes)
    requires |tk| == 32 && IsHeader(h)
    ensures |s| == |payload| + 12
  {
    var body := payload + Mic(MicKey(tk, h), MichaelHeader(h), payload);
    body + PutLe32(env.crc(body))
  }

  /** The eight bytes of IV and extended IV. */
  function IvField(key: Bytes, keyid: bv8, pn: Bytes): (iv: Bytes)
    requires |key| == 16 && |pn| == 6
    ensures |iv| == 8
  {
    key[..3] + [(keyid << 6) | 0x20, pn[3], pn[2], pn[1], pn[0]]
  }

  function SendKey(env: Env, tk: Bytes, h: Bytes, pn: Bytes): (key: Bytes)
    requires |tk| == 32 && |h| >= 24 && |pn| == 6
    ensures |key| == 16
  {
    PacketKey(env.sbox, tk, Addr2(h), Be32(pn[0], pn[1], pn[2], pn[3]), Mk16(pn[4], pn[5]))
  }

  /** The header fields are read from the frame, the payload begins at hdrlen. */
  function Encrypted(env: Env, tk: Bytes, frame: Bytes, hdrlen: nat, pn: Bytes, keyid: bv8): Bytes
    requires |tk| == 32 && IsHeader(frame) && hdrlen <= |frame| && |pn| == 6
  {
    var key := SendKey(env, tk, frame, pn);
    frame[..hdrlen] + IvField(key, keyid, pn) + Crypt(key, Sealed(env, tk, frame, frame[hdrlen..]))
  }

  /** A copy of the bytes, enciphered in place. */
  method CryptCopy(key: Bytes, s: Bytes) returns (r: Bytes)
    requires |key| == 16
    ensures r == Crypt(key, s)
  {
    hide Crypt;
    var buf := new bv8[|s|](i requires 0 <= i < |s| => s[i]);
    assert buf[..] == s;
    WepCrypt(key, buf);
    r := buf[..];
  }

  /** hostap/wlantest/tkip.c tkip_encrypt. An accepted frame must contain the header bytes that are read. */
  method TkipEncrypt(env: Env, tk: Bytes, frame: Bytes, hdrlen: nat, pn: Bytes, keyid: bv8) returns (r: Option<Bytes>)
    requires |tk| == 32 && |pn| == 6
    requires |frame| >= 24 && |frame| >= hdrlen ==> |frame| >= ReadLength(frame)
    ensures r.None? <==> |frame| < 24 || |frame| < hdrlen
    ensures r.Some? ==> r.value == Encrypted(env, tk, frame, hdrlen, pn, keyid)
  {
    if |frame| < 24 || |frame| < hdrlen {
      return None;
    }
    hide PacketKey, Mic, MichaelHeader, Crypt, MicKey, Be32, Mk16, PutLe32;
    var payload := frame[hdrlen..];
    var mic := MichaelMic(MicKey(tk, frame), MichaelHeader(frame), payload);
    var key := MixKey(env.sbox, tk, Addr2(frame), Be32(pn[0], pn[1], pn[2], pn[3]), Mk16(pn[4], pn[5]));
    var body := payload + mic;
    var plain := body + PutLe32(env.crc(body));
    var cipher := CryptCopy(key, plain);
    r := Some(frame[..hdrlen] + IvField(key, keyid, pn) + cipher);
  }

  /** What is read of a header does not depend on what follows it. */
  lemma HeaderPrefix(h: Bytes, rest: Bytes)
    requires IsHeader(h)
    ensures IsHeader(h + rest) && MichaelHeader(h + rest) == MichaelHeader(h) && Addr2(h + rest) == Addr2(h)
    ensures forall tk: Bytes | |tk| == 32 :: MicKey(tk, h + rest) == MicKey(tk, h)
  {
    hide Mk16;
    var f := h + rest;
    assert forall i :: 0 <= i < |h| ==> f[i] == h[i];
    assert f[4..10] == h[4..10] && f[10..16] == h[10..16] && f[16..22] == h[16..22];
    assert FrameControl(f) == FrameControl(h);
    assert |h| >= 30 ==> f[24..30] == h[24..30];
  }

  // ------------------------------------------------------------------ reassembly

  /** struct tkip_frag as a value. */
  datatype Frag = Frag(buf: Option<Bytes>, ra: Bytes, ta: Bytes, sn: bv16, fn: nat)

  /** The frame opens a fragmented MSDU. */
  predicate Starts(h: Bytes)
    requires |h| >= 24
  {
    FragmentNumber(h) == 0 && MoreFragments(h)
  }

  /** The frame is the next fragment of the stored MSDU. */
  predicate Continues(f: Frag, h: Bytes)
    requires |h| >= 24
  {
    && f.buf.Some? && (FragmentNumber(h) != 0 || MoreFragments(h))
    && SequenceNumber(h) == f.sn && FragmentNumber(h) == f.fn + 1
    && f.ra == Addr1(h) && f.ta == Addr2(h)
  }

  function Opened(f: Frag, h: Bytes, plain: Bytes): Frag
    requires |h| >= 24
  {
    if Starts(h) then Frag(Some(plain), Addr1(h), Addr2(h), SequenceNumber(h), 0) else f
  }

  /** hostap/wlantest/tkip.c:350-382: the stored state after a decrypted fragment. */
  function Stored(f: Frag, h: Bytes, plain: Bytes): Frag
    requires |h| >= 24
  {
    var g := Opened(f, h, plain);
    if Continues(g, h) then g.(buf := Some(g.buf.value + plain), fn := FragmentNumber(h)) else g
  }

  /** The fragment completes the stored MSDU. */
  predicate Completes(f: Frag, h: Bytes)
    requires |h| >= 24
  {
    !Starts(h) && Continues(f, h) && !MoreFragments(h)
  }

  // ------------------------------------------------------------------ decryption

  datatype MicResult = MicOk | MicIncorrect | MicNotVerified

  datatype Decrypted = Decrypted(plain: Bytes, length: int, mic: MicResult)

  const SIZE_T := 0x1_0000_0000_0000_0000

  /** size_t subtraction. */
  function SizeMinus(n: nat, k: nat): nat {
    (n - k) % SIZE_T
  }

  function ReceiveKey(env: Env, tk: Bytes, h: Bytes, data: Bytes): (key: Bytes)
    requires |tk| == 32 && |h| >= 24 && |data| >= 8
    ensures |key| == 16
  {
    PacketKey(env.sbox, tk, Addr2(h), Le32(data[4], data[5], data[6], data[7]), Mk16(data[0], data[2]))
  }

  /** The decrypted body without its ICV, if the ICV verifies. */
  function Opens(env: Env, tk: Bytes, h: Bytes, data: Bytes): Option<Bytes>
    requires |tk| == 32 && |h| >= 24
  {
    if |data| < 12 then None
    else
      var plain := Crypt(ReceiveKey(env, tk, h, data), data[8..]);
      var n := |plain| - 4;
      if env.crc(plain[..n]) != Word(plain, n) then None else Some(plain[..n])
  }

  /** What is returned for the decrypted body plain, where full is the reassembled MSDU if there is one. */
  function Verdict(tk: Bytes, h: Bytes, plain: Bytes, full: Option<Bytes>, wantMic: bool): Option<Decrypted>
    requires |tk| == 32 && IsHeader(h)
  {
    var whole := if full.Some? then full.value else plain;
    if (MoreFragments(h) || (FragmentNumber(h) > 0 && full.None?)) && wantMic then
      Some(Decrypted(plain, |plain|, MicNotVerified))
    else if |whole| < 8 then None
    else
      var n := |whole| - 8;
      var ok := Mic(MicKey(tk, h), MichaelHeader(h), whole[..n]) == whole[n..];
      if ok || wantMic then Some(Decrypted(plain, SizeMinus(|plain|, 8), if ok then MicOk else MicIncorrect))
      else None
  }

  /** The outcome of tkip_decrypt on a stored state. */
  function Outcome(env: Env, tk: Bytes, h: Bytes, data: Bytes, wantMic: bool, f: Frag): (Option<Decrypted>, Frag)
    requires |tk| == 32 && IsHeader(h)
  {
    match Opens(env, tk, h, data)
    case None => (None, f)
    case Some(plain) =>
      var g := Stored(f, h, plain);
      (Verdict(tk, h, plain, if Completes(f, h) then g.buf else None, wantMic), g)
  }

  /** The result of tkip_decrypt without a fragment state. */
  function Alone(env: Env, tk: Bytes, h: Bytes, data: Bytes, wantMic: bool): Option<Decrypted>
    requires |tk| == 32 && IsHeader(h)
  {
    match Opens(env, tk, h, data)
    case None => None
    case Some(plain) => Verdict(tk, h, plain, None, wantMic)
  }

  class TkipFrag {
    var buf: Option<Bytes>
    var ra: Bytes
    var ta: Bytes
    var sn: bv16
    var fn: nat

    constructor ()
      ensures View().buf == None
    {
      buf, ra, ta, sn, fn := None, [], [], 0, 0;
    }

    function View(): Frag
      reads this
    {
      Frag(buf, ra, ta, sn, fn)
    }

    /** hostap/wlantest/tkip.c:350-382. */
    method Store(h: Bytes, plain: Bytes) returns (full: Option<Bytes>)
      requires |h| >= 24
      modifies this
      ensures View() == Stored(old(View()), h, plain)
      ensures full == if Completes(old(View()), h) then View().buf else None
    {
      hide MoreFragments, FragmentNumber, SequenceNumber, Addr1, Addr2;
      full := None;
      var more, number := MoreFragments(h), FragmentNumber(h);
      if number == 0 && more {
        buf := Some(plain);
        ra := Addr1(h);
        ta := Addr2(h);
        sn := SequenceNumber(h);
        fn := 0;
      }
      if buf.Some? && (number != 0 || more) && SequenceNumber(h) == sn && number == fn + 1
         && ra == Addr1(h) && ta == Addr2(h) {
        buf := Some(buf.value + plain);
        fn := number;
        if !more {
          full := buf;
        }
      }
    }
  }

  /** hostap/wlantest/tkip.c:316-324. */
  method MixReceiveKey(env: Env, tk: Bytes, h: Bytes, data: Bytes) returns (key: Bytes)
    requires |tk| == 32 && |h| >= 24 && |data| >= 8
    ensures key == ReceiveKey(env, tk, h, data)
  {
    hide PacketKey, Le32, Mk16, Addr2;
    var iv16, iv32 := Mk16(data[0], data[2]), Le32(data[4], data[5], data[6], data[7]);
    key := MixKey(env.sbox, tk, Addr2(h), iv32, iv16);
  }

  /** hostap/wlantest/tkip.c:313-342. */
  method OpenBody(env: Env, tk: Bytes, h: Bytes, data: Bytes) returns (r: Option<Bytes>)
    requires |tk| == 32 && |h| >= 24
    ensures r == Opens(env, tk, h, data)
  {
    if |data| < 8 + 4 {
      return None;
    }
    hide PacketKey, Crypt, Word, Le32, Mk16, Addr2, ReceiveKey;
    var key := MixReceiveKey(env, tk, h, data);
    var buffer := CryptCopy(key, data[8..]);
    var n := |buffer| - 4;
    if env.crc(buffer[..n]) != Word(buffer, n) {
      return None;
    }
    r := Some(buffer[..n]);
  }

  /** hostap/wlantest/tkip.c:384-423. */
  method CheckMic(tk: Bytes, h: Bytes, plain: Bytes, full: Option<Bytes>, wantMic: bool) returns (r: Option<Decrypted>)
    requires |tk| == 32 && IsHeader(h)
    ensures r == Verdict(tk, h, plain, full, wantMic)
  {
    hide Mic, MichaelHeader, MicKey;
    var payload := if full.Some? then full.value else plain;
    if MoreFragments(h) || (FragmentNumber(h) > 0 && full.None?) {
      if wantMic {
        return Some(Decrypted(plain, |plain|, MicNotVerified));
      }
    }
    if |payload| < 8 {
      return None;
    }
    var n := |payload| - 8;
    var mic := MichaelMic(MicKey(tk, h), MichaelHeader(h), payload[..n]);
    var micRes := MicOk;
    if mic != payload[n..] {
      if !wantMic {
        return None;
      }
      micRes := MicIncorrect;
    }
    return Some(Decrypted(plain, SizeMinus(|plain|, 8), micRes));
  }

  /** hostap/wlantest/tkip.c tkip_decrypt; frag may be null, and wantMic tells whether mic_res is given. */
  method TkipDecrypt(env: Env, tk: Bytes, h: Bytes, data: Bytes, wantMic: bool, frag: TkipFrag?)
    returns (r: Option<Decrypted>)
    requires |tk| == 32 && IsHeader(h)
    modifies frag
    ensures frag == null ==> r == Alone(env, tk, h, data, wantMic)
    ensures frag != null ==> (r, frag.View()) == Outcome(env, tk, h, data, wantMic, old(frag.View()))
  {
    hide Opens, Stored, Completes, Verdict;
    var plain := OpenBody(env, tk, h, data);
    if plain.None? {
      return None;
    }
    var full := None;
    if frag != null {
      full := frag.Store(h, plain.value);
    }
    r := CheckMic(tk, h, plain.value, full, wantMic);
  }

  /** hostap/wlantest/tkip.c tkip_get_pn. */
  function GetPn(data: Bytes): (pn: Bytes)
    requires |data| >= 8
    ensures |pn| == 6
  {
    [data[7], data[6], data[5], data[4], data[0], data[2]]
  }

  // ------------------------------------------------------------------ round trip

  lemma IvRoundTrip(key: Bytes, keyid: bv8, pn: Bytes)
    requires |key| == 16 && |pn| == 6 && key[0] == Hi8(Mk16(pn[4], pn[5])) && key[2] == Lo8(Mk16(pn[4], pn[5]))
    ensures GetPn(IvField(key, keyid, pn)) == pn
  {
    SplitWord(pn[4], pn[5]);
  }

  lemma SameKey(env: Env, tk: Bytes, h: Bytes, pn: Bytes, keyid: bv8, rest: Bytes)
    requires |tk| == 32 && |h| >= 24 && |pn| == 6
    ensures var key := SendKey(env, tk, h, pn);
            var data := IvField(key, keyid, pn) + rest;
            GetPn(data) == pn && ReceiveKey(env, tk, h, data) == key
  {
    var key := SendKey(env, tk, h, pn);
    IvRoundTrip(key, keyid, pn);
    hide Le32, Mk16, PacketKey;
    var iv := IvField(key, keyid, pn);
    var data := iv + rest;
    assert forall i :: 0 <= i < 8 ==> data[i] == iv[i];
  }

  /** A frame opens to body exactly if it is long enough and is the encipherment of body and its checksum. */
  lemma OpensIff(env: Env, tk: Bytes, h: Bytes, data: Bytes, body: Bytes)
    requires |tk| == 32 && |h| >= 24
    ensures Opens(env, tk, h, data) == Some(body) <==>
            |data| >= 12 && data[8..] == Crypt(ReceiveKey(env, tk, h, data), body + PutLe32(env.crc(body)))
  {
    if |data| >= 12 {
      hide ReceiveKey, Crypt, Word, PutLe32;
      var key, rest := ReceiveKey(env, tk, h, data), data[8..];
      var sealed := body + PutLe32(env.crc(body));
      CryptTwice(key, rest);
      CryptTwice(key, sealed);
      TailIff(Crypt(key, rest), body, env.crc(body));
    }
  }

  /** A byte string is body followed by a word exactly if its last four bytes read as that word. */
  lemma TailIff(plain: Bytes, body: Bytes, w: bv32)
    requires |plain| >= 4
    ensures plain == body + PutLe32(w) <==> plain[..|plain| - 4] == body && Word(plain, |plain| - 4) == w
  {
    hide Word, PutLe32;
    var n := |plain| - 4;
    TrailingWord(body, w);
    if plain[..n] == body && Word(plain, n) == w {
      WordDecidesTail(plain, n, w);
    }
    if plain == body + PutLe32(w) {
      assert plain[..n] == body;
    }
  }

  lemma WordDecidesTail(s: Bytes, n: nat, w: bv32)
    requires |s| == n + 4 && Word(s, n) == w
    ensures s == s[..n] + PutLe32(w)
  {
    GetThenPut(s[n], s[n + 1], s[n + 2], s[n + 3]);
    assert s[n..] == [s[n], s[n + 1], s[n + 2], s[n + 3]];
  }

  lemma GetThenPut(b0: bv8, b1: bv8, b2: bv8, b3: bv8)
    ensures PutLe32(Le32(b0, b1, b2, b3)) == [b0, b1, b2, b3]
  {
  }

  /** The key identifier and the extended-IV bit that receivers look at are those that were sent. */
  lemma IvBits(key: Bytes, keyid: bv8, pn: Bytes)
    requires |key| == 16 && |pn| == 6 && keyid < 4
    ensures var iv := IvField(key, keyid, pn); iv[3] >> 6 == keyid && iv[3] & 0x20 != 0 && iv[..3] == key[..3]
  {
    KeyIdBits(keyid);
  }

  lemma KeyIdBits(keyid: bv8)
    requires keyid < 4
    ensures ((keyid << 6) | 0x20) >> 6 == keyid && ((keyid << 6) | 0x20) & 0x20 != 0
  {
  }

  /** Under one temporal key, two frames are enciphered with the same RC4 key exactly if they have the same transmitter
      and packet number. */
  lemma SendKeyIff(env: Env, tk: Bytes, h: Bytes, pn: Bytes, h': Bytes, pn': Bytes)
    requires |tk| == 32 && |h| >= 24 && |h'| >= 24 && |pn| == 6 && |pn'| == 6
    ensures SendKey(env, tk, h, pn) == SendKey(env, tk, h', pn') <==> Addr2(h) == Addr2(h') && pn == pn'
  {
    hide Be32, Mk16, PacketKey, Addr2;
    PacketKeyInjective(env.sbox, tk, Addr2(h), Be32(pn[0], pn[1], pn[2], pn[3]), Mk16(pn[4], pn[5]),
                       Addr2(h'), Be32(pn'[0], pn'[1], pn'[2], pn'[3]), Mk16(pn'[4], pn'[5]));
    if SendKey(env, tk, h, pn) == SendKey(env, tk, h', pn') {
      BytesDecide(pn[4], pn[5], pn'[4], pn'[5]);
      WordDecides(pn[0], pn[1], pn[2], pn[3], pn'[0], pn'[1], pn'[2], pn'[3]);
    }
  }

  lemma WordDecides(a0: bv8, a1: bv8, a2: bv8, a3: bv8, b0: bv8, b1: bv8, b2: bv8, b3: bv8)
    requires Be32(a0, a1, a2, a3) == Be32(b0, b1, b2, b3)
    ensures a0 == b0 && a1 == b1 && a2 == b2 && a3 == b3
  {
    hide Be32, PutLe32;
    WordBytes(a0, a1, a2, a3);
    WordBytes(b0, b1, b2, b3);
    assert [a3, a2, a1, a0][0] == [b3, b2, b1, b0][0] && [a3, a2, a1, a0][1] == [b3, b2, b1, b0][1];
    assert [a3, a2, a1, a0][2] == [b3, b2, b1, b0][2] && [a3, a2, a1, a0][3] == [b3, b2, b1, b0][3];
  }

  lemma WordBytes(b0: bv8, b1: bv8, b2: bv8, b3: bv8)
    ensures PutLe32(Be32(b0, b1, b2, b3)) == [b3, b2, b1, b0]
  {
  }

  lemma SealedOpens(env: Env, tk: Bytes, h: Bytes, payload: Bytes, pn: Bytes, keyid: bv8)
    requires |tk| == 32 && IsHeader(h) && |pn| == 6
    ensures var key := SendKey(env, tk, h, pn);
            var data := IvField(key, keyid, pn) + Crypt(key, Sealed(env, tk, h, payload));
            Opens(env, tk, h, data) == Some(payload + Mic(MicKey(tk, h), MichaelHeader(h), payload))
  {
    hide SendKey, ReceiveKey, Mic, MichaelHeader, MicKey, Crypt, IvField;
    var key := SendKey(env, tk, h, pn);
    var body := payload + Mic(MicKey(tk, h), MichaelHeader(h), payload);
    var plain := Sealed(env, tk, h, payload);
    var data := IvField(key, keyid, pn) + Crypt(key, plain);
    SameKey(env, tk, h, pn, keyid, Crypt(key, plain));
    assert data[8..] == Crypt(key, plain);
    CryptTwice(key, plain);
    var n := |plain| - 4;
    assert plain[..n] == body;
    TrailingWord(body, env.crc(body));
  }

  lemma TrailingWord(body: Bytes, w: bv32)
    ensures Word(body + PutLe32(w), |body|) == w
  {
    PutThenGet(w);
    SameWord(body + PutLe32(w), PutLe32(w), |body|, 0);
  }

  /** Decrypting an encrypted, unfragmented frame gives back its payload with a correct MIC, with or without a fragment
      state, leaves that state alone, and the packet number can be read off. */
  lemma RoundTrip(env: Env, tk: Bytes, h: Bytes, payload: Bytes, pn: Bytes, keyid: bv8, wantMic: bool, f: Frag)
    requires |tk| == 32 && IsHeader(h) && |pn| == 6 && |payload| < SIZE_T
    requires !MoreFragments(h) && FragmentNumber(h) == 0
    ensures IsHeader(h + payload)
    ensures var out := Encrypted(env, tk, h + payload, |h|, pn, keyid);
            var data := out[|h|..];
            && out[..|h|] == h && |data| >= 12 && GetPn(data) == pn
            && var (r, g) := Outcome(env, tk, h, data, wantMic, f);
               && g == f && r == Alone(env, tk, h, data, wantMic)
               && r.Some? && r.value.mic == MicOk && r.value.length == |payload|
               && r.value.length <= |r.value.plain| && r.value.plain[..r.value.length] == payload
  {
    EncryptedIs(env, tk, h, payload, pn, keyid);
    hide ReceiveKey, Crypt, IvField, Sealed, SendKey, Encrypted, Outcome, Alone;
    hide IsHeader, MoreFragments, FragmentNumber;
    var key := SendKey(env, tk, h, pn);
    var data := IvField(key, keyid, pn) + Crypt(key, Sealed(env, tk, h, payload));
    assert (h + data)[|h|..] == data && (h + data)[..|h|] == h;
    SameKey(env, tk, h, pn, keyid, Crypt(key, Sealed(env, tk, h, payload)));
    DataRoundTrip(env, tk, h, payload, pn, keyid, wantMic, f);
  }

  lemma DataRoundTrip(env: Env, tk: Bytes, h: Bytes, payload: Bytes, pn: Bytes, keyid: bv8, wantMic: bool, f: Frag)
    requires |tk| == 32 && IsHeader(h) && |pn| == 6 && |payload| < SIZE_T
    requires !MoreFragments(h) && FragmentNumber(h) == 0
    ensures var key := SendKey(env, tk, h, pn);
            var data := IvField(key, keyid, pn) + Crypt(key, Sealed(env, tk, h, payload));
            var (r, g) := Outcome(env, tk, h, data, wantMic, f);
            && g == f && r == Alone(env, tk, h, data, wantMic)
            && r.Some? && r.value.mic == MicOk && r.value.length == |payload|
            && r.value.length <= |r.value.plain| && r.value.plain[..r.value.length] == payload
  {
    hide SendKey, ReceiveKey, Mic, MichaelHeader, MicKey, Crypt, IvField, Opens, Stored, Verdict, Completes, Sealed;
    var body := payload + Mic(MicKey(tk, h), MichaelHeader(h), payload);
    SealedOpens(env, tk, h, payload, pn, keyid);
    UnfragmentedKept(f, h, body);
    GoodMic(tk, h, payload, wantMic);
    assert body[..|payload|] == payload;
  }

  lemma EncryptedIs(env: Env, tk: Bytes, h: Bytes, payload: Bytes, pn: Bytes, keyid: bv8)
    requires |tk| == 32 && IsHeader(h) && |pn| == 6
    ensures IsHeader(h + payload)
    ensures var key := SendKey(env, tk, h, pn);
            Encrypted(env, tk, h + payload, |h|, pn, keyid)
            == h + (IvField(key, keyid, pn) + Crypt(key, Sealed(env, tk, h, payload)))
  {
    HeaderPrefix(h, payload);
    hide PacketKey, Mic, MichaelHeader, MicKey, Crypt, IvField, Be32, Mk16, Addr2, PutLe32;
    assert (h + payload)[|h|..] == payload && (h + payload)[..|h|] == h;
    assert Sealed(env, tk, h + payload, payload) == Sealed(env, tk, h, payload);
  }

  lemma UnfragmentedKept(f: Frag, h: Bytes, plain: Bytes)
    requires |h| >= 24 && !MoreFragments(h) && FragmentNumber(h) == 0
    ensures Stored(f, h, plain) == f && !Completes(f, h)
  {
    hide MoreFragments, FragmentNumber;
  }

  lemma GoodMic(tk: Bytes, h: Bytes, payload: Bytes, wantMic: bool)
    requires |tk| == 32 && IsHeader(h) && |payload| < SIZE_T && !MoreFragments(h) && FragmentNumber(h) == 0
    ensures var mic := Mic(MicKey(tk, h), MichaelHeader(h), payload);
            Verdict(tk, h, payload + mic, None, wantMic) == Some(Decrypted(payload + mic, |payload|, MicOk))
  {
    hide Mic, MichaelHeader, MicKey, MoreFragments, FragmentNumber, SizeMinus;
    var mic := Mic(MicKey(tk, h), MichaelHeader(h), payload);
    var plain := payload + mic;
    assert plain[..|plain| - 8] == payload && plain[|plain| - 8..] == mic;
    SizePlus(|payload|);
  }

  lemma SizePlus(n: nat)
    requires n < SIZE_T
    ensures SizeMinus(n + 8, 8) == n
  {
  }
}
