/** MIDI-CI frames of variable length: the builders of src/midi2_ci_msg.h and the
    parsers of src/midi2_ci_dispatch.c. Frames carry no F0/F7. */
module CiMessage {
  import opened Words
  import opened Reassembly

  const PROFILE_INQUIRY_REPLY: byte := 0x21
  const PE_GET: byte := 0x34
  const PE_GET_REPLY: byte := 0x35
  const PE_SET: byte := 0x36
  const PE_SET_REPLY: byte := 0x37
  const PE_NOTIFY: byte := 0x3F
  const VERSION_2: byte := 0x02

  /** 28-bit MUIDs and 14-bit fields. The sources OR 7-bit digits into disjoint
      places, which adds them. */
  type muid = m: int | 0 <= m < 0x1000_0000
  type u14 = v: int | 0 <= v < 0x4000

  // ---- 7-bit codecs (midi2_ci_msg.h:151-164, 219-235) -----------------------

  function Digit(b: byte): nat {
    b % 0x80
  }

  function Write14(v: nat): (r: bytes)
    ensures |r| == 2 && Is7Bit(r)
  {
    [v % 0x80, v / 0x80 % 0x80]
  }

  function Read14(d: bytes, p: nat): u14
    requires p + 2 <= |d|
  {
    Digit(d[p]) + 0x80 * Digit(d[p + 1])
  }

  function WriteMuid(v: nat): (r: bytes)
    ensures |r| == 4 && Is7Bit(r)
  {
    [v % 0x80, v / 0x80 % 0x80, v / 0x4000 % 0x80, v / 0x20_0000 % 0x80]
  }

  function ReadMuid(d: bytes, p: nat): muid
    requires p + 4 <= |d|
  {
    Digit(d[p]) + 0x80 * Digit(d[p + 1]) + 0x4000 * Digit(d[p + 2]) + 0x20_0000 * Digit(d[p + 3])
  }

  lemma Read14Back(d: bytes, p: nat, v: u14)
    requires p + 2 <= |d| && d[p..p + 2] == Write14(v)
    ensures Read14(d, p) == v
  {
    assert d[p] == d[p..p + 2][0] && d[p + 1] == d[p..p + 2][1];
  }

  /** The 28 bits of v that are sent. */
  function Low28(v: nat): muid {
    v % 0x1000_0000
  }

  lemma Digits(v: nat)
    ensures v / 0x4000 == v / 0x80 / 0x80 && v / 0x20_0000 == v / 0x80 / 0x80 / 0x80
    ensures v / 0x1000_0000 == v / 0x80 / 0x80 / 0x80 / 0x80
  {
    var a, b, c := v / 0x80, v / 0x4000, v / 0x20_0000;
    assert b == a / 0x80;
    assert c == b / 0x80;
  }

  lemma MuidDigits(v: nat)
    ensures v % 0x80 + 0x80 * (v / 0x80 % 0x80) + 0x4000 * (v / 0x4000 % 0x80) + 0x20_0000 * (v / 0x20_0000 % 0x80) == Low28(v)
  {
    Digits(v);
    var a, b, c, e := v / 0x80, v / 0x4000, v / 0x20_0000, v / 0x1000_0000;
    assert v == 0x80 * a + v % 0x80 && a == 0x80 * b + a % 0x80 && b == 0x80 * c + b % 0x80 && c == 0x80 * e + c % 0x80;
  }

  /** Reading a written field gives the low 28 bits of the value. */
  lemma ReadMuidBack(d: bytes, p: nat, v: nat)
    requires p + 4 <= |d| && d[p..p + 4] == WriteMuid(v)
    ensures ReadMuid(d, p) == Low28(v)
  {
    hide Low28;
    var w := d[p..p + 4];
    assert d[p] == w[0] && d[p + 1] == w[1] && d[p + 2] == w[2] && d[p + 3] == w[3];
    MuidDigits(v);
    SevenBits(v);
  }

  lemma SevenBits(v: nat)
    ensures forall b :: b in WriteMuid(v) ==> Digit(b) == b
  {
  }

  // ---- The common header (midi2_ci_msg.h:180-210, midi2_ci_dispatch.c:45-53) -

  /** src and dst as the state holds them, perhaps wider than 28 bits. */
  datatype Header = Header(deviceId: byte, subId: byte, version: byte, src: nat, dst: nat)
  {
    /** What is sent of them. */
    function OnWire(): Header {
      this.(src := Low28(src), dst := Low28(dst))
    }
  }

  function HeaderBytes(h: Header): (r: bytes)
    ensures |r| == 13
  {
    [0x7E, h.deviceId, 0x0D, h.subId, h.version] + WriteMuid(h.src) + WriteMuid(h.dst)
  }

  predicate IsCi(d: bytes) {
    |d| >= 13 && d[0] == 0x7E && d[2] == 0x0D
  }

  function HeaderOf(d: bytes): Header
    requires IsCi(d)
  {
    Header(d[1], d[3], d[4], ReadMuid(d, 5), ReadMuid(d, 9))
  }

  lemma HeaderBack(h: Header, rest: bytes)
    ensures IsCi(HeaderBytes(h) + rest) && HeaderOf(HeaderBytes(h) + rest) == h.OnWire()
  {
    hide WriteMuid, ReadMuid;
    var d := HeaderBytes(h) + rest;
    assert d[5..9] == WriteMuid(h.src) && d[9..13] == WriteMuid(h.dst);
    ReadMuidBack(d, 5, h.src);
    ReadMuidBack(d, 9, h.dst);
  }

  // ---- Property Exchange data (midi2_ci_msg.h:685-705) ----------------------

  /** What a PE data callback is given. A NULL pointer is None. */
  datatype PeData = PeData(requestId: byte, header: Option<bytes>, headerLen: u14,
                           numChunks: u14, thisChunk: u14, body: Option<bytes>, bodyLen: u14)

  function PeFrame(h: Header, requestId: byte, header: bytes, numChunks: nat, thisChunk: nat, body: bytes): bytes {
    HeaderBytes(h) + [requestId] + Write14(|header|) + header
    + Write14(numChunks) + Write14(thisChunk) + Write14(|body|) + body
  }

  /** A 14-bit field at p if the frame reaches that far, else 0. */
  function Field14(d: bytes, p: nat): u14 {
    if p + 2 <= |d| then Read14(d, p) else 0
  }

  function After14(d: bytes, p: nat): nat {
    if p + 2 <= |d| then p + 2 else p
  }

  /** A block of n bytes at p, if there are any and the frame holds them all. */
  function Block(d: bytes, p: nat, n: nat): Option<bytes> {
    if n > 0 && p + n <= |d| then Some(d[p..p + n]) else None
  }

  /** dispatch_pe_data: fields the frame is too short for read as 0 or NULL. */
  function PeFields(d: bytes): Option<PeData> {
    if |d| < 14 then None
    else
      var headerLen := Field14(d, 14);
      var p := After14(d, 14);
      var q := p + headerLen;
      var r := After14(d, q);
      var s := After14(d, r);
      var t := After14(d, s);
      var bodyLen := Field14(d, s);
      Some(PeData(d[13], Block(d, p, headerLen), headerLen, Field14(d, q), Field14(d, r), Block(d, t, bodyLen), bodyLen))
  }

  function NonEmpty(b: bytes): Option<bytes> {
    if b == [] then None else Some(b)
  }

  lemma PeLayout(h: Header, requestId: byte, header: bytes, numChunks: nat, thisChunk: nat, body: bytes)
    ensures var d := PeFrame(h, requestId, header, numChunks, thisChunk, body);
            var q := 16 + |header|;
            && |d| == q + 6 + |body| && d[..13] == HeaderBytes(h) && d[13] == requestId
            && d[14..16] == Write14(|header|) && d[16..q] == header
            && d[q..q + 2] == Write14(numChunks) && d[q + 2..q + 4] == Write14(thisChunk)
            && d[q + 4..q + 6] == Write14(|body|) && d[q + 6..] == body
  {
    hide HeaderBytes, Write14;
    var d := PeFrame(h, requestId, header, numChunks, thisChunk, body);
    var tail := Write14(numChunks) + Write14(thisChunk) + Write14(|body|) + body;
    assert d == HeaderBytes(h) + [requestId] + Write14(|header|) + header + tail;
    assert d[16 + |header|..] == tail;
  }

  /** Parsing a built PE frame gives back every field, the header and the body. */
  lemma PeRoundTrip(h: Header, requestId: byte, header: bytes, numChunks: u14, thisChunk: u14, body: bytes)
    requires |header| < 0x4000 && |body| < 0x4000
    ensures var d := PeFrame(h, requestId, header, numChunks, thisChunk, body);
            && IsCi(d) && HeaderOf(d) == h.OnWire()
            && PeFields(d) == Some(PeData(requestId, NonEmpty(header), |header|, numChunks, thisChunk, NonEmpty(body), |body|))
  {
    hide HeaderBytes, HeaderOf, Write14, Read14, IsCi, PeFrame;
    var d := PeFrame(h, requestId, header, numChunks, thisChunk, body);
    var q := 16 + |header|;
    PeLayout(h, requestId, header, numChunks, thisChunk, body);
    HeaderBack(h, d[13..]);
    assert d == d[..13] + d[13..];
    Read14Back(d, 14, |header|);
    Read14Back(d, q, numChunks);
    Read14Back(d, q + 2, thisChunk);
    Read14Back(d, q + 4, |body|);
    assert d[q + 6..q + 6 + |body|] == d[q + 6..];
  }

  // ---- Profile Inquiry Reply (midi2_ci_msg.h:490-502, dispatch.c:185-200) ----

  type Profile = p: bytes | |p| == 5 witness [0, 0, 0, 0, 0]

  function Concat(ps: seq<Profile>): (r: bytes)
    ensures |r| == 5 * |ps|
  {
    if ps == [] then [] else ps[0] + Concat(ps[1..])
  }

  function ProfileReplyFrame(h: Header, enabled: seq<Profile>, disabled: seq<Profile>): bytes {
    HeaderBytes(h) + Write14(|enabled|) + Concat(enabled) + Write14(|disabled|) + Concat(disabled)
  }

  /** What the callback is given: two counts, and from where in the frame on the
      profiles of each list are. */
  datatype ProfileLists = ProfileLists(enabledCount: u14, enabled: bytes, disabledCount: u14, disabled: bytes)

  /** The byte count of the enabled list is kept in 16 bits. */
  function ProfileReplyFields(d: bytes): Option<ProfileLists> {
    if |d| < 15 then None
    else
      var n := Read14(d, 13);
      var listBytes := n * 5 % 0x1_0000;
      if 15 + listBytes + 2 > |d| then None
      else
        var off := 15 + listBytes;
        Some(ProfileLists(n, d[15..], Read14(d, off), d[off + 2..]))
  }

  lemma ProfileReplyRoundTrip(h: Header, enabled: seq<Profile>, disabled: seq<Profile>)
    requires |ProfileReplyFrame(h, enabled, disabled)| <= 0xFFFF
    ensures var d := ProfileReplyFrame(h, enabled, disabled);
            && IsCi(d) && HeaderOf(d) == h.OnWire() && ProfileReplyFields(d).Some?
            && var f := ProfileReplyFields(d).value;
               && f.enabledCount == |enabled| && Concat(enabled) <= f.enabled
               && f.disabledCount == |disabled| && Concat(disabled) == f.disabled
  {
    hide HeaderBytes, HeaderOf, Write14, Read14, Concat, IsCi;
    var d := ProfileReplyFrame(h, enabled, disabled);
    var en, tail := Concat(enabled), Write14(|disabled|) + Concat(disabled);
    ProfileReplyLayout(h, enabled, disabled);
    HeaderBack(h, Write14(|enabled|) + en + tail);
    Read14Back(d, 13, |enabled|);
    Read14Back(d, 15 + |en|, |disabled|);
    assert |en| % 0x1_0000 == |en|;
  }

  /** How much of the lists a reply claims lies within the frame: all of the
      enabled list exactly up to 13107 profiles, where five times the count still
      fits 16 bits; the disabled list exactly if the frame is long enough, which
      nothing checks. */
  lemma ListsInFrame(d: bytes)
    requires |d| <= 0xFFFF && ProfileReplyFields(d).Some?
    ensures var f := ProfileReplyFields(d).value;
            && (5 * f.enabledCount + 17 <= |d| <==> f.enabledCount <= 13107)
            && (5 * f.disabledCount <= |f.disabled| <==> 5 * f.enabledCount % 0x1_0000 + 17 + 5 * f.disabledCount <= |d|)
  {
    hide Read14;
  }

  /** The least harmful count: a reply of 21 bytes that claims 65540 bytes of
      enabled profiles is accepted. */
  lemma EnabledOverrun(h: Header, rest: bytes)
    requires |rest| == 6
    ensures var d := HeaderBytes(h) + [0x34, 0x66] + rest;
            |d| == 21 && ProfileReplyFields(d).Some? && ProfileReplyFields(d).value.enabledCount == 13108
  {
    hide HeaderBytes;
    var d := HeaderBytes(h) + [0x34, 0x66] + rest;
    assert d[13] == 0x34 && d[14] == 0x66;
  }

  /** Any number of disabled profiles is accepted with none in the frame. */
  lemma DisabledUnchecked(h: Header, n: u14)
    ensures var d := HeaderBytes(h) + Write14(0) + Write14(n);
            ProfileReplyFields(d) == Some(ProfileLists(0, d[15..], n, []))
  {
    hide HeaderBytes, Write14, Read14;
    var d := HeaderBytes(h) + Write14(0) + Write14(n);
    assert d[13..15] == Write14(0) && d[15..17] == Write14(n) && d[17..] == [];
    Read14Back(d, 13, 0);
    Read14Back(d, 15, n);
  }

  lemma ProfileReplyLayout(h: Header, enabled: seq<Profile>, disabled: seq<Profile>)
    ensures var d := ProfileReplyFrame(h, enabled, disabled);
            var en, dis := Concat(enabled), Concat(disabled);
            var off := 15 + |en|;
            && |d| == off + 2 + |dis| && d == HeaderBytes(h) + (Write14(|enabled|) + en + (Write14(|disabled|) + dis))
            && d[13..15] == Write14(|enabled|) && en <= d[15..]
            && d[off..off + 2] == Write14(|disabled|) && d[off + 2..] == dis
  {
    hide HeaderBytes, Write14, Concat;
    var d := ProfileReplyFrame(h, enabled, disabled);
    var en, dis := Concat(enabled), Concat(disabled);
    assert d[15..] == en + (Write14(|disabled|) + dis);
  }

  // ---- Builders and parsers as the source runs them ------------------------

  /** memcpy at a moving offset. */
  method Put(buf: array<byte>, p: nat, data: bytes) returns (q: nat)
    requires p + |data| <= buf.Length
    modifies buf
    ensures q == p + |data| && buf[..q] == old(buf[..p]) + data
  {
    var i := 0;
    while i < |data|
      invariant 0 <= i <= |data|
      invariant buf[..p + i] == old(buf[..p]) + data[..i]
    {
      buf[p + i] := data[i];
      i := i + 1;
    }
    q := p + |data|;
  }

  /** Header and body are copied only when there is something to copy. */
  method PutBlock(buf: array<byte>, p: nat, data: bytes) returns (q: nat)
    requires p + |data| <= buf.Length
    modifies buf
    ensures q == p + |data| && buf[..q] == old(buf[..p]) + data
  {
    q := p;
    if |data| > 0 {
      q := Put(buf, p, data);
    }
  }

  /** midi2_ci_build_pe_data. */
  method BuildPeData(buf: array<byte>, h: Header, requestId: byte, header: bytes,
                     numChunks: nat, thisChunk: nat, body: bytes) returns (p: nat)
    requires 22 + |header| + |body| <= buf.Length
    modifies buf
    ensures p <= buf.Length && buf[..p] == PeFrame(h, requestId, header, numChunks, thisChunk, body)
  {
    hide HeaderBytes, Write14;
    p := Put(buf, 0, HeaderBytes(h));
    p := Put(buf, p, [requestId]);
    p := Put(buf, p, Write14(|header|));
    p := PutBlock(buf, p, header);
    p := Put(buf, p, Write14(numChunks));
    p := Put(buf, p, Write14(thisChunk));
    p := Put(buf, p, Write14(|body|));
    p := PutBlock(buf, p, body);
  }

  /** dispatch_pe_data, with its cursor. */
  method DispatchPeData(d: bytes) returns (r: Option<PeData>)
    ensures r == PeFields(d)
  {
    if |d| < 14 { return None; }
    var p := 14;
    var headerLen: u14 := 0;
    if p + 2 <= |d| { headerLen := Read14(d, p); p := p + 2; }
    var header := if headerLen > 0 && p + headerLen <= |d| then Some(d[p..p + headerLen]) else None;
    if headerLen > 0 { p := p + headerLen; }
    var numChunks: u14, thisChunk: u14 := 0, 0;
    if p + 2 <= |d| { numChunks := Read14(d, p); p := p + 2; }
    if p + 2 <= |d| { thisChunk := Read14(d, p); p := p + 2; }
    var bodyLen: u14 := 0;
    if p + 2 <= |d| { bodyLen := Read14(d, p); p := p + 2; }
    var body := if bodyLen > 0 && p + bodyLen <= |d| then Some(d[p..p + bodyLen]) else None;
    r := Some(PeData(d[13], header, headerLen, numChunks, thisChunk, body, bodyLen));
  }

  lemma {:induction false} ConcatSnoc(ps: seq<Profile>, q: Profile)
    ensures Concat(ps + [q]) == Concat(ps) + q
  {
    if ps == [] {
      assert [q][1..] == [];
    } else {
      assert (ps + [q])[1..] == ps[1..] + [q];
      ConcatSnoc(ps[1..], q);
    }
  }

  method PutProfiles(buf: array<byte>, p: nat, ps: seq<Profile>) returns (q: nat)
    requires p + 5 * |ps| <= buf.Length
    modifies buf
    ensures q == p + 5 * |ps| && buf[..q] == old(buf[..p]) + Concat(ps)
  {
    q := p;
    var i := 0;
    assert ps[..0] == [];
    while i < |ps|
      invariant 0 <= i <= |ps| && q == p + 5 * i
      invariant buf[..q] == old(buf[..p]) + Concat(ps[..i])
    {
      ConcatSnoc(ps[..i], ps[i]);
      assert ps[..i + 1] == ps[..i] + [ps[i]];
      q := Put(buf, q, ps[i]);
      i := i + 1;
    }
    assert ps[..i] == ps;
  }

  /** midi2_ci_build_profile_inquiry_reply. */
  method BuildProfileReply(buf: array<byte>, h: Header, enabled: seq<Profile>, disabled: seq<Profile>) returns (p: nat)
    requires 17 + 5 * (|enabled| + |disabled|) <= buf.Length
    modifies buf
    ensures p <= buf.Length && buf[..p] == ProfileReplyFrame(h, enabled, disabled)
  {
    hide HeaderBytes, Write14, Concat;
    p := Put(buf, 0, HeaderBytes(h));
    p := Put(buf, p, Write14(|enabled|));
    p := PutProfiles(buf, p, enabled);
    p := Put(buf, p, Write14(|disabled|));
    p := PutProfiles(buf, p, disabled);
  }
}
