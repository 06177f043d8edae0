/** The MIDI-CI responder: choosing a MUID, its frames, and the dispatch of inbound
    messages (src/midi2_ci.c:52-148, 391-452, 752-991). */
module Responder {
  import opened Words
  import opened Reassembly
  import opened CiMessage
  import opened PropertyExchange
  import opened PeResponder

  const BROADCAST: muid := 0xFFF_FFFF
  const FALLBACK: word := 0x1234_5678

  const DISCOVERY: byte := 0x70
  const DISCOVERY_REPLY: byte := 0x71
  const INVALIDATE_MUID: byte := 0x7E
  const NAK: byte := 0x7F
  const PROFILE_INQUIRY: byte := 0x20
  const SET_PROFILE_ON: byte := 0x22
  const SET_PROFILE_OFF: byte := 0x23
  const PROFILE_ENABLED: byte := 0x24
  const PE_CAPABILITY: byte := 0x30
  const PE_CAPABILITY_REPLY: byte := 0x31
  const PI_CAPABILITY: byte := 0x40
  const PI_CAPABILITY_REPLY: byte := 0x41
  const PI_MIDI_REPORT: byte := 0x42
  const PI_MIDI_REPORT_REPLY: byte := 0x43
  const PI_MIDI_REPORT_END: byte := 0x44

  /** The t-th number the application's generator returns. */
  type Rng = nat -> word

  /** What the application configures. Without an rng or a sink the pointers are NULL. */
  datatype Setup = Setup(
    manufacturer: word, family: nat, model: nat, version: word, categories: byte,
    profiles: seq<Profile>, props: seq<Property>,
    rng: Option<Rng>, hasSink: bool, nakOnUnknown: bool, autoInvalidate: bool)
  {
    /** The profile reply is built in 256 bytes. */
    predicate Valid() {
      |profiles| <= 47 && Registered(props)
    }
  }

  /** What changes: the MUID, and how many numbers were drawn. */
  datatype Live = Live(muid: word, draws: nat)

  // ---- Choosing a MUID (midi2_ci.c:131-148) ---------------------------------

  predicate Reserved(m: nat) {
    m == 0 || m == BROADCAST
  }

  predicate Usable(m: nat) {
    0 < m < BROADCAST
  }

  /** The MUID the i-th number makes. */
  function Draw(rng: Rng, i: nat): muid {
    Low28(rng(i))
  }

  /** The first of the draws i..end - 1 that is not reserved; end if there is none. */
  function FirstUsable(rng: Rng, i: nat, end: nat): (r: nat)
    requires i <= end
    ensures i <= r <= end && (r < end ==> !Reserved(Draw(rng, r)))
    ensures forall j :: i <= j < r ==> Reserved(Draw(rng, j))
    decreases end - i
  {
    if i == end || !Reserved(Draw(rng, i)) then i else FirstUsable(rng, i + 1, end)
  }

  /** Up to nine draws from the t-th on. */
  function Redraw(rng: Rng, t: nat): Live {
    var i := FirstUsable(rng, t, t + 9);
    if i < t + 9 then Live(Draw(rng, i), i + 1) else Live(FALLBACK, t + 9)
  }

  /** Without a generator: a linear congruential step in 32 bits, masked to 28. */
  function Perturbed(m: word): word {
    var n := (m * 1103515245 + 12345) % 0x1_0000_0000 % 0x1000_0000;
    if Reserved(n) then FALLBACK else n
  }

  function NewMuid(rng: Option<Rng>, s: Live): Live {
    if rng.Some? then Redraw(rng.value, s.draws) else s.(muid := Perturbed(s.muid))
  }

  /** The new MUID is usable exactly if one of the next nine numbers makes a
      usable one; the last resort is wider than 28 bits. */
  lemma UsableWhen(rng: Rng, t: nat)
    ensures Usable(Redraw(rng, t).muid) <==> exists i :: t <= i < t + 9 && !Reserved(Draw(rng, i))
    ensures Redraw(rng, t).draws > t
  {
    assert FirstUsable(rng, t, t + 9) < t + 9 ==> !Reserved(Draw(rng, FirstUsable(rng, t, t + 9)));
  }

  /** The number that counts is the first of nine whose low 28 bits are neither all
      zeroes nor all ones. */
  lemma RedrawNumbers(rng: Rng, t: nat, i: nat)
    requires t <= i <= t + 9 && forall j :: t <= j < i ==> rng(j) % 0x1000_0000 in {0, 0xFFF_FFFF}
    ensures i < t + 9 && rng(i) % 0x1000_0000 !in {0, 0xFFF_FFFF} ==> Redraw(rng, t) == Live(rng(i) % 0x1000_0000, i + 1)
    ensures i == t + 9 ==> Redraw(rng, t) == Live(0x1234_5678, t + 9)
  {
    assert forall j :: t <= j < t + 9 ==> Draw(rng, j) == rng(j) % 0x1000_0000;
  }

  /** Without a generator, some MUIDs and what they become. */
  lemma PerturbedNumbers()
    ensures Perturbed(0) == 12345 && Perturbed(1) == 29785766
  {
    assert 1103527590 == 4 * 0x1000_0000 + 29785766;
  }

  /** Nine zeroes in a row: the responder then signs its frames with a MUID other
      than the one it holds, and no peer can collide with the one it holds. */
  lemma FallbackIsTooWide(rest: bytes)
    ensures var s := Redraw(_ => 0, 0);
            && s.muid == FALLBACK && !Usable(s.muid)
            && HeaderOf(HeaderBytes(Header(0x7F, DISCOVERY, VERSION_2, s.muid, BROADCAST)) + rest).src == 0x234_5678
            && forall d: bytes, p: nat :: p + 4 <= |d| ==> ReadMuid(d, p) != s.muid
  {
    hide WriteMuid, ReadMuid;
    var zeroes: Rng := _ => 0;
    assert FirstUsable(zeroes, 0, 9) == 9;
    HeaderBack(Header(0x7F, DISCOVERY, VERSION_2, FALLBACK, BROADCAST), rest);
  }

  // ---- Frames ---------------------------------------------------------------

  function Common(muid: nat, deviceId: byte, subId: byte, dst: nat): bytes {
    HeaderBytes(Header(deviceId, subId, VERSION_2, muid, dst))
  }

  /** Manufacturer, family, model, revision, categories, and 512 as the largest SysEx. */
  function Identity(s: Setup): (r: bytes)
    ensures |r| == 16
  {
    [s.manufacturer / 0x1_0000 % 0x80, s.manufacturer / 0x100 % 0x80, s.manufacturer % 0x80]
    + Write14(s.family) + Write14(s.model)
    + [s.version / 0x100_0000 % 0x80, s.version / 0x1_0000 % 0x80, s.version / 0x100 % 0x80, s.version % 0x80]
    + [s.categories] + WriteMuid(512)
  }

  function DiscoveryFrame(s: Setup, muid: nat): bytes {
    Common(muid, 0x7F, DISCOVERY, BROADCAST) + (Identity(s) + [0])
  }

  function InvalidateFrame(muid: nat, target: nat): bytes {
    Common(muid, 0x7F, INVALIDATE_MUID, BROADCAST) + WriteMuid(target)
  }

  /** "Not supported", on what d asked for. */
  function NakFrame(muid: nat, d: bytes): bytes
    requires IsCi(d)
  {
    Common(muid, d[1], NAK, ReadMuid(d, 5)) + [d[3], 1, 0, 0, 0, 0, 0, 0, 0, 0]
  }

  function ProfileEnabledFrame(muid: nat, d: bytes): bytes
    requires IsCi(d) && |d| >= 18
  {
    var channels: u14 := if d[3] == SET_PROFILE_ON && |d| >= 20 then Read14(d, 18) else 0;
    Common(muid, d[1], PROFILE_ENABLED, BROADCAST) + (d[13..18] + Write14(channels))
  }

  // ---- Dispatch (midi2_ci.c:391-452, 809-991) -------------------------------

  /** The frames answering d, whether d counts as handled, and the setters called. */
  datatype Answers = Answers(frames: seq<bytes>, handled: bool, calls: seq<SetterCall>)

  predicate HasProfile(profiles: seq<Profile>, id: bytes) {
    exists i :: 0 <= i < |profiles| && profiles[i] == id
  }

  function Optional(frame: Option<bytes>): seq<bytes> {
    if frame == None then [] else [frame.value]
  }

  function Handle(s: Setup, muid: nat, d: bytes): Answers
    requires IsCi(d)
  {
    var sub, src := d[3], ReadMuid(d, 5);
    if sub == DISCOVERY then
      if s.manufacturer == 0 then Answers([], false, [])
      else Answers([Common(muid, 0x7F, DISCOVERY_REPLY, src) + (Identity(s) + [0, 0x7F])], true, [])
    else if sub == PROFILE_INQUIRY then
      Answers([ProfileReplyFrame(Header(d[1], PROFILE_INQUIRY_REPLY, VERSION_2, muid, src), s.profiles, [])], true, [])
    else if sub == SET_PROFILE_ON || sub == SET_PROFILE_OFF then
      Answers(if |d| < 18 then []
              else if HasProfile(s.profiles, d[13..18]) then [ProfileEnabledFrame(muid, d)]
              else [NakFrame(muid, d)], true, [])
    else if sub == PE_CAPABILITY then Answers([Common(muid, 0x7F, PE_CAPABILITY_REPLY, src) + [1, 1, 0]], true, [])
    else if sub == PE_GET then Answers(Optional(GetReply(s.props, muid, d)), true, [])
    else if sub == PE_SET then
      if |d| < 16 then Answers([], true, [])
      else
        var (status, calls) := SetAnswer(s.props, Resource(Inquiry(d)), CString(SetBody(d)));
        Answers([ReplyFrame(muid, d, PE_SET_REPLY, Answer(status, []))], true, calls)
    else if sub == PI_CAPABILITY then Answers([Common(muid, 0x7F, PI_CAPABILITY_REPLY, src) + [1]], true, [])
    else if sub == PI_MIDI_REPORT then
      Answers(if |d| < 18 then []
              else if 0 < d[1] <= 0xF then [NakFrame(muid, d)]
              else [Common(muid, d[1], PI_MIDI_REPORT_REPLY, src) + [0, 0, 0, 0],
                    Common(muid, d[1], PI_MIDI_REPORT_END, src) + []], true, [])
    else if s.nakOnUnknown then Answers([NakFrame(muid, d)], true, [])
    else Answers([], false, [])
  }

  /** The generator has no part in answers. */
  lemma SameAnswers(s: Setup, silent: Setup, muid: nat, d: bytes)
    requires IsCi(d) && silent == s.(rng := None)
    ensures Handle(s, muid, d) == Handle(silent, muid, d)
  {
    hide ReadMuid, Read14, Write14, GetAnswer, SetAnswer, Resource, Common, ReplyFrame, ProfileReplyFrame, CString, SetBody;
  }

  /** d comes from a peer that uses our MUID. */
  predicate Collides(s: Setup, live: Live, d: bytes)
    requires IsCi(d)
  {
    s.rng.Some? && ReadMuid(d, 5) == live.muid
  }

  /** d tells the holder of our MUID to give it up. */
  predicate Invalidates(s: Setup, live: Live, d: bytes)
    requires IsCi(d)
  {
    s.rng.Some? && d[3] == INVALIDATE_MUID && |d| >= 17 && ReadMuid(d, 13) == live.muid
  }

  datatype Result = Result(live: Live, frames: seq<bytes>, handled: bool, calls: seq<SetterCall>)

  /** The state after the collision check, and the frames it sends. */
  function Collide(s: Setup, live: Live, d: bytes): (Live, seq<bytes>)
    requires IsCi(d)
  {
    if !Collides(s, live, d) then (live, [])
    else
      var now := NewMuid(s.rng, live);
      (now, if s.hasSink && s.autoInvalidate then [InvalidateFrame(now.muid, live.muid), DiscoveryFrame(s, now.muid)] else [])
  }

  function Sending(s: Setup, frames: seq<bytes>): seq<bytes> {
    if s.hasSink then frames else []
  }

  function Dispatch(s: Setup, live: Live, d: bytes): Result
    requires IsCi(d)
  {
    if d[3] == INVALIDATE_MUID then
      if !Invalidates(s, live, d) then Result(live, [], true, [])
      else
        var now := NewMuid(s.rng, live);
        Result(now, Sending(s, [DiscoveryFrame(s, now.muid)]), true, [])
    else
      var a := Handle(s, live.muid, d);
      Result(live, Sending(s, a.frames), a.handled, a.calls)
  }

  /** midi2_ci_process_sysex. */
  function Process(s: Setup, live: Live, d: bytes): Result {
    if !IsCi(d) then Result(live, [], false, [])
    else
      var (now, frames) := Collide(s, live, d);
      var r := Dispatch(s, now, d);
      r.(frames := frames + r.frames)
  }

  // ---- One message ----------------------------------------------------------

  /** The frame is from the holder of muid; 28 bits of it are sent. */
  predicate SentBy(frame: bytes, muid: nat) {
    IsCi(frame) && HeaderOf(frame).src == Low28(muid)
  }

  predicate AllSentBy(frames: seq<bytes>, muid: nat) {
    forall f :: f in frames ==> SentBy(f, muid)
  }

  /** The frame is for peer, perhaps among all others. */
  predicate SentTo(frame: bytes, peer: nat) {
    IsCi(frame) && (HeaderOf(frame).dst == peer || HeaderOf(frame).dst == BROADCAST)
  }

  predicate Reply(frame: bytes, muid: nat, peer: nat) {
    SentBy(frame, muid) && SentTo(frame, peer)
  }

  lemma CommonSource(muid: nat, deviceId: byte, subId: byte, dst: muid, rest: bytes, peer: nat)
    requires dst == peer || dst == BROADCAST
    ensures Reply(Common(muid, deviceId, subId, dst) + rest, muid, peer)
  {
    hide HeaderBytes, HeaderOf, IsCi, Low28;
    assert Low28(dst) == dst by { NarrowStays(dst); }
    HeaderBack(Header(deviceId, subId, VERSION_2, muid, dst), rest);
  }

  lemma NarrowStays(m: nat)
    ensures m < 0x1000_0000 ==> Low28(m) == m
    ensures Usable(m) ==> m < 0x1000_0000
  {
  }

  lemma PeSource(muid: nat, d: bytes, subId: byte, a: Answer)
    requires |d| >= 16
    ensures Reply(ReplyFrame(muid, d, subId, a), muid, ReadMuid(d, 5))
  {
    hide HeaderBytes, Write14, ReadMuid, IsCi, HeaderOf;
    var rest := [d[13]] + Write14(|a.header|) + a.header + Write14(1) + Write14(1) + Write14(|a.body|) + a.body;
    CommonSource(muid, 0x7F, subId, ReadMuid(d, 5), rest, ReadMuid(d, 5));
    assert ReplyFrame(muid, d, subId, a) == Common(muid, 0x7F, subId, ReadMuid(d, 5)) + rest;
  }

  lemma ProfileSource(muid: nat, deviceId: byte, dst: muid, profiles: seq<Profile>)
    ensures Reply(ProfileReplyFrame(Header(deviceId, PROFILE_INQUIRY_REPLY, VERSION_2, muid, dst), profiles, []), muid, dst)
  {
    hide HeaderBytes, Write14, IsCi, HeaderOf, Concat, ProfileReplyFrame;
    var h := Header(deviceId, PROFILE_INQUIRY_REPLY, VERSION_2, muid, dst);
    var rest := Write14(|profiles|) + Concat(profiles) + (Write14(0) + Concat([]));
    ProfileReplyLayout(h, profiles, []);
    CommonSource(muid, deviceId, PROFILE_INQUIRY_REPLY, dst, rest, dst);
  }

  /** Whatever is asked, every answer is from us, and for who asked or for all. */
  lemma HandleSource(s: Setup, muid: nat, d: bytes)
    requires IsCi(d)
    ensures forall f :: f in Handle(s, muid, d).frames ==> Reply(f, muid, ReadMuid(d, 5))
  {
    hide Common, Reply, Identity, ReplyFrame, ProfileReplyFrame, ReadMuid, Read14, Write14, GetAnswer, SetAnswer, Resource;
    var src := ReadMuid(d, 5);
    CommonSource(muid, 0x7F, DISCOVERY_REPLY, src, Identity(s) + [0, 0x7F], src);
    ProfileSource(muid, d[1], src, s.profiles);
    if |d| >= 18 {
      var channels: u14 := if d[3] == SET_PROFILE_ON && |d| >= 20 then Read14(d, 18) else 0;
      CommonSource(muid, d[1], PROFILE_ENABLED, BROADCAST, d[13..18] + Write14(channels), src);
    }
    CommonSource(muid, 0x7F, PE_CAPABILITY_REPLY, src, [1, 1, 0], src);
    if |d| >= 16 {
      PeSource(muid, d, PE_GET_REPLY, GetAnswer(s.props, Resource(Inquiry(d))));
      PeSource(muid, d, PE_SET_REPLY, Answer(SetAnswer(s.props, Resource(Inquiry(d)), CString(SetBody(d))).0, []));
    }
    CommonSource(muid, 0x7F, PI_CAPABILITY_REPLY, src, [1], src);
    CommonSource(muid, d[1], PI_MIDI_REPORT_REPLY, src, [0, 0, 0, 0], src);
    CommonSource(muid, d[1], PI_MIDI_REPORT_END, src, [], src);
    CommonSource(muid, d[1], NAK, src, [d[3], 1, 0, 0, 0, 0, 0, 0, 0, 0], src);
  }
}
