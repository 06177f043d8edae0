/** Whole Property Exchange transactions: an inquiry is built, sent as SysEx7,
    reassembled, answered, sent back, reassembled and parsed
    (src/midi2_ci_msg.h, midi2_proc.c, midi2_ci.c, midi2_ci_dispatch.c). */
module Transaction {
  import opened Words
  import opened Reassembly
  import P = Processor
  import opened Senders
  import opened Json
  import opened CiMessage
  import opened PropertyExchange
  import opened PeResponder
  import opened Outcomes
  import opened Responder
  import opened MuidLifecycle

  /** What the application registered can go into SysEx. */
  ghost predicate SevenBit(props: seq<Property>) {
    && (forall i :: 0 <= i < |props| && props[i].value.Some? ==> Is7Bit(props[i].value.value))
    && (forall i :: 0 <= i < |props| && props[i].name.Some? ==> Is7Bit(props[i].name.value))
  }

  // ---- Frames fit SysEx -------------------------------------------------------

  lemma SevenBitAppend(a: bytes, b: bytes)
    requires Is7Bit(a) && Is7Bit(b)
    ensures Is7Bit(a + b)
  {
  }

  lemma PeFrameFits(h: Header, requestId: byte, header: bytes, body: bytes)
    ensures |PeFrame(h, requestId, header, 1, 1, body)| == 22 + |header| + |body|
    ensures h.deviceId < 0x80 && h.subId < 0x80 && h.version < 0x80 && requestId < 0x80 && Is7Bit(header) && Is7Bit(body)
            ==> Is7Bit(PeFrame(h, requestId, header, 1, 1, body))
  {
    hide Write14, WriteMuid;
  }

  lemma {:induction false} ListFits(names: seq<bytes>)
    requires forall n :: n in names ==> Is7Bit(n)
    ensures Is7Bit(PrintElements(Entries(names)))
  {
    hide PrintElements, Entries, Ascii, Is7Bit;
    if names == [] {
      NoElementsFit();
    } else {
      var k := |names| - 1;
      assert names == names[..k] + [names[k]];
      ListFits(names[..k]);
      ListSnoc(names[..k], names[k]);
      EntryFits(names[k]);
      var comma: bytes := if k == 0 then [] else [COMMA];
      assert Is7Bit(comma) by { CommaFits(comma); }
      SevenBitAppend(comma, PRE + names[k] + [QUOTE, CLOSE_BRACE]);
      SevenBitAppend(PrintElements(Entries(names[..k])), comma + (PRE + names[k] + [QUOTE, CLOSE_BRACE]));
    }
  }

  lemma NoElementsFit()
    ensures Is7Bit(PrintElements(Entries([])))
  {
  }

  lemma CommaFits(comma: bytes)
    requires comma == [] || comma == [COMMA]
    ensures Is7Bit(comma)
  {
  }

  lemma EntryFits(name: bytes)
    requires Is7Bit(name)
    ensures Is7Bit(PRE + name + [QUOTE, CLOSE_BRACE])
  {
  }

  lemma {:induction false} DecimalFits(n: nat, k: nat)
    requires 1 <= k <= 5 && n < [10, 100, 1000, 10000, 100000][k - 1]
    ensures 1 <= |Decimal(n)| <= k && Is7Bit(Decimal(n))
  {
    if n >= 10 {
      DecimalFits(n / 10, k - 1);
      SevenBitAppend(Decimal(n / 10), [0x30 + n % 10]);
    }
  }

  lemma OkHeaderFits(count: Option<nat>)
    requires count.Some? ==> count.value <= 0xFFFF
    ensures Is7Bit(OkHeader(count)) && 14 <= |OkHeader(count)| <= 40
  {
    hide Decimal, Is7Bit, Ascii;
    PartsFit();
    if count.Some? {
      DecimalFits(count.value, 5);
      SevenBitAppend(TOTAL, Decimal(count.value));
    }
    SevenBitAppend(HEAD, if count.Some? then TOTAL + Decimal(count.value) else []);
    SevenBitAppend(HEAD + (if count.Some? then TOTAL + Decimal(count.value) else []), [CLOSE_BRACE]);
  }

  lemma PartsFit()
    ensures Is7Bit(HEAD) && Is7Bit(TOTAL) && Is7Bit([CLOSE_BRACE]) && Is7Bit([]) && |HEAD| == 13 && |TOTAL| == 14
  {
  }

  lemma {:induction false} NamesSevenBit(props: seq<Property>)
    requires SevenBit(props)
    ensures forall n :: n in Names(props) ==> Is7Bit(n)
    decreases |props|
  {
    if props != [] {
      NamesSevenBit(props[..|props| - 1]);
    }
  }

  /** An answer is at most 490 bytes of 7 bits, and has a header. */
  lemma AnswerFits(props: seq<Property>, res: Option<bytes>)
    requires SevenBit(props)
    ensures var a := GetAnswer(props, res);
            Is7Bit(a.header) && Is7Bit(a.body) && 0 < |a.header| && |a.header| + |a.body| <= 490
  {
    hide OkHeader, ListAnswer, ValueAnswer, Is7Bit;
    var i := if res.Some? then Lookup(props, res.value) else 0;
    assert Is7Bit(STATUS_404) && |STATUS_404| == 14 && Is7Bit([]) by { StatusFits(); }
    if res.Some? && i < |props| {
      if props[i].value.Some? {
        ValueFits(props[i].value.value);
      }
    } else {
      ListAnswerFits(props);
    }
  }

  lemma StatusFits()
    ensures Is7Bit(STATUS_200) && Is7Bit(STATUS_400) && Is7Bit(STATUS_404) && Is7Bit([])
    ensures |STATUS_200| == |STATUS_400| == |STATUS_404| == 14
  {
  }

  lemma ValueFits(value: bytes)
    requires Is7Bit(value)
    ensures var a := ValueAnswer(value);
            Is7Bit(a.header) && Is7Bit(a.body) && 0 < |a.header| && |a.header| + |a.body| <= 490
  {
    hide ArrayCount, OkHeader;
    var body := value[..Min(|value|, PE_BODY_MAX)];
    CountBound(body);
    var (isList, n) := ArrayCount(body);
    OkHeaderFits(if isList then Some(n) else None);
  }

  lemma ListAnswerFits(props: seq<Property>)
    requires SevenBit(props)
    ensures var a := ListAnswer(props);
            Is7Bit(a.header) && Is7Bit(a.body) && 0 < |a.header| && |a.header| + |a.body| <= 490
  {
    hide ArrayCount, OkHeader, PrintElements, Fitting, Entries, SevenBit, Names;
    var names := Names(props);
    var listed := Listed(names, PE_BODY_MAX);
    var body := ListText(listed);
    NamesSevenBit(props);
    FittingBound(names, PE_BODY_MAX, 0);
    assert names[..0] == [];
    ListLengthSnoc([], []);
    FittingMaximal(names, PE_BODY_MAX, 0, |listed|);
    ListFits(listed);
    CountBound(body);
    OkHeaderFits(Some(ArrayCount(body).1));
  }

  // ---- The built-in list ------------------------------------------------------

  /** It tells exactly how many resources it lists: as many of the named ones,
      from the first on, as fit 448 bytes. */
  lemma ListOutcome(props: seq<Property>, j: nat)
    requires j <= |Names(props)| && forall n :: n in Names(props) ==> Plainly(n)
    ensures var names := Names(props);
            var listed := Listed(names, PE_BODY_MAX);
            && ListAnswer(props) == Answer(HEAD + TOTAL + Decimal(|listed|) + [CLOSE_BRACE], ListText(listed))
            && FromDecimal(Decimal(|listed|)) == |listed| && listed <= names
            && (ListLength(names[..j]) <= PE_BODY_MAX <==> j <= |listed|)
  {
    hide ListText, ListLength, ArrayCount, Decimal, FromDecimal, Fitting;
    ResourceListBody(Names(props), PE_BODY_MAX, j);
    DecimalBack(|Listed(Names(props), PE_BODY_MAX)|);
  }

  // ---- Inquiries as handlers see them -----------------------------------------

  function InquiryFrame(subId: byte, me: nat, to: nat, requestId: byte, name: bytes, body: bytes): bytes {
    PeFrame(Header(0x7F, subId, VERSION_2, me, to), requestId, InquiryHeader(name), 1, 1, body)
  }

  lemma InquiryAsSeen(subId: byte, me: muid, to: nat, requestId: byte, name: bytes, body: bytes)
    requires |name| + 15 < 0x4000 && |body| < 0x4000 && QuoteFree(name)
    ensures var d := InquiryFrame(subId, me, to, requestId, name, body);
            && |d| == 37 + |name| + |body| && IsCi(d)
            && d[3] == subId && ReadMuid(d, 5) == me && d[13] == requestId
            && Resource(Inquiry(d)) == Some(name) && SetBody(d) == body[..Min(|body|, PE_BODY_MAX)]
  {
    hide HeaderBytes, Write14, PeFrame, Resource, ReadMuid;
    var h := Header(0x7F, subId, VERSION_2, me, to);
    var d := InquiryFrame(subId, me, to, requestId, name, body);
    assert |InquiryHeader(name)| == |name| + 15;
    PeRoundTrip(h, requestId, InquiryHeader(name), 1, 1, body);
    PeFrameFits(h, requestId, InquiryHeader(name), body);
    assert HeaderOf(d).subId == subId && HeaderOf(d).src == me;
    InquiryNames(name);
    FieldsAsSeen(d, InquiryHeader(name), body);
  }

  /** The handlers find the same header and body as dispatch_pe_data. */
  lemma FieldsAsSeen(d: bytes, header: bytes, body: bytes)
    requires |d| == 22 + |header| + |body| && header != []
    requires var f := PeFields(d);
             f.Some? && f.value.header == Some(header) && f.value.headerLen == |header|
             && f.value.body == NonEmpty(body) && f.value.bodyLen == |body|
    ensures Inquiry(d) == Some(header) && SetBody(d) == body[..Min(|body|, PE_BODY_MAX)]
  {
    hide Read14;
    var off := 16 + |header|;
    assert body != [] ==> body == d[off + 6..off + 6 + |body|];
  }

  lemma InquiryFits(subId: byte, me: nat, to: nat, requestId: byte, name: bytes, body: bytes)
    requires subId < 0x80 && requestId < 0x80 && Is7Bit(name) && Is7Bit(body)
    ensures Is7Bit(InquiryFrame(subId, me, to, requestId, name, body))
  {
    hide PeFrame;
    PeFrameFits(Header(0x7F, subId, VERSION_2, me, to), requestId, InquiryHeader(name), body);
  }

  // ---- The transactions --------------------------------------------------------

  /** Receivers with a SysEx7 buffer of at least n bytes. */
  predicate HasRoom(cfg: P.Config, n: nat) {
    cfg.limit7.Some? && (cfg.limit7.value.Capacity? ==> cfg.limit7.value.size >= n)
  }

  /** data arrives at a receiver in whatever state, once and whole. */
  ghost predicate Arrives(cfg: P.Config, p: P.Proc, group: nibble, data: bytes) {
    P.ProcessAll(cfg, p, Words7(Fragments(group, data, 6))).1 == [P.OnSysEx7(group, data)]
  }

  lemma Arrival(cfg: P.Config, p: P.Proc, group: nibble, data: bytes)
    requires data != [] && Is7Bit(data) && HasRoom(cfg, |data|)
    ensures Arrives(cfg, p, group, data)
  {
    hide Words7, Fragments;
    RoundTripSysEx7(cfg, p, group, data);
  }

  /** The reply to an inquiry as its sender parses it. */
  predicate IsReply(d: bytes, subId: byte, src: nat, dst: nat, requestId: byte, a: Answer) {
    && IsCi(d) && HeaderOf(d) == Header(0x7F, subId, 2, src, dst)
    && |a.header| < 0x4000 && |a.body| < 0x4000
    && PeFields(d) == Some(PeData(requestId, Some(a.header), |a.header|, 1, 1, NonEmpty(a.body), |a.body|))
  }

  lemma ReplyParses(muid: nat, d: bytes, me: muid, subId: byte, a: Answer)
    requires |d| >= 16 && ReadMuid(d, 5) == me && d[13] < 0x80 && subId < 0x80
    requires Is7Bit(a.header) && Is7Bit(a.body) && 0 < |a.header| && |a.header| + |a.body| <= 490
    ensures var f := ReplyFrame(muid, d, subId, a);
            IsReply(f, subId, Low28(muid), me, d[13], a) && Is7Bit(f) && 0 < |f| <= 512
  {
    hide PeFrame, HeaderOf, IsCi, PeFields, Is7Bit, ReadMuid;
    var h := Header(0x7F, subId, VERSION_2, muid, me);
    PeRoundTrip(h, d[13], a.header, 1, 1, a.body);
    PeFrameFits(h, d[13], a.header, a.body);
  }

  /** A Get of any quote-free name, over any groups and to receivers in any state:
      exactly one reply comes back, addressed to the sender, with its request id.
      As the sender parses it, it holds the first 448 bytes of the value of the first
      property of that name; else the built-in list; else 404. */
  lemma GetTransaction(s: Setup, live: Live, cfg: P.Config, p: P.Proc, cfg2: P.Config, q: P.Proc, group: nibble,
                       me: muid, requestId: byte, name: bytes)
    requires (s.rng.Some? ==> me != live.muid) && s.hasSink && SevenBit(s.props)
    requires requestId < 0x80 && Is7Bit(name) && QuoteFree(name) && |name| + 15 < 0x4000
    requires HasRoom(cfg, 37 + |name|) && HasRoom(cfg2, 512)
    ensures var request := InquiryFrame(0x34, me, live.muid, requestId, name, []);
            var r := Process(s, live, request);
            && Arrives(cfg, p, group, request)
            && r.live == live && r.handled && r.calls == [] && |r.frames| == 1
            && Arrives(cfg2, q, group, r.frames[0])
            && exists a :: IsReply(r.frames[0], 0x35, Low28(live.muid), me, requestId, a) && AnsweredBy(s.props, name, a)
  {
    hide InquiryFrame, Resource, GetAnswer, IsReply, Arrives, ReplyFrame, Is7Bit, QuoteFree, ReadMuid, SevenBit, SetAnswer;
    hide AnsweredBy;
    var request := InquiryFrame(PE_GET, me, live.muid, requestId, name, []);
    assert Is7Bit([]) by { StatusFits(); }
    InquiryAsSeen(PE_GET, me, live.muid, requestId, name, []);
    InquiryFits(PE_GET, me, live.muid, requestId, name, []);
    Arrival(cfg, p, group, request);
    var a := GetAnswer(s.props, Some(name));
    AnswerFits(s.props, Some(name));
    GetOutcome(s.props, name);
    ReplyParses(live.muid, request, me, PE_GET_REPLY, a);
    var reply := ReplyFrame(live.muid, request, PE_GET_REPLY, a);
    GetHandled(s, live, request, a);
    Arrival(cfg2, q, group, reply);
  }

  lemma GetHandled(s: Setup, live: Live, d: bytes, a: Answer)
    requires IsCi(d) && |d| >= 16 && d[3] == PE_GET && !Collides(s, live, d) && s.hasSink
    requires a == GetAnswer(s.props, Resource(Inquiry(d)))
    ensures Process(s, live, d) == Result(live, [ReplyFrame(live.muid, d, PE_GET_REPLY, a)], true, [])
  {
    hide GetAnswer, ReplyFrame, Resource, SetAnswer, ReadMuid;
  }

  /** A Set calls the setter of the first property of that name, if it has one: once,
      with the body up to its first NUL or 448 bytes, so exactly the body if it is a
      string that fits; the status is 200 or 400 as it answers. Else nothing is called,
      and it is 404. */
  lemma SetTransaction(s: Setup, live: Live, cfg: P.Config, p: P.Proc, cfg2: P.Config, q: P.Proc, group: nibble,
                       me: muid, requestId: byte, name: bytes, body: bytes)
    requires (s.rng.Some? ==> me != live.muid) && s.hasSink
    requires requestId < 0x80 && Is7Bit(name) && QuoteFree(name) && |name| + 15 < 0x4000
    requires Is7Bit(body) && |body| < 0x4000
    requires HasRoom(cfg, 37 + |name| + |body|) && HasRoom(cfg2, 512)
    ensures var request := InquiryFrame(0x36, me, live.muid, requestId, name, body);
            var r := Process(s, live, request);
            var value := CString(body[..Min(|body|, 448)]);
            && (NulFree(body) && |body| <= 448 ==> value == body)
            && Arrives(cfg, p, group, request)
            && r.live == live && r.handled && |r.frames| == 1
            && Arrives(cfg2, q, group, r.frames[0])
            && exists status :: IsReply(r.frames[0], 0x37, Low28(live.muid), me, requestId, Answer(status, []))
                                && StoredAs(s.props, name, value, status, r.calls)
  {
    hide InquiryFrame, Resource, IsReply, Arrives, ReplyFrame, Is7Bit, QuoteFree, ReadMuid, CString, NulFree, Ascii, StoredAs;
    hide Lookup;
    var request := InquiryFrame(PE_SET, me, live.muid, requestId, name, body);
    InquiryAsSeen(PE_SET, me, live.muid, requestId, name, body);
    InquiryFits(PE_SET, me, live.muid, requestId, name, body);
    Arrival(cfg, p, group, request);
    if NulFree(body) && |body| <= 448 {
      assert body[..Min(|body|, 448)] == body;
      FirstNul(body, []);
    }
    var value := CString(body[..Min(|body|, 448)]);
    SetOutcome(s.props, name, value);
    var status := SetAnswer(s.props, Some(name), value).0;
    StatusFits();
    ReplyParses(live.muid, request, me, PE_SET_REPLY, Answer(status, []));
    SetHandled(s, live, request, name, value);
    Arrival(cfg2, q, group, ReplyFrame(live.muid, request, PE_SET_REPLY, Answer(status, [])));
  }

  lemma SetHandled(s: Setup, live: Live, d: bytes, name: bytes, value: bytes)
    requires IsCi(d) && |d| >= 16 && d[3] == PE_SET && !Collides(s, live, d) && s.hasSink
    requires Resource(Inquiry(d)) == Some(name) && CString(SetBody(d)) == value
    ensures var (status, calls) := SetAnswer(s.props, Some(name), value);
            Process(s, live, d) == Result(live, [ReplyFrame(live.muid, d, PE_SET_REPLY, Answer(status, []))], true, calls)
  {
    hide GetAnswer, ReplyFrame, Resource, SetAnswer, ReadMuid, CString, SetBody;
  }

  /** A Profile Inquiry is answered with all profiles, all enabled. */
  lemma ProfileTransaction(s: Setup, live: Live, d: bytes)
    requires IsCi(d) && d[3] == PROFILE_INQUIRY && !Collides(s, live, d) && s.hasSink && s.Valid()
    ensures var r := Process(s, live, d);
            && r.live == live && |r.frames| == 1 && IsCi(r.frames[0])
            && HeaderOf(r.frames[0]) == Header(d[1], PROFILE_INQUIRY_REPLY, VERSION_2, Low28(live.muid), ReadMuid(d, 5))
            && ProfileReplyFields(r.frames[0]).Some?
            && var f := ProfileReplyFields(r.frames[0]).value;
               f.enabledCount == |s.profiles| && Concat(s.profiles) <= f.enabled && f.disabledCount == 0 && f.disabled == []
  {
    hide ReadMuid, ProfileReplyFrame, HeaderOf, ProfileReplyFields, Concat;
    var h := Header(d[1], PROFILE_INQUIRY_REPLY, VERSION_2, live.muid, ReadMuid(d, 5));
    ProfileReplyLayout(h, s.profiles, []);
    ProfileReplyRoundTrip(h, s.profiles, []);
    assert Concat([]) == [] by { NoProfiles(); }
  }

  lemma NoProfiles()
    ensures Concat([]) == []
  {
  }

  // ---- Everything the responder sends is SysEx data ------------------------------

  /** What the application configured can go into SysEx. */
  ghost predicate SevenBitSetup(s: Setup) {
    && s.Valid() && SevenBit(s.props) && s.categories < 0x80
    && forall i :: 0 <= i < |s.profiles| ==> Is7Bit(s.profiles[i])
  }

  predicate Sysex(frame: bytes) {
    Is7Bit(frame) && 0 < |frame| <= 512
  }

  lemma CommonFits(muid: nat, deviceId: byte, subId: byte, dst: nat, rest: bytes)
    requires deviceId < 0x80 && subId < 0x80 && Is7Bit(rest) && |rest| <= 499
    ensures Sysex(Common(muid, deviceId, subId, dst) + rest)
  {
    hide WriteMuid;
  }

  lemma {:induction false} ConcatFits(ps: seq<Profile>)
    requires forall i :: 0 <= i < |ps| ==> Is7Bit(ps[i])
    ensures Is7Bit(Concat(ps))
  {
    if ps != [] {
      ConcatFits(ps[1..]);
      SevenBitAppend(ps[0], Concat(ps[1..]));
    }
  }

  lemma ProfileReplyFits(h: Header, ps: seq<Profile>)
    requires h.deviceId < 0x80 && h.subId == PROFILE_INQUIRY_REPLY && h.version == VERSION_2
    requires |ps| <= 47 && forall i :: 0 <= i < |ps| ==> Is7Bit(ps[i])
    ensures Sysex(ProfileReplyFrame(h, ps, []))
  {
    hide Write14, Concat, HeaderBytes, Common;
    var rest := Write14(|ps|) + Concat(ps) + (Write14(0) + Concat([]));
    assert Concat([]) == [] by { NoProfiles(); }
    ConcatFits(ps);
    ProfileReplyLayout(h, ps, []);
    CommonFits(h.src, h.deviceId, h.subId, h.dst, rest);
    assert Common(h.src, h.deviceId, h.subId, h.dst) == HeaderBytes(h) by { CommonIs(h); }
  }

  lemma CommonIs(h: Header)
    requires h.version == VERSION_2
    ensures Common(h.src, h.deviceId, h.subId, h.dst) == HeaderBytes(h)
  {
  }

  lemma IdentityFits(s: Setup)
    requires s.categories < 0x80
    ensures Is7Bit(Identity(s)) && Is7Bit(Identity(s) + [0]) && Is7Bit(Identity(s) + [0, 0x7F])
  {
    hide WriteMuid, Write14;
  }

  lemma PeReplyFits(s: Setup, muid: nat, d: bytes)
    requires SevenBitSetup(s) && Is7Bit(d) && |d| >= 16
    ensures Sysex(ReplyFrame(muid, d, PE_GET_REPLY, GetAnswer(s.props, Resource(Inquiry(d)))))
    ensures var status := SetAnswer(s.props, Resource(Inquiry(d)), CString(SetBody(d))).0;
            Sysex(ReplyFrame(muid, d, PE_SET_REPLY, Answer(status, [])))
  {
    hide PeFrame, GetAnswer, Resource, CString, SetBody, ReadMuid, Inquiry, Ascii, Lookup;
    var a := GetAnswer(s.props, Resource(Inquiry(d)));
    AnswerFits(s.props, Resource(Inquiry(d)));
    PeFrameFits(Header(0x7F, PE_GET_REPLY, VERSION_2, muid, ReadMuid(d, 5)), d[13], a.header, a.body);
    StatusFits();
    var status := SetAnswer(s.props, Resource(Inquiry(d)), CString(SetBody(d))).0;
    PeFrameFits(Header(0x7F, PE_SET_REPLY, VERSION_2, muid, ReadMuid(d, 5)), d[13], status, []);
  }

  lemma HandleFits(s: Setup, muid: nat, d: bytes)
    requires SevenBitSetup(s) && IsCi(d) && Is7Bit(d)
    ensures forall f :: f in Handle(s, muid, d).frames ==> Sysex(f)
  {
    hide Common, Sysex, Identity, ReplyFrame, ProfileReplyFrame, ReadMuid, Read14, Write14, GetAnswer, SetAnswer, Resource;
    hide CString, SetBody, Inquiry, SevenBit, Registered;
    var src := ReadMuid(d, 5);
    IdentityFits(s);
    CommonFits(muid, 0x7F, DISCOVERY_REPLY, src, Identity(s) + [0, 0x7F]);
    ProfileReplyFits(Header(d[1], PROFILE_INQUIRY_REPLY, VERSION_2, muid, src), s.profiles);
    if |d| >= 18 {
      var channels: u14 := if d[3] == SET_PROFILE_ON && |d| >= 20 then Read14(d, 18) else 0;
      CommonFits(muid, d[1], PROFILE_ENABLED, BROADCAST, d[13..18] + Write14(channels));
    }
    CommonFits(muid, 0x7F, PE_CAPABILITY_REPLY, src, [1, 1, 0]);
    if |d| >= 16 { PeReplyFits(s, muid, d); }
    CommonFits(muid, 0x7F, PI_CAPABILITY_REPLY, src, [1]);
    CommonFits(muid, d[1], PI_MIDI_REPORT_REPLY, src, [0, 0, 0, 0]);
    CommonFits(muid, d[1], PI_MIDI_REPORT_END, src, []);
    CommonFits(muid, d[1], NAK, src, [d[3], 1, 0, 0, 0, 0, 0, 0, 0, 0]);
  }

  lemma ProcessFits(s: Setup, live: Live, d: bytes)
    requires SevenBitSetup(s) && Is7Bit(d)
    ensures forall f :: f in Process(s, live, d).frames ==> Sysex(f)
  {
    hide Handle, NewMuid, Common, Sysex, Identity, ReadMuid, WriteMuid, Is7Bit, SevenBitSetup;
    if IsCi(d) {
      var now := Collide(s, live, d).0;
      var next := NewMuid(s.rng, now).muid;
      OwnFramesFit(s, now.muid, live.muid);
      OwnFramesFit(s, next, 0);
      HandleFits(s, now.muid, d);
    }
  }

  lemma OwnFramesFit(s: Setup, muid: nat, was: nat)
    requires SevenBitSetup(s)
    ensures Sysex(InvalidateFrame(muid, was)) && Sysex(DiscoveryFrame(s, muid))
  {
    hide Common, Sysex, Identity, WriteMuid;
    IdentityFits(s);
    CommonFits(muid, 0x7F, INVALIDATE_MUID, BROADCAST, WriteMuid(was));
    CommonFits(muid, 0x7F, DISCOVERY, BROADCAST, Identity(s) + [0]);
  }

  /** Over any run of SysEx messages, everything the responder sends is SysEx data
      of at most 512 bytes, the size it advertises. */
  lemma {:induction false} SentFits(s: Setup, live: Live, ds: seq<bytes>)
    requires SevenBitSetup(s) && forall d :: d in ds ==> Is7Bit(d)
    ensures forall f :: f in Sent(s, live, ds) ==> Sysex(f)
    decreases |ds|
  {
    hide Process, Sysex, Is7Bit, SevenBitSetup;
    if ds != [] {
      ProcessFits(s, live, ds[0]);
      SentFits(s, Process(s, live, ds[0]).live, ds[1..]);
    }
  }
}
