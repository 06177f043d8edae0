/** What each MIDI-CI message is answered with, in numbers (src/midi2_ci.c:391-452,
    809-991, src/midi2_ci_msg.h:180-210, 450-470). Get and Set are in Transaction,
    Invalidates and collisions in MuidLifecycle. */
module Replies {
  import opened Words
  import opened Reassembly
  import opened CiMessage
  import opened PropertyExchange
  import opened PeResponder
  import opened Responder

  /** A MIDI-CI message, and what comes behind its thirteen bytes of header. */
  function Message(deviceId: byte, subId: byte, src: nat, dst: nat, rest: bytes): bytes {
    [0x7E, deviceId, 0x0D, subId, 2] + WriteMuid(src) + WriteMuid(dst) + rest
  }

  /** d is a MIDI-CI message of that kind, not from our own MUID. */
  predicate Received(s: Setup, live: Live, d: bytes, subId: byte) {
    && |d| >= 13 && d[0] == 0x7E && d[2] == 0x0D && d[3] == subId
    && (s.rng.Some? ==> ReadMuid(d, 5) != live.muid)
  }

  /** The MUID stays, no setter is called, and these frames are sent if there is a sink. */
  predicate Answered(s: Setup, live: Live, d: bytes, frames: seq<bytes>) {
    Process(s, live, d) == Result(live, if s.hasSink then frames else [], true, [])
  }

  lemma CommonBytes(muid: nat, deviceId: byte, subId: byte, dst: nat, rest: bytes)
    ensures Common(muid, deviceId, subId, dst) + rest == Message(deviceId, subId, muid, dst, rest)
  {
    hide WriteMuid;
  }

  /** What is not MIDI-CI is left to others. */
  lemma NotCi(s: Setup, live: Live, d: bytes)
    requires |d| < 13 || d[0] != 0x7E || d[2] != 0x0D
    ensures Process(s, live, d) == Result(live, [], false, [])
  {
  }

  /** Manufacturer, family, model, version, categories, and 512 in sevens of bits. */
  function Who(s: Setup): bytes {
    [s.manufacturer / 0x1_0000 % 128, s.manufacturer / 0x100 % 128, s.manufacturer % 128,
     s.family % 128, s.family / 128 % 128, s.model % 128, s.model / 128 % 128,
     s.version / 0x100_0000 % 128, s.version / 0x1_0000 % 128, s.version / 0x100 % 128, s.version % 128,
     s.categories, 0, 4, 0, 0]
  }

  lemma IdentityBytes(s: Setup)
    ensures Identity(s) == Who(s)
  {
    assert WriteMuid(512) == [0, 4, 0, 0];
  }

  /** Discovery (0x70): who we are, that messages may have 512 bytes, and 0x7F as the
      function block; nothing, and not handled, while there is no manufacturer. */
  lemma ToDiscovery(s: Setup, live: Live, d: bytes)
    requires Received(s, live, d, 0x70)
    ensures s.manufacturer == 0 ==> Process(s, live, d) == Result(live, [], false, [])
    ensures s.manufacturer != 0 ==>
              Answered(s, live, d, [Message(0x7F, 0x71, live.muid, ReadMuid(d, 5), Who(s) + [0, 0x7F])])
  {
    hide ReadMuid, Common, Message, Identity, Who;
    IdentityBytes(s);
    CommonBytes(live.muid, 0x7F, 0x71, ReadMuid(d, 5), Identity(s) + [0, 0x7F]);
  }

  /** What announces a new MUID: Invalidate of the one before and Discovery, to all. */
  lemma Announcements(s: Setup, muid: nat, before: nat)
    ensures InvalidateFrame(muid, before) == Message(0x7F, 0x7E, muid, 0xFFF_FFFF, WriteMuid(before))
    ensures DiscoveryFrame(s, muid) == Message(0x7F, 0x70, muid, 0xFFF_FFFF, Who(s) + [0])
  {
    hide WriteMuid, Common, Message, Identity, Who;
    IdentityBytes(s);
    CommonBytes(muid, 0x7F, 0x7E, 0xFFF_FFFF, WriteMuid(before));
    CommonBytes(muid, 0x7F, 0x70, 0xFFF_FFFF, Identity(s) + [0]);
  }

  /** Profile Inquiry (0x20): the number of profiles, all of them, and none disabled. */
  lemma ToProfileInquiry(s: Setup, live: Live, d: bytes)
    requires Received(s, live, d, 0x20)
    ensures Answered(s, live, d, [Message(d[1], 0x21, live.muid, ReadMuid(d, 5),
                                          Write14(|s.profiles|) + Concat(s.profiles) + [0, 0])])
  {
    hide ReadMuid, WriteMuid, Common, Message, Concat, Write14, ProfileReplyFrame;
    var h := Header(d[1], 0x21, 2, live.muid, ReadMuid(d, 5));
    ProfileReplyLayout(h, s.profiles, []);
    NoneDisabled();
    var rest := Write14(|s.profiles|) + Concat(s.profiles) + [0, 0];
    assert HeaderBytes(h) + rest == Message(d[1], 0x21, live.muid, ReadMuid(d, 5), rest) by {
      CommonBytes(live.muid, d[1], 0x21, ReadMuid(d, 5), rest);
      SameHeader(h);
    }
    assert Write14(0) + Concat([]) == [0, 0];
  }

  lemma SameHeader(h: Header)
    requires h.version == 2
    ensures Common(h.src, h.deviceId, h.subId, h.dst) == HeaderBytes(h)
  {
  }

  lemma NoneDisabled()
    ensures Write14(0) == [0, 0] && Concat([]) == []
  {
  }

  /** "Not supported" (1), on what was asked for. */
  function Refusal(live: Live, d: bytes): bytes
    requires |d| >= 13
  {
    Message(d[1], 0x7F, live.muid, ReadMuid(d, 5), [d[3], 1, 0, 0, 0, 0, 0, 0, 0, 0])
  }

  lemma NakBytes(live: Live, d: bytes)
    requires IsCi(d)
    ensures NakFrame(live.muid, d) == Refusal(live, d)
  {
    hide ReadMuid, Message, Common;
    CommonBytes(live.muid, d[1], 0x7F, ReadMuid(d, 5), [d[3], 1, 0, 0, 0, 0, 0, 0, 0, 0]);
  }

  /** Set Profile On and Off (0x22, 0x23): a listed profile is reported enabled (0x24)
      to all, with the channels asked for, which only an On of 20 bytes has; another is
      refused; without a whole profile id nothing is sent. */
  lemma ToSetProfile(s: Setup, live: Live, d: bytes)
    requires Received(s, live, d, 0x22) || Received(s, live, d, 0x23)
    ensures |d| < 18 ==> Answered(s, live, d, [])
    ensures |d| >= 18 && (forall i :: 0 <= i < |s.profiles| ==> s.profiles[i] != d[13..18]) ==>
              Answered(s, live, d, [Refusal(live, d)])
    ensures |d| >= 18 && (exists i :: 0 <= i < |s.profiles| && s.profiles[i] == d[13..18]) ==>
              Answered(s, live, d, [Message(d[1], 0x24, live.muid, 0xFFF_FFFF,
                [d[13], d[14], d[15], d[16], d[17]]
                + if d[3] == 0x22 && |d| >= 20 then [d[18] % 128, d[19] % 128] else [0, 0])])
  {
    hide ReadMuid, Message, NakFrame, ProfileEnabledFrame, HasProfile, Refusal;
    NakBytes(live, d);
    if |d| >= 18 {
      EnabledBytes(live.muid, d);
      assert HasProfile(s.profiles, d[13..18]) <==> exists i :: 0 <= i < |s.profiles| && s.profiles[i] == d[13..18] by {
        ListedIs(s.profiles, d[13..18]);
      }
    }
  }

  lemma ListedIs(profiles: seq<Profile>, id: bytes)
    ensures HasProfile(profiles, id) <==> exists i :: 0 <= i < |profiles| && profiles[i] == id
  {
  }

  lemma EnabledBytes(muid: nat, d: bytes)
    requires IsCi(d) && |d| >= 18
    ensures ProfileEnabledFrame(muid, d)
            == Message(d[1], 0x24, muid, 0xFFF_FFFF,
                 [d[13], d[14], d[15], d[16], d[17]]
                 + if d[3] == 0x22 && |d| >= 20 then [d[18] % 128, d[19] % 128] else [0, 0])
  {
    hide Message, Common, ReadMuid;
    var channels: u14 := if d[3] == 0x22 && |d| >= 20 then Read14(d, 18) else 0;
    CommonBytes(muid, d[1], 0x24, 0xFFF_FFFF, d[13..18] + Write14(channels));
    assert d[13..18] == [d[13], d[14], d[15], d[16], d[17]];
    if d[3] == 0x22 && |d| >= 20 {
      assert Write14(channels) == [d[18] % 128, d[19] % 128] by { Channels(d); }
    }
  }

  lemma Channels(d: bytes)
    requires |d| >= 20
    ensures Write14(Read14(d, 18)) == [d[18] % 128, d[19] % 128]
  {
    var lo, hi := Digit(d[18]), Digit(d[19]);
    assert (lo + 128 * hi) / 128 == hi;
  }

  /** PE and Process Inquiry capability (0x30, 0x40): one transaction at a time, version
      1.0; MIDI Message Report. */
  lemma ToCapability(s: Setup, live: Live, d: bytes)
    ensures Received(s, live, d, 0x30) ==> Answered(s, live, d, [Message(0x7F, 0x31, live.muid, ReadMuid(d, 5), [1, 1, 0])])
    ensures Received(s, live, d, 0x40) ==> Answered(s, live, d, [Message(0x7F, 0x41, live.muid, ReadMuid(d, 5), [1])])
  {
    if |d| >= 13 {
      hide ReadMuid, Message, Common;
      CommonBytes(live.muid, 0x7F, 0x31, ReadMuid(d, 5), [1, 1, 0]);
      CommonBytes(live.muid, 0x7F, 0x41, ReadMuid(d, 5), [1]);
    }
  }

  /** MIDI Message Report (0x42): nothing to report, and the end; refused for single
      channels other than the first. */
  lemma ToReport(s: Setup, live: Live, d: bytes)
    requires Received(s, live, d, 0x42)
    ensures |d| < 18 ==> Answered(s, live, d, [])
    ensures |d| >= 18 && 1 <= d[1] <= 15 ==> Answered(s, live, d, [Refusal(live, d)])
    ensures |d| >= 18 && !(1 <= d[1] <= 15) ==>
              Answered(s, live, d, [Message(d[1], 0x43, live.muid, ReadMuid(d, 5), [0, 0, 0, 0]),
                                    Message(d[1], 0x44, live.muid, ReadMuid(d, 5), [])])
  {
    hide ReadMuid, Message, Common, NakFrame, Refusal;
    NakBytes(live, d);
    CommonBytes(live.muid, d[1], 0x43, ReadMuid(d, 5), [0, 0, 0, 0]);
    CommonBytes(live.muid, d[1], 0x44, ReadMuid(d, 5), []);
  }

  /** Get and Set (0x34, 0x36) that end before their header length: nothing is sent. */
  lemma ToShortPe(s: Setup, live: Live, d: bytes)
    requires (Received(s, live, d, 0x34) || Received(s, live, d, 0x36)) && |d| < 16
    ensures Answered(s, live, d, [])
  {
    hide ReadMuid;
  }

  /** All others are refused if the application asked for that, and not handled if it
      did not. */
  lemma ToUnknown(s: Setup, live: Live, d: bytes, subId: byte)
    requires Received(s, live, d, subId)
    requires subId !in {0x20, 0x22, 0x23, 0x30, 0x34, 0x36, 0x40, 0x42, 0x70, 0x7E}
    ensures if s.nakOnUnknown then Answered(s, live, d, [Refusal(live, d)]) else Process(s, live, d) == Result(live, [], false, [])
  {
    hide ReadMuid, Message, NakFrame, Refusal;
    NakBytes(live, d);
  }
}
