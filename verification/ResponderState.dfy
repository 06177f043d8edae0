/** The responder's state struct and its functions (src/midi2_ci.c:52-148,
    328-452, 607-991), against Responder.Process, with every frame sent as
    SysEx7 through the installed sink. */
module ResponderState {
  import opened Words
  import opened Reassembly
  import P = Processor
  import opened Senders
  import opened CiMessage
  import opened PropertyExchange
  import opened PeResponder
  import opened Responder

  // ---- A growing list of sends ----------------------------------------------

  /** The writes attempted for all of sends, from the sink's t-th on. */
  function AllWrites(sends: seq<Send<nibble>>, sink: Sink, t: nat): nat
    decreases |sends|
  {
    if sends == [] then 0
    else
      var n := Writes(Fragments(sends[0].key, sends[0].data, 6), sink, t);
      n + AllWrites(sends[1..], sink, t + n)
  }

  lemma {:induction false} WireSnoc(sends: seq<Send<nibble>>, send: Send<nibble>, sink: Sink, t: nat)
    ensures var fs, t' := Fragments(send.key, send.data, 6), t + AllWrites(sends, sink, t);
            && Wire(sends + [send], 6, sink, t) == Wire(sends, 6, sink, t) + Accepted(fs, sink, t')
            && AllWrites(sends + [send], sink, t) == AllWrites(sends, sink, t) + Writes(fs, sink, t')
    decreases |sends|
  {
    hide FragmentsFrom, Accepted, Writes;
    if sends == [] {
      assert sends + [send] == [send] && [send][1..] == [];
      assert Accepted(Fragments(send.key, send.data, 6), sink, t) + [] == Accepted(Fragments(send.key, send.data, 6), sink, t);
    } else {
      var n := Writes(Fragments(sends[0].key, sends[0].data, 6), sink, t);
      assert (sends + [send])[1..] == sends[1..] + [send];
      WireSnoc(sends[1..], send, sink, t + n);
    }
  }

  /** What one send more adds on the wire. */
  lemma SendNext(sends: seq<Send<nibble>>, send: Send<nibble>, sink: Sink)
    ensures var packets, t := Words7(Fragments(send.key, send.data, 6)), AllWrites(sends, sink, 0);
            && Words7(Wire(sends + [send], 6, sink, 0)) == Words7(Wire(sends, 6, sink, 0)) + Accepted(packets, sink, t)
            && AllWrites(sends + [send], sink, 0) == t + Writes(packets, sink, t)
  {
    hide Words7, Wire, AllWrites, Accepted, Writes, FragmentsFrom;
    WireSnoc(sends, send, sink, 0);
    var fs, t := Fragments(send.key, send.data, 6), AllWrites(sends, sink, 0);
    WrittenWords7(fs, sink, t);
    WordsAppend(Wire(sends, 6, sink, 0), Accepted(fs, sink, t));
  }

  function OnGroup(group: nibble, frames: seq<bytes>): (r: seq<Send<nibble>>)
    ensures |r| == |frames|
  {
    seq(|frames|, i requires 0 <= i < |frames| => Send(group, frames[i]))
  }

  lemma OnGroupEach(group: nibble, frames: seq<bytes>)
    ensures forall i :: 0 <= i < |frames| ==> OnGroup(group, frames)[i] == Send(group, frames[i])
  {
  }

  // ---- The state struct ------------------------------------------------------

  class State {
    const setup: Setup
    const port: Port?
    var muid: word
    var draws: nat
    ghost var sent: seq<Send<nibble>>   // the frames handed to the sink so far
    ghost var calls: seq<SetterCall>    // the setters called so far

    ghost function Now(): Live
      reads this
    {
      Live(muid, draws)
    }

    /** The sink has been offered the packets of the frames sent, and no others. */
    ghost predicate Valid()
      reads this, port
    {
      && setup.Valid() && (setup.hasSink <==> port != null)
      && (port == null ==> sent == [])
      && (port != null ==> port.wire == Words7(Wire(sent, 6, port.sink, 0)) && port.writes == AllWrites(sent, port.sink, 0))
    }

    /** midi2_ci_init_ex, followed by the configuration calls. */
    constructor (setup: Setup, port: Port?, seed: word)
      requires setup.Valid() && (setup.hasSink <==> port != null)
      requires port != null ==> port.wire == [] && port.writes == 0
      ensures Valid() && this.setup == setup && this.port == port && sent == [] && calls == []
      ensures muid == Low28(seed) && draws == 0
      ensures Usable(muid) <==> !Reserved(Low28(seed))
    {
      this.setup, this.port := setup, port;
      muid, draws := seed % 0x1000_0000, 0;
      sent, calls := [], [];
    }

    /** ci_send. */
    method CiSend(group: nibble, frame: bytes)
      requires Valid() && |frame| <= 0xFFFF
      modifies this`sent, port
      ensures Valid() && sent == old(sent) + OnGroup(group, Sending(setup, [frame]))
    {
      hide Words7, Wire, AllWrites, Accepted, Writes, Fragments, OnGroup, Registered;
      OnGroupFew(group, frame);
      if port != null {
        SendNext(sent, Send(group, frame), port.sink);
        SendSysEx7(group, frame, port);
        sent := sent + [Send(group, frame)];
      }
    }

    /** One candidate: the next number, or the current MUID perturbed. */
    method NextCandidate() returns (m: word)
      modifies this`draws
      ensures setup.rng.Some? ==> m == Draw(setup.rng.value, old(draws)) && draws == old(draws) + 1
      ensures setup.rng.None? ==> m == (muid * 1103515245 + 12345) % 0x1_0000_0000 % 0x1000_0000 && draws == old(draws)
    {
      if setup.rng.Some? {
        m := setup.rng.value(draws) % 0x1000_0000;
        draws := draws + 1;
      } else {
        m := (muid * 1103515245 + 12345) % 0x1_0000_0000 % 0x1000_0000;
      }
    }

    /** midi2_ci_new_muid. */
    method DrawMuid() returns (m: word)
      modifies this`muid, this`draws
      ensures Now() == NewMuid(setup.rng, old(Now())) && m == muid
    {
      var tries := 0;
      ghost var t := draws;
      m := NextCandidate();
      tries := 1;
      while tries <= 8 && (m == 0 || m == 0xFFF_FFFF)
        invariant 1 <= tries <= 9 && muid == old(muid)
        invariant setup.rng.Some? ==>
                    && draws == t + tries && m == Draw(setup.rng.value, draws - 1)
                    && FirstUsable(setup.rng.value, t, t + 9) == FirstUsable(setup.rng.value, draws - 1, t + 9)
        invariant setup.rng.None? ==> draws == t && m == (muid * 1103515245 + 12345) % 0x1_0000_0000 % 0x1000_0000
      {
        m := NextCandidate();
        tries := tries + 1;
      }
      if m == 0 || m == 0xFFF_FFFF { m := FALLBACK; }
      muid := m;
    }

    /** ci_reannounce_discovery. */
    method Reannounce(group: nibble)
      requires Valid()
      modifies this`sent, port
      ensures Valid() && sent == old(sent) + OnGroup(group, Sending(setup, [DiscoveryFrame(setup, muid)]))
    {
      CiSend(group, DiscoveryFrame(setup, muid));
    }

    /** ci_check_muid_collision, on the message d. */
    method CheckCollision(group: nibble, d: bytes)
      requires Valid() && IsCi(d)
      modifies this, port
      ensures Valid() && calls == old(calls)
      ensures var (now, frames) := Collide(setup, old(Now()), d);
              Now() == now && sent == old(sent) + OnGroup(group, frames)
    {
      hide NewMuid, DiscoveryFrame, InvalidateFrame, ReadMuid, Wire, AllWrites;
      if setup.rng.None? || ReadMuid(d, 5) != muid { return; }
      var was := muid;
      var _ := DrawMuid();
      if !setup.hasSink || !setup.autoInvalidate { return; }
      var invalidate := InvalidateFrame(muid, was);
      assert |invalidate| == 17 by { Lengths(setup, muid, was); }
      CiSend(group, invalidate);
      Reannounce(group);
    }

    /** ci_handle_invalidate_muid. */
    method HandleInvalidate(group: nibble, d: bytes)
      requires Valid() && IsCi(d) && d[3] == INVALIDATE_MUID
      modifies this, port
      ensures Valid() && calls == old(calls)
      ensures var r := Dispatch(setup, old(Now()), d);
              Now() == r.live && sent == old(sent) + OnGroup(group, r.frames)
    {
      hide NewMuid, DiscoveryFrame, ReadMuid, Wire, AllWrites;
      if |d| < 17 { return; }
      if setup.rng.None? { return; }
      if ReadMuid(d, 13) != muid { return; }
      var _ := DrawMuid();
      Reannounce(group);
    }

    /** ci_handle_profile_inquiry. */
    method HandleProfileInquiry(group: nibble, d: bytes)
      requires Valid() && IsCi(d)
      modifies this`sent, port
      ensures Valid()
      ensures sent == old(sent) + OnGroup(group, Sending(setup,
                [ProfileReplyFrame(Header(d[1], PROFILE_INQUIRY_REPLY, VERSION_2, muid, ReadMuid(d, 5)), setup.profiles, [])]))
    {
      hide ProfileReplyFrame, ReadMuid, Wire, AllWrites;
      var reply := new byte[256];
      var n := BuildProfileReply(reply, Header(d[1], PROFILE_INQUIRY_REPLY, VERSION_2, muid, ReadMuid(d, 5)), setup.profiles, []);
      CiSend(group, reply[..n]);
    }

    /** ci_profile_listed. */
    method ProfileListed(id: bytes) returns (listed: bool)
      ensures listed == HasProfile(setup.profiles, id)
    {
      var i := 0;
      while i < |setup.profiles|
        invariant 0 <= i <= |setup.profiles| && forall j :: 0 <= j < i ==> setup.profiles[j] != id
      {
        if setup.profiles[i] == id { return true; }
        i := i + 1;
      }
      return false;
    }

    /** ci_handle_set_profile. */
    method HandleSetProfile(group: nibble, d: bytes)
      requires Valid() && IsCi(d) && (d[3] == SET_PROFILE_ON || d[3] == SET_PROFILE_OFF)
      modifies this`sent, port
      ensures Valid() && sent == old(sent) + OnGroup(group, Sending(setup, Handle(setup, muid, d).frames))
    {
      hide NakFrame, ProfileEnabledFrame, Wire, AllWrites;
      if |d| < 18 { return; }
      var listed := ProfileListed(d[13..18]);
      ReplyLengths(muid, d);
      if !listed {
        CiSend(group, NakFrame(muid, d));
        return;
      }
      CiSend(group, ProfileEnabledFrame(muid, d));
    }

    /** ci_handle_pi_midi_report. */
    method HandleReport(group: nibble, d: bytes)
      requires Valid() && IsCi(d) && d[3] == PI_MIDI_REPORT
      modifies this`sent, port
      ensures Valid() && sent == old(sent) + OnGroup(group, Sending(setup, Handle(setup, muid, d).frames))
    {
      hide NakFrame, Common, Wire, AllWrites, ReadMuid, Handle, OnGroup, Registered, Accepted, Words7;
      ReportFrames(setup, muid, d);
      OnGroupFew(group, d);
      if |d| < 18 { return; }
      ReplyLengths(muid, d);
      CommonLength(muid, d[1], PI_MIDI_REPORT_REPLY, ReadMuid(d, 5));
      CommonLength(muid, d[1], PI_MIDI_REPORT_END, ReadMuid(d, 5));
      if d[1] <= 0xF && d[1] != 0 {
        CiSend(group, NakFrame(muid, d));
        return;
      }
      var reply := Common(muid, d[1], PI_MIDI_REPORT_REPLY, ReadMuid(d, 5)) + [0, 0, 0, 0];
      var end := Common(muid, d[1], PI_MIDI_REPORT_END, ReadMuid(d, 5)) + [];
      OnGroupAppend(group, [reply], [end]);
      CiSend(group, reply);
      CiSend(group, end);
    }

    /** ci_handle_pe_get and ci_handle_pe_set, sending what they answer. */
    method HandlePe(group: nibble, d: bytes)
      requires Valid() && IsCi(d) && (d[3] == PE_GET || d[3] == PE_SET)
      modifies this`sent, this`calls, port
      ensures var a := Handle(setup, muid, d);
              && Valid() && sent == old(sent) + OnGroup(group, Sending(setup, a.frames)) && calls == old(calls) + a.calls
    {
      hide GetReply, SetAnswer, ReplyFrame, Resource, Wire, AllWrites, CString, SetBody, Inquiry;
      var reply: Option<bytes>;
      if d[3] == PE_GET {
        reply := HandleGet(setup.props, muid, d);
      } else {
        var made;
        reply, made := HandleSet(setup.props, muid, d);
        calls := calls + made;
      }
      if reply.Some? {
        CiSend(group, reply.value);
      }
    }

    /** ci_handle_discovery. */
    method HandleDiscovery(group: nibble, d: bytes) returns (handled: bool)
      requires Valid() && IsCi(d) && d[3] == DISCOVERY
      modifies this`sent, port
      ensures Valid() && handled == Handle(setup, muid, d).handled
      ensures sent == old(sent) + OnGroup(group, Sending(setup, Handle(setup, muid, d).frames))
    {
      hide Common, Wire, AllWrites, ReadMuid, Identity;
      CommonLength(muid, 0x7F, DISCOVERY_REPLY, ReadMuid(d, 5));
      if setup.manufacturer == 0 { return false; }
      CiSend(group, Common(muid, 0x7F, DISCOVERY_REPLY, ReadMuid(d, 5)) + (Identity(setup) + [0, 0x7F]));
      return true;
    }

    /** ci_handle_pe_capability and ci_handle_process_inquiry. */
    method HandleCapability(group: nibble, d: bytes)
      requires Valid() && IsCi(d) && (d[3] == PE_CAPABILITY || d[3] == PI_CAPABILITY)
      modifies this`sent, port
      ensures Valid() && sent == old(sent) + OnGroup(group, Sending(setup, Handle(setup, muid, d).frames))
    {
      hide Common, Wire, AllWrites, ReadMuid, Handle;
      CommonLength(muid, 0x7F, d[3] + 1, ReadMuid(d, 5));
      CapabilityFrames(setup, muid, d);
      if d[3] == PE_CAPABILITY {
        CiSend(group, Common(muid, 0x7F, PE_CAPABILITY_REPLY, ReadMuid(d, 5)) + [1, 1, 0]);
      } else {
        CiSend(group, Common(muid, 0x7F, PI_CAPABILITY_REPLY, ReadMuid(d, 5)) + [1]);
      }
    }

    /** The default case: NAK if the application asked for that. */
    method HandleUnknown(group: nibble, d: bytes) returns (handled: bool)
      requires Valid() && IsCi(d)
      modifies this`sent, port
      ensures Valid() && handled == setup.nakOnUnknown
      ensures sent == old(sent) + OnGroup(group, Sending(setup, if handled then [NakFrame(muid, d)] else []))
    {
      hide NakFrame, Wire, AllWrites;
      if setup.nakOnUnknown {
        ReplyLengths(muid, d);
        CiSend(group, NakFrame(muid, d));
        return true;
      }
      return false;
    }

    /** The switch on the sub-id. */
    method DispatchMessage(group: nibble, d: bytes) returns (handled: bool)
      requires Valid() && IsCi(d)
      modifies this, port
      ensures var r := Dispatch(setup, old(Now()), d);
              && Valid() && Now() == r.live && handled == r.handled
              && sent == old(sent) + OnGroup(group, r.frames) && calls == old(calls) + r.calls
    {
      hide Handle, Wire, AllWrites, Common, NakFrame, OnGroup, Identity, ProfileReplyFrame, ReadMuid;
      ghost var muid0 := muid;
      HandleCases(setup, muid, d);
      handled := true;
      var sub := d[3];
      if sub == DISCOVERY { handled := HandleDiscovery(group, d); }
      else if sub == INVALIDATE_MUID { HandleInvalidate(group, d); }
      else if sub == PROFILE_INQUIRY { HandleProfileInquiry(group, d); }
      else if sub == SET_PROFILE_ON || sub == SET_PROFILE_OFF { HandleSetProfile(group, d); }
      else if sub == PE_CAPABILITY || sub == PI_CAPABILITY { HandleCapability(group, d); }
      else if sub == PE_GET || sub == PE_SET { HandlePe(group, d); }
      else if sub == PI_MIDI_REPORT { HandleReport(group, d); }
      else { handled := HandleUnknown(group, d); }
    }

    /** midi2_ci_process_sysex. */
    method ProcessSysex(group: nibble, d: bytes) returns (handled: bool)
      requires Valid()
      modifies this, port
      ensures var r := Process(setup, old(Now()), d);
              && Valid() && Now() == r.live && handled == r.handled
              && sent == old(sent) + OnGroup(group, r.frames) && calls == old(calls) + r.calls
              && |sent| == |old(sent)| + |r.frames|
              && forall i :: 0 <= i < |r.frames| ==> sent[|old(sent)| + i] == Send(group, r.frames[i])
    {
      hide Dispatch, Collide, OnGroup, Wire, AllWrites;
      OnGroupFew(group, d);
      OnGroupEach(group, Process(setup, Now(), d).frames);
      if !IsCi(d) { return false; }
      ghost var now := Collide(setup, Now(), d);
      OnGroupAppend(group, now.1, Dispatch(setup, now.0, d).frames);
      CheckCollision(group, d);
      handled := DispatchMessage(group, d);
    }
  }

  lemma HandleCases(s: Setup, muid: nat, d: bytes)
    requires IsCi(d)
    ensures var a, sub := Handle(s, muid, d), d[3];
            && (sub != PE_SET ==> a.calls == [])
            && (sub in {PROFILE_INQUIRY, SET_PROFILE_ON, SET_PROFILE_OFF, PE_CAPABILITY, PI_CAPABILITY, PE_GET, PE_SET, PI_MIDI_REPORT}
                ==> a.handled)
            && (sub == PROFILE_INQUIRY ==>
                  a.frames == [ProfileReplyFrame(Header(d[1], PROFILE_INQUIRY_REPLY, VERSION_2, muid, ReadMuid(d, 5)), s.profiles, [])])
            && (sub !in {DISCOVERY, PROFILE_INQUIRY, SET_PROFILE_ON, SET_PROFILE_OFF, PE_CAPABILITY, PI_CAPABILITY, PE_GET,
                         PE_SET, PI_MIDI_REPORT}
                ==> a.handled == s.nakOnUnknown && a.frames == if s.nakOnUnknown then [NakFrame(muid, d)] else [])
  {
    hide NakFrame, Common, ReadMuid, ProfileReplyFrame, ReplyFrame, GetReply, SetAnswer;
  }

  lemma WordsAppend(xs: seq<Fragment<nibble>>, ys: seq<Fragment<nibble>>)
    ensures Words7(xs + ys) == Words7(xs) + Words7(ys)
  {
    hide Ump.SysEx7Words;
  }

  lemma OnGroupFew(group: nibble, frame: bytes)
    ensures OnGroup(group, []) == [] && OnGroup(group, [frame]) == [Send(group, frame)]
  {
  }

  lemma OnGroupAppend(group: nibble, xs: seq<bytes>, ys: seq<bytes>)
    ensures OnGroup(group, xs + ys) == OnGroup(group, xs) + OnGroup(group, ys)
  {
  }

  lemma CapabilityFrames(s: Setup, muid: nat, d: bytes)
    requires IsCi(d) && (d[3] == PE_CAPABILITY || d[3] == PI_CAPABILITY)
    ensures Handle(s, muid, d).frames
            == if d[3] == PE_CAPABILITY then [Common(muid, 0x7F, PE_CAPABILITY_REPLY, ReadMuid(d, 5)) + [1, 1, 0]]
               else [Common(muid, 0x7F, PI_CAPABILITY_REPLY, ReadMuid(d, 5)) + [1]]
  {
    hide Common, ReadMuid;
  }

  lemma ReportFrames(s: Setup, muid: nat, d: bytes)
    requires IsCi(d) && d[3] == PI_MIDI_REPORT
    ensures Handle(s, muid, d).frames
            == if |d| < 18 then []
               else if 0 < d[1] <= 0xF then [NakFrame(muid, d)]
               else [Common(muid, d[1], PI_MIDI_REPORT_REPLY, ReadMuid(d, 5)) + [0, 0, 0, 0]]
                    + [Common(muid, d[1], PI_MIDI_REPORT_END, ReadMuid(d, 5)) + []]
  {
    hide Common, NakFrame, ReadMuid;
  }

  lemma CommonLength(muid: nat, deviceId: byte, subId: byte, dst: nat)
    ensures |Common(muid, deviceId, subId, dst)| == 13
  {
  }

  lemma Lengths(s: Setup, muid: nat, was: nat)
    ensures |InvalidateFrame(muid, was)| == 17 && |DiscoveryFrame(s, muid)| == 30
  {
  }

  lemma ReplyLengths(muid: nat, d: bytes)
    requires IsCi(d)
    ensures |NakFrame(muid, d)| == 23
    ensures |d| >= 18 ==> |ProfileEnabledFrame(muid, d)| == 20
  {
  }

  /** A receiver of the responder's link, in whatever state, gets exactly the
      frames of which the sink took every packet, in the order they were sent. */
  lemma PeerReceives(ci: State, cfg: P.Config, p: P.Proc)
    requires ci.Valid() && ci.port != null && cfg.limit7.Some? && AllSendable7(cfg.limit7.value, ci.sent)
    ensures P.ProcessAll(cfg, p, ci.port.wire).1 == P.Events7(Survivors(ci.sent, 6, ci.port.sink, 0))
  {
    hide Words7, Wire, Survivors, AllWrites, Registered;
    LossySysEx7(cfg, p, ci.sent, ci.port.sink, 0);
  }
}
