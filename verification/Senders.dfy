/** The SysEx senders (src/midi2_proc.c:252-289, 438-462), and what a receiver
    makes of the words they write. */
module Senders {
  import opened Words
  import opened Ump
  import opened Reassembly
  import opened Processor

  /** A write_fn and its context: takes a packet whole or refuses it. */
  class Port {
    const sink: Sink
    var writes: nat                 // calls so far
    ghost var wire: seq<seq<word>>  // the packets accepted so far

    constructor (sink: Sink)
      ensures this.sink == sink && writes == 0 && wire == []
    {
      this.sink := sink;
      writes, wire := 0, [];
    }

    method Write(w: seq<word>) returns (accepted: nat)
      modifies this
      ensures writes == old(writes) + 1
      ensures accepted == if sink(old(writes)) then |w| else 0
      ensures wire == if sink(old(writes)) then old(wire) + [w] else old(wire)
    {
      accepted := 0;
      if sink(writes) {
        accepted := |w|;
        wire := wire + [w];
      }
      writes := writes + 1;
    }
  }

  // ---- Writing a run of packets up to the first refusal --------------------

  /** Of the packets a sender set out to write when the wire and the number of
      writes were wire and t, the packets rest are still to come. */
  ghost predicate Owed(packets: seq<seq<word>>, wire: seq<seq<word>>, t: nat, rest: seq<seq<word>>, port: Port)
    reads port
  {
    && wire + Accepted(packets, port.sink, t) == port.wire + Accepted(rest, port.sink, port.writes)
    && t + Writes(packets, port.sink, t) == port.writes + Writes(rest, port.sink, port.writes)
  }

  lemma Begin(packets: seq<seq<word>>, port: Port)
    ensures Owed(packets, port.wire, port.writes, packets, port)
  {
  }

  lemma Settled(packets: seq<seq<word>>, wire: seq<seq<word>>, t: nat, port: Port)
    requires Owed(packets, wire, t, [], port)
    ensures port.wire == wire + Accepted(packets, port.sink, t)
    ensures port.writes == t + Writes(packets, port.sink, t)
  {
  }

  lemma TakeNext<P>(packet: P, rest: seq<P>, sink: Sink, t: nat)
    ensures Accepted([packet] + rest, sink, t) == if sink(t) then [packet] + Accepted(rest, sink, t + 1) else []
    ensures Writes([packet] + rest, sink, t) == if sink(t) then 1 + Writes(rest, sink, t + 1) else 1
    ensures Accepted<P>([], sink, t) == [] && Writes<P>([], sink, t) == 0
  {
    assert ([packet] + rest)[1..] == rest;
  }

  /** Write one packet; rest is what should follow it. */
  method WritePacket(w: seq<word>, port: Port, ghost packets: seq<seq<word>>, ghost wire: seq<seq<word>>, ghost t: nat,
                     ghost rest: seq<seq<word>>) returns (n: nat)
    requires w != [] && Owed(packets, wire, t, [w] + rest, port)
    modifies port
    ensures n < |w| <==> !port.sink(old(port.writes))
    ensures Owed(packets, wire, t, if n < |w| then [] else rest, port)
  {
    hide Accepted, Writes;
    ghost var t' := port.writes;
    TakeNext(w, rest, port.sink, t');
    TakeNext(w, [], port.sink, t' + 1);
    assert port.wire + ([w] + Accepted(rest, port.sink, t' + 1)) == port.wire + [w] + Accepted(rest, port.sink, t' + 1);
    n := port.Write(w);
  }

  // ---- The words of fragments ----------------------------------------------

  function Words7(fs: seq<Fragment<nibble>>): (r: seq<seq<word>>)
    ensures |r| == |fs| && forall m :: m in r ==> |m| == 2
  {
    seq(|fs|, i requires 0 <= i < |fs| => SysEx7Words(fs[i].key, fs[i].form, fs[i].data))
  }

  function Words8(fs: seq<Fragment<StreamKey>>): (r: seq<seq<word>>)
    ensures |r| == |fs| && forall m :: m in r ==> |m| == 4
  {
    seq(|fs|, i requires 0 <= i < |fs| => SysEx8Words(fs[i].key.group, fs[i].form, fs[i].key.stream, fs[i].data))
  }

  method Packet7(f: Fragment<nibble>) returns (w: seq<word>)
    requires f.form <= END && |f.data| <= 6
    ensures w == SysEx7Words(f.key, f.form, f.data) && |w| == 2
  {
    hide SysEx7Words;
    var buf := new word[2];
    var status: byte := 16 * (f.form as int);
    SysEx7Packet(buf, f.key, status, f.data);
    assert f.data[..Min(|f.data|, 6)] == f.data && buf[..] == buf[..2];
    w := buf[..];
  }

  method Packet8(f: Fragment<StreamKey>) returns (w: seq<word>)
    requires f.form <= END && |f.data| <= 13
    ensures w == SysEx8Words(f.key.group, f.form, f.key.stream, f.data) && |w| == 4
  {
    hide SysEx8Words;
    var buf := new word[4];
    var status: byte := 16 * (f.form as int);
    SysEx8Packet(buf, f.key.group, status, f.key.stream, f.data);
    assert f.data[..Min(|f.data|, 13)] == f.data && buf[..] == buf[..4];
    w := buf[..];
  }

  /** The packets of data from offset on: the one at offset, then the rest. */
  lemma NextPacket7(key: nibble, data: bytes, offset: nat)
    requires offset <= |data|
    ensures offset == |data| ==> Words7(FragmentsFrom(key, data, 6, offset)) == []
    ensures offset < |data| ==>
              var next := offset + Min(6, |data| - offset);
              Words7(FragmentsFrom(key, data, 6, offset))
              == [SysEx7Words(key, FormOf(offset == 0, next == |data|), data[offset..next])]
                 + Words7(FragmentsFrom(key, data, 6, next))
  {
    hide SysEx7Words;
    NextFragment(key, data, 6, offset);
  }

  lemma NextPacket8(key: StreamKey, data: bytes, offset: nat)
    requires offset <= |data|
    ensures offset == |data| ==> Words8(FragmentsFrom(key, data, 13, offset)) == []
    ensures offset < |data| ==>
              var next := offset + Min(13, |data| - offset);
              Words8(FragmentsFrom(key, data, 13, offset))
              == [SysEx8Words(key.group, FormOf(offset == 0, next == |data|), key.stream, data[offset..next])]
                 + Words8(FragmentsFrom(key, data, 13, next))
  {
    hide SysEx8Words;
    NextFragment(key, data, 13, offset);
  }

  // ---- The senders ---------------------------------------------------------

  /** midi2_proc_send_sysex7: the accepted part of the message's packets reaches
      the wire, and nothing is written after the first refusal. */
  method SendSysEx7(group: byte, data: bytes, port: Port)
    requires |data| <= 0xFFFF
    modifies port
    ensures var packets := Words7(Fragments<nibble>(group % 16, data, 6));
            && port.wire == old(port.wire) + Accepted(packets, port.sink, old(port.writes))
            && port.writes == old(port.writes) + Writes(packets, port.sink, old(port.writes))
  {
    hide Owed, SysEx7Words, Words7, FragmentsFrom, Accepted, Writes;
    var key: nibble := group % 16;
    ghost var packets, wire, t := Words7(Fragments(key, data, 6)), port.wire, port.writes;
    Begin(packets, port);
    NextPacket7(key, data, 0);
    NextPacket7(key, data, |data|);
    if |data| == 0 {
      Settled(packets, wire, t, port);
      return;
    }
    if |data| <= 6 {
      var w := Packet7(Fragment(key, COMPLETE, data[0..|data|]));
      var _ := WritePacket(w, port, packets, wire, t, []);
      Settled(packets, wire, t, port);
      return;
    }
    var w := Packet7(Fragment(key, START, data[0..6]));
    var n := WritePacket(w, port, packets, wire, t, Words7(FragmentsFrom(key, data, 6, 6)));
    if n < 2 {
      Settled(packets, wire, t, port);
      return;
    }
    var offset := 6;
    while offset + 6 < |data|
      invariant 6 <= offset < |data|
      invariant Owed(packets, wire, t, Words7(FragmentsFrom(key, data, 6, offset)), port)
    {
      NextPacket7(key, data, offset);
      w := Packet7(Fragment(key, CONTINUE, data[offset..offset + 6]));
      n := WritePacket(w, port, packets, wire, t, Words7(FragmentsFrom(key, data, 6, offset + 6)));
      if n < 2 {
        Settled(packets, wire, t, port);
        return;
      }
      offset := offset + 6;
    }
    NextPacket7(key, data, offset);
    w := Packet7(Fragment(key, END, data[offset..|data|]));
    var _ := WritePacket(w, port, packets, wire, t, []);
    Settled(packets, wire, t, port);
  }

  /** midi2_proc_stream_form. */
  method StreamForm(isFirst: bool, isLast: bool) returns (form: nibble)
    ensures form == FormOf(isFirst, isLast)
  {
    var lut: seq<nibble> := [2, 3, 1, 0];
    form := lut[(if isFirst then 2 else 0) + (if isLast then 1 else 0)];
  }

  /** midi2_proc_send_sysex8. */
  method SendSysEx8(group: byte, stream: byte, data: bytes, port: Port)
    requires |data| <= 0xFFFF
    modifies port
    ensures var packets := Words8(Fragments(StreamKey(group % 16, stream), data, 13));
            && port.wire == old(port.wire) + Accepted(packets, port.sink, old(port.writes))
            && port.writes == old(port.writes) + Writes(packets, port.sink, old(port.writes))
  {
    hide Owed, SysEx8Words, Words8, FragmentsFrom, Accepted, Writes;
    var offset := 0;
    var key := StreamKey(group % 16, stream);
    ghost var packets, wire, t := Words8(Fragments(key, data, 13)), port.wire, port.writes;
    Begin(packets, port);
    while offset < |data|
      invariant 0 <= offset <= |data|
      invariant Owed(packets, wire, t, Words8(FragmentsFrom(key, data, 13, offset)), port)
    {
      var remaining := |data| - offset;
      var n := if remaining > 13 then 13 else remaining;
      var form := StreamForm(offset == 0, remaining <= 13);
      NextPacket8(key, data, offset);
      var w := Packet8(Fragment(key, form, data[offset..offset + n]));
      var sent := WritePacket(w, port, packets, wire, t, Words8(FragmentsFrom(key, data, 13, offset + n)));
      if sent < 4 {
        Settled(packets, wire, t, port);
        return;
      }
      offset := offset + n;
    }
    NextPacket8(key, data, |data|);
    Settled(packets, wire, t, port);
  }

  // ---- Senders against the processor, on the words -------------------------

  predicate Sendable(size: nat, data: bytes) {
    |data| <= size && Is7Bit(data)
  }

  /** What a sender writes is the words of the fragments that Wire collects. */
  lemma {:induction false} WrittenWords7(fs: seq<Fragment<nibble>>, sink: Sink, t: nat)
    ensures Accepted(Words7(fs), sink, t) == Words7(Accepted(fs, sink, t))
    ensures Writes(Words7(fs), sink, t) == Writes(fs, sink, t)
    decreases |fs|
  {
    hide SysEx7Words;
    if fs != [] {
      assert Words7(fs)[1..] == Words7(fs[1..]);
      WrittenWords7(fs[1..], sink, t + 1);
    }
  }

  lemma {:induction false} WrittenWords8(fs: seq<Fragment<StreamKey>>, sink: Sink, t: nat)
    ensures Accepted(Words8(fs), sink, t) == Words8(Accepted(fs, sink, t))
    ensures Writes(Words8(fs), sink, t) == Writes(fs, sink, t)
    decreases |fs|
  {
    hide SysEx8Words;
    if fs != [] {
      assert Words8(fs)[1..] == Words8(fs[1..]);
      WrittenWords8(fs[1..], sink, t + 1);
    }
  }

  lemma ProcessFragment7(cfg: Config, p: Proc, f: Fragment<nibble>)
    requires cfg.limit7.Some? && Sendable(6, f.data)
    ensures var (a, ds) := Step(cfg.limit7.value, p.sysex7, f);
            Process(cfg, p, SysEx7Words(f.key, f.form, f.data)) == (p.(sysex7 := a), Events7(ds))
  {
    hide SysEx7Data, Form, Group, Step, Image;
    SysEx7Unpack(f.key, f.form, f.data);
  }

  lemma ProcessFragment8(cfg: Config, p: Proc, f: Fragment<StreamKey>)
    requires cfg.limit8.Some? && |f.data| <= 13
    ensures var (a, ds) := Step(cfg.limit8.value, p.sysex8, f);
            Process(cfg, p, SysEx8Words(f.key.group, f.form, f.key.stream, f.data)) == (p.(sysex8 := a), Events8(ds))
  {
    hide SysEx8Data, Form, Group, SysEx8Stream, Step, Image;
    SysEx8Unpack(f.key.group, f.form, f.key.stream, f.data);
  }

  lemma {:induction false} ProcessWords7(cfg: Config, p: Proc, fs: seq<Fragment<nibble>>)
    requires cfg.limit7.Some? && forall f :: f in fs ==> Sendable(6, f.data)
    ensures ProcessAll(cfg, p, Words7(fs)).1 == Events7(Delivered(cfg.limit7.value, p.sysex7, fs))
    decreases |fs|
  {
    hide Process, SysEx7Words, Step;
    if fs != [] {
      ProcessFragment7(cfg, p, fs[0]);
      assert Words7(fs)[1..] == Words7(fs[1..]);
      ProcessWords7(cfg, p.(sysex7 := Step(cfg.limit7.value, p.sysex7, fs[0]).0), fs[1..]);
    }
  }

  lemma {:induction false} ProcessWords8(cfg: Config, p: Proc, fs: seq<Fragment<StreamKey>>)
    requires cfg.limit8.Some? && forall f :: f in fs ==> |f.data| <= 13
    ensures ProcessAll(cfg, p, Words8(fs)).1 == Events8(Delivered(cfg.limit8.value, p.sysex8, fs))
    decreases |fs|
  {
    hide Process, SysEx8Words, Step;
    if fs != [] {
      ProcessFragment8(cfg, p, fs[0]);
      assert Words8(fs)[1..] == Words8(fs[1..]);
      ProcessWords8(cfg, p.(sysex8 := Step(cfg.limit8.value, p.sysex8, fs[0]).0), fs[1..]);
    }
  }

  predicate AllSendable7(limit: Limit, sends: seq<Send<nibble>>) {
    forall i :: 0 <= i < |sends| ==> Fits(limit, sends[i].data) && Is7Bit(sends[i].data)
  }

  lemma {:induction false} WireFits<K>(sends: seq<Send<K>>, size: nat, sink: Sink, t: nat, sevenBit: bool)
    requires size > 0 && (sevenBit ==> forall i :: 0 <= i < |sends| ==> Is7Bit(sends[i].data))
    ensures forall f :: f in Wire(sends, size, sink, t) ==> |f.data| <= size && (sevenBit ==> Is7Bit(f.data))
    decreases |sends|
  {
    hide Is7Bit, Writes, FragmentsFrom;
    if sends != [] {
      var fs := FragmentsFrom(sends[0].key, sends[0].data, size, 0);
      FragmentsFit(sends[0].key, sends[0].data, size, 0);
      WireFits(sends[1..], size, sink, t + Writes(fs, sink, t), sevenBit);
    }
  }

  /** SysEx7 over a lossy link, on the words: whatever writes the sink refuses
      and whatever the group filter is, the callback log of the receiver is
      exactly the messages that were accepted to their last packet. */
  lemma LossySysEx7(cfg: Config, p: Proc, sends: seq<Send<nibble>>, sink: Sink, t: nat)
    requires cfg.limit7.Some? && AllSendable7(cfg.limit7.value, sends)
    ensures ProcessAll(cfg, p, Words7(Wire(sends, 6, sink, t))).1 == Events7(Survivors(sends, 6, sink, t))
  {
    WireFits(sends, 6, sink, t, true);
    ProcessWords7(cfg, p, Wire(sends, 6, sink, t));
    LossySink(cfg.limit7.value, p.sysex7, sends, 6, sink, t);
  }

  lemma LossySysEx8(cfg: Config, p: Proc, sends: seq<Send<StreamKey>>, sink: Sink, t: nat)
    requires cfg.limit8.Some? && forall i :: 0 <= i < |sends| ==> Fits(cfg.limit8.value, sends[i].data)
    ensures ProcessAll(cfg, p, Words8(Wire(sends, 13, sink, t))).1 == Events8(Survivors(sends, 13, sink, t))
  {
    WireFits(sends, 13, sink, t, false);
    ProcessWords8(cfg, p, Wire(sends, 13, sink, t));
    LossySink(cfg.limit8.value, p.sysex8, sends, 13, sink, t);
  }

  /** A whole SysEx7 message to a receiver in any state: one callback, the same
      group and bytes, ceil(n / 6) packets. */
  lemma RoundTripSysEx7(cfg: Config, p: Proc, group: nibble, data: bytes)
    requires cfg.limit7.Some? && data != [] && Is7Bit(data) && Fits(cfg.limit7.value, data)
    ensures var msgs := Words7(Fragments(group, data, 6));
            ProcessAll(cfg, p, msgs).1 == [OnSysEx7(group, data)] && |msgs| == (|data| + 5) / 6
  {
    var fs := Fragments(group, data, 6);
    FragmentsFit(group, data, 6, 0);
    ProcessWords7(cfg, p, fs);
    RoundTrip(cfg.limit7.value, p.sysex7, group, data, 6);
  }

  lemma RoundTripSysEx8(cfg: Config, p: Proc, group: nibble, stream: byte, data: bytes)
    requires cfg.limit8.Some? && data != [] && Fits(cfg.limit8.value, data)
    ensures var msgs := Words8(Fragments(StreamKey(group, stream), data, 13));
            ProcessAll(cfg, p, msgs).1 == [OnSysEx8(group, stream, data)] && |msgs| == (|data| + 12) / 13
  {
    var fs := Fragments(StreamKey(group, stream), data, 13);
    FragmentsFit(StreamKey(group, stream), data, 13, 0);
    ProcessWords8(cfg, p, fs);
    RoundTrip(cfg.limit8.value, p.sysex8, StreamKey(group, stream), data, 13);
  }
}
