/** UMP stream processing (src/midi2_proc.c:61-234): SysEx reassembly into
    caller-provided buffers, group filtering, and the callbacks it fires. */
module Processor {
  import opened Words
  import opened Ump
  import opened Reassembly

  datatype Event =
    | OnSysEx7(group: nibble, data: bytes)
    | OnSysEx8(group: nibble, stream: byte, data: bytes)
    | OnUmp(words: seq<word>)

  /** groups are the bits set in group_mask. A missing buffer is None. */
  datatype Config = Config(groups: set<nibble>, limit7: Option<Limit>, limit8: Option<Limit>)

  datatype StreamKey = StreamKey(group: nibble, stream: byte)

  datatype Proc = Proc(sysex7: Assembler<nibble>, sysex8: Assembler<StreamKey>)

  function Fragment7(w: seq<word>): Fragment<nibble>
    requires |w| >= 2
  {
    Fragment(Group(w[0]), Form(w[0]), SysEx7Data(w))
  }

  function Fragment8(w: seq<word>): Fragment<StreamKey>
    requires |w| >= 4
  {
    Fragment(StreamKey(Group(w[0]), SysEx8Stream(w[0])), Form(w[0]), SysEx8Data(w))
  }

  function Events7(ds: seq<Delivery<nibble>>): (r: seq<Event>)
    ensures |r| == |ds|
  {
    seq(|ds|, i requires 0 <= i < |ds| => OnSysEx7(ds[i].key, ds[i].data))
  }

  function Events8(ds: seq<Delivery<StreamKey>>): (r: seq<Event>)
    ensures |r| == |ds|
  {
    seq(|ds|, i requires 0 <= i < |ds| => OnSysEx8(ds[i].key.group, ds[i].key.stream, ds[i].data))
  }

  /** midi2_proc_feed on the message at the front of w. */
  function Process(cfg: Config, p: Proc, w: seq<word>): (Proc, seq<Event>)
    requires |w| >= 1
  {
    var mt, group := Mt(w[0]), Group(w[0]);
    if |w| < WordCount(mt) then (p, [])
    else if mt == MT_DATA128 then
      if cfg.limit8 == None then (p, [])
      else
        var (a, ds) := Step(cfg.limit8.value, p.sysex8, Fragment8(w));
        (p.(sysex8 := a), Events8(ds))
    else if mt == MT_SYSEX7 then
      if cfg.limit7 == None then (p, [])
      else
        var (a, ds) := Step(cfg.limit7.value, p.sysex7, Fragment7(w));
        (p.(sysex7 := a), Events7(ds))
    else if mt == MT_UTILITY || mt == MT_STREAM || group in cfg.groups then (p, [OnUmp(w[..WordCount(mt)])])
    else (p, [])
  }

  /** Feeding messages one after the other. */
  function ProcessAll(cfg: Config, p: Proc, msgs: seq<seq<word>>): (Proc, seq<Event>)
    requires forall m :: m in msgs ==> |m| >= 1
    decreases |msgs|
  {
    if msgs == [] then (p, [])
    else
      var (p1, es1) := Process(cfg, p, msgs[0]);
      var (p2, es2) := ProcessAll(cfg, p1, msgs[1..]);
      (p2, es1 + es2)
  }

  // ---- Bounded buffers, on the words ----------------------------------------

  function NoLimit(limit: Option<Limit>): Option<Limit> {
    if limit == None then None else Some(Unbounded)
  }

  /** The same receiver with endless buffers. */
  function Endless(cfg: Config): Config {
    cfg.(limit7 := NoLimit(cfg.limit7), limit8 := NoLimit(cfg.limit8))
  }

  function LimitOf(limit: Option<Limit>): Limit {
    if limit == None then Unbounded else limit.value
  }

  /** What of p's messages in progress fits the buffers of cfg. */
  function Fitted(cfg: Config, p: Proc): Proc {
    Proc(Bound(LimitOf(cfg.limit7), p.sysex7), Bound(LimitOf(cfg.limit8), p.sysex8))
  }

  function CutEvent(cfg: Config, e: Event): Event {
    match e
    case OnSysEx7(g, d) => OnSysEx7(g, Clip(LimitOf(cfg.limit7), d))
    case OnSysEx8(g, s, d) => OnSysEx8(g, s, Clip(LimitOf(cfg.limit8), d))
    case OnUmp(_) => e
  }

  /** A SysEx message of one packet does not go through the buffer. */
  predicate OnePacket(w: seq<word>)
    requires |w| >= 1
  {
    (Mt(w[0]) == MT_SYSEX7 || Mt(w[0]) == MT_DATA128) && Form(w[0]) == COMPLETE
  }

  lemma BoundedProcess(cfg: Config, p: Proc, w: seq<word>)
    requires |w| >= 1
    ensures var (q, es) := Process(cfg, Fitted(cfg, p), w);
            var (u, all) := Process(Endless(cfg), p, w);
            && q == Fitted(cfg, u) && |es| == |all|
            && forall i :: 0 <= i < |es| ==> es[i] == if OnePacket(w) then all[i] else CutEvent(cfg, all[i])
  {
    hide SysEx7Data, SysEx8Data, Group, Form, SysEx8Stream, Step;
    var mt := Mt(w[0]);
    if |w| >= WordCount(mt) {
      if mt == MT_DATA128 && cfg.limit8.Some? {
        BoundedStep(cfg.limit8.value, p.sysex8, Fragment8(w));
      } else if mt == MT_SYSEX7 && cfg.limit7.Some? {
        BoundedStep(cfg.limit7.value, p.sysex7, Fragment7(w));
      }
    }
  }

  lemma {:induction false} BoundedRun(cfg: Config, p: Proc, msgs: seq<seq<word>>)
    requires forall m :: m in msgs ==> |m| >= 1
    ensures ProcessAll(cfg, Fitted(cfg, p), msgs).0 == Fitted(cfg, ProcessAll(Endless(cfg), p, msgs).0)
    decreases |msgs|
  {
    hide Process, Fitted, Endless;
    if msgs != [] {
      BoundedProcess(cfg, p, msgs[0]);
      BoundedRun(cfg, Process(Endless(cfg), p, msgs[0]).0, msgs[1..]);
    }
  }

  /** Any words at all, message by message: the bounded processor holds what fits
      of what an endless one holds, never more than its buffers, and at each
      message fires the same callbacks, with the payload cut to the buffer unless
      it came in one packet. */
  lemma BoundedProcessor(cfg: Config, p: Proc, msgs: seq<seq<word>>, k: nat)
    requires k < |msgs| && forall m :: m in msgs ==> |m| >= 1
    ensures var q := ProcessAll(cfg, Fitted(cfg, p), msgs[..k]).0;
            var u := ProcessAll(Endless(cfg), p, msgs[..k]).0;
            var es, all := Process(cfg, q, msgs[k]).1, Process(Endless(cfg), u, msgs[k]).1;
            && q == Fitted(cfg, u)
            && Fits(LimitOf(cfg.limit7), q.sysex7.data) && Fits(LimitOf(cfg.limit8), q.sysex8.data)
            && |es| == |all|
            && forall i :: 0 <= i < |es| ==> es[i] == if OnePacket(msgs[k]) then all[i] else CutEvent(cfg, all[i])
  {
    hide Process, ProcessAll, OnePacket, CutEvent;
    BoundedRun(cfg, p, msgs[..k]);
    BoundedProcess(cfg, ProcessAll(Endless(cfg), p, msgs[..k]).0, msgs[k]);
  }

  // ---- The state struct and its methods ------------------------------------

  const NO_GROUP: byte := 0xFF
  const ALL_GROUPS: set<nibble> := {0, 1, 2, 3, 4, 5, 6, 7, 8, 9, 10, 11, 12, 13, 14, 15}

  class State {
    var groupMask: set<nibble>
    const sysexBuf: array?<byte>
    var sysexLen: nat
    var sysexGroup: byte
    const sysex8Buf: array?<byte>
    var sysex8Len: nat
    var sysex8Group: byte
    var sysex8Stream: byte
    ghost var events: seq<Event>  // the callbacks fired so far

    ghost const Repr: set<object> :=
      (if sysexBuf == null then {} else {sysexBuf}) + (if sysex8Buf == null then {} else {sysex8Buf}) + {this}

    ghost predicate Valid()
      reads Repr
    {
      && (sysexBuf != null ==> sysexLen <= sysexBuf.Length <= 0xFFFF && sysexBuf != sysex8Buf)
      && (sysex8Buf != null ==> sysex8Len <= sysex8Buf.Length <= 0xFFFF)
      && (sysexGroup < 16 || sysexGroup == NO_GROUP)
      && (sysex8Group < 16 || sysex8Group == NO_GROUP)
    }

    ghost function Cfg(): Config
      reads this`groupMask
    {
      Config(groupMask,
             if sysexBuf == null then None else Some(Capacity(sysexBuf.Length)),
             if sysex8Buf == null then None else Some(Capacity(sysex8Buf.Length)))
    }

    ghost function Model7(): Assembler<nibble>
      requires Valid()
      reads Repr
    {
      Assembler(if sysexGroup == NO_GROUP then None else Some(sysexGroup),
                if sysexBuf == null then [] else sysexBuf[..sysexLen])
    }

    ghost function Model8(): Assembler<StreamKey>
      requires Valid()
      reads Repr
    {
      Assembler(if sysex8Group == NO_GROUP then None else Some(StreamKey(sysex8Group, sysex8Stream)),
                if sysex8Buf == null then [] else sysex8Buf[..sysex8Len])
    }

    ghost function Model(): Proc
      requires Valid()
      reads Repr
    {
      Proc(Model7(), Model8())
    }

    /** midi2_proc_init. */
    constructor (buf7: array?<byte>, buf8: array?<byte>)
      requires buf7 != null ==> buf7.Length <= 0xFFFF && buf7 != buf8
      requires buf8 != null ==> buf8.Length <= 0xFFFF
      ensures Valid() && sysexBuf == buf7 && sysex8Buf == buf8
      ensures groupMask == ALL_GROUPS
      ensures Model() == Proc(Assembler(None, []), Assembler(None, [])) && events == []
    {
      groupMask := ALL_GROUPS;
      sysexBuf, sysexLen, sysexGroup := buf7, 0, NO_GROUP;
      sysex8Buf, sysex8Len, sysex8Group, sysex8Stream := buf8, 0, NO_GROUP, 0;
      events := [];
    }

    /** sysex7_process. */
    method ProcessSysEx7(w: seq<word>)
      requires Valid() && |w| >= 2
      modifies this`sysexLen, this`sysexGroup, this`events, sysexBuf
      ensures Valid() && Model8() == old(Model8())
      ensures sysexBuf == null ==> Model7() == old(Model7()) && events == old(events)
      ensures sysexBuf != null ==>
                var (a, ds) := Step(Capacity(sysexBuf.Length), old(Model7()), Fragment7(w));
                Model7() == a && events == old(events) + Events7(ds)
    {
      hide SysEx7Data, Group, Form;
      if sysexBuf == null { return; }
      var group, form, data := Group(w[0]), Form(w[0]), SysEx7Data(w);
      if form == COMPLETE {
        events := events + [OnSysEx7(group, data)];
        return;
      }
      if form == START {
        sysexGroup := group;
        sysexLen := 0;
      } else if group != sysexGroup {
        sysexGroup := group;
        sysexLen := 0;
        if form == CONTINUE { return; }
      }
      sysexLen := AppendClipped(sysexBuf, sysexLen, data);
      if form == END {
        events := events + [OnSysEx7(group, sysexBuf[..sysexLen])];
        sysexGroup := NO_GROUP;
        sysexLen := 0;
      }
    }

    /** sysex8_process. */
    method ProcessSysEx8(w: seq<word>)
      requires Valid() && |w| >= 4
      modifies this`sysex8Len, this`sysex8Group, this`sysex8Stream, this`events, sysex8Buf
      ensures Valid() && Model7() == old(Model7())
      ensures sysex8Buf == null ==> Model8() == old(Model8()) && events == old(events)
      ensures sysex8Buf != null ==>
                var (a, ds) := Step(Capacity(sysex8Buf.Length), old(Model8()), Fragment8(w));
                Model8() == a && events == old(events) + Events8(ds)
    {
      hide SysEx8Data, SysEx8Stream, Group, Form;
      if sysex8Buf == null { return; }
      var group, stream, form, data := Group(w[0]), SysEx8Stream(w[0]), Form(w[0]), SysEx8Data(w);
      if form == COMPLETE {
        events := events + [OnSysEx8(group, stream, data)];
        return;
      }
      if form == START {
        sysex8Group, sysex8Stream := group, stream;
        sysex8Len := 0;
      } else if group != sysex8Group || stream != sysex8Stream {
        sysex8Group, sysex8Stream := group, stream;
        sysex8Len := 0;
        if form == CONTINUE { return; }
      }
      sysex8Len := AppendClipped(sysex8Buf, sysex8Len, data);
      if form == END {
        events := events + [OnSysEx8(group, sysex8Stream, sysex8Buf[..sysex8Len])];
        sysex8Group := NO_GROUP;
        sysex8Len := 0;
      }
    }

    /** midi2_proc_feed. */
    method Feed(w: seq<word>)
      requires Valid() && |w| >= 1
      modifies Repr
      ensures Valid() && Cfg() == old(Cfg())
      ensures var (p, es) := Process(Cfg(), old(Model()), w);
              Model() == p && events == old(events) + es
    {
      var mt, group := Mt(w[0]), Group(w[0]);
      if |w| < WordCount(mt) { return; }
      if mt == MT_DATA128 {
        ProcessSysEx8(w);
      }
      if mt == MT_SYSEX7 {
        ProcessSysEx7(w);
      }
      if mt != MT_UTILITY && mt != MT_STREAM {
        if group !in groupMask { return; }
      }
      if mt != MT_SYSEX7 && mt != MT_DATA128 {
        events := events + [OnUmp(w[..WordCount(mt)])];
      }
    }
  }

  /** Copy data behind the first len bytes of buf as far as it has room. */
  method AppendClipped(buf: array<byte>, len: nat, data: bytes) returns (n: nat)
    requires len <= buf.Length
    modifies buf
    ensures n <= buf.Length && buf[..n] == Clip(Capacity(buf.Length), old(buf[..len]) + data)
  {
    var i := 0;
    n := len;
    while i < |data| && n < buf.Length
      invariant 0 <= i <= |data| && n == len + i <= buf.Length
      invariant buf[..n] == old(buf[..len]) + data[..i]
    {
      buf[n] := data[i];
      n := n + 1;
      i := i + 1;
    }
    assert (old(buf[..len]) + data)[..n] == buf[..n];
  }
}
