/** The MIDI 1.0 byte stream to UMP converter (src/midi2_conv.c), as a state
    machine over values; ConverterState implements it. */
module Converter {
  import opened Words
  import opened Ump
  import opened ByteStream

  /** buf is the first sysex_len bytes of sysex_buf. */
  datatype Conv = Conv(
    group: nibble,
    running: byte, need: nat, pos: nat, d0: byte, d1: byte,
    buf: bytes, inSysex: bool, started: bool)

  function Init(group: byte): Conv {
    Conv(group % 16, 0, 0, 0, 0, 0, [], false, false)
  }

  /** What every reachable state satisfies. */
  predicate Reachable(c: Conv) {
    && |c.buf| <= 5 && Is7Bit(c.buf)
    && (c.inSysex ==> c.running == 0)
    && (!c.inSysex ==> c.buf == [] && !c.started)
    && (c.running != 0 ==> DataCount(c.running) == c.need && c.pos < c.need <= 2 && c.running != 0xF0)
    && (c.running != 0 && c.running < 0xF0 && c.pos == 0 ==> c.d1 == 0)
  }

  function EmitForm(started: bool, isEnd: bool): nibble {
    if !started && isEnd then COMPLETE
    else if !started then START
    else if isEnd then END
    else CONTINUE
  }

  function Emit(c: Conv, isEnd: bool): (Conv, Message) {
    (c.(buf := [], started := !isEnd, inSysex := c.inSysex && !isEnd),
     SysEx7(c.group, EmitForm(c.started, isEnd), c.buf))
  }

  function TakeStatus(c: Conv, b: byte): (Conv, seq<Message>) {
    var t := c.(running := b, need := DataCount(b), pos := 0);
    if 0xF1 <= b <= 0xF6 then
      if t.need == 0 then (t.(running := 0), [System(c.group, b, 0, 0)]) else (t, [])
    else (t.(d0 := 0, d1 := 0), [])
  }

  function TakeRealTime(c: Conv, b: byte): (Conv, seq<Message>) {
    var rt := System(c.group, b, 0, 0);
    if c.inSysex && c.buf != [] then
      var (d, packet) := Emit(c, false);
      (d, [packet, rt])
    else (c, [rt])
  }

  /** Close the open SysEx if any of it is buffered or sent. */
  function Close(c: Conv): (Conv, seq<Message>) {
    if c.inSysex && (c.buf != [] || c.started) then
      var (d, packet) := Emit(c, true);
      (d, [packet])
    else (c.(inSysex := false), [])
  }

  function TakeData(c: Conv, b: byte): (Conv, seq<Message>) {
    if c.running == 0 then (c, [])
    else
      var t := (if c.pos == 0 then c.(d0 := b) else c.(d1 := b)).(pos := c.pos + 1);
      if t.pos < t.need then (t, [])
      else
        (t.(pos := 0, d0 := 0, d1 := 0, running := if t.running >= 0xF1 then 0 else t.running),
         if t.running < 0xF0 then [Voice(t.group, t.running, t.d0, t.d1)]
         else [System(t.group, t.running, t.d0, if t.need == 1 then 0 else t.d1)])
  }

  /** midi2_conv_feed on one byte: the new state, and the messages the canonical
      feed/next loop hands out for that byte. */
  function Feed(c: Conv, b: byte): (Conv, seq<Message>) {
    if b >= 0xF8 then TakeRealTime(c, b)
    else if b == 0xF0 then
      var (d, closing) := Close(c);
      (d.(inSysex := true, started := false, buf := [], running := 0), closing)
    else if b == 0xF7 then
      if c.inSysex then
        var (d, packet) := Emit(c, true);
        (d, [packet])
      else (c, [])
    else if b >= 0x80 then
      var (d, closing) := Close(c);
      var (e, own) := TakeStatus(d, b);
      (e, closing + own)
    else if c.inSysex then
      var d := c.(buf := c.buf + [b]);
      if |d.buf| == 6 then
        var (e, packet) := Emit(d, false);
        (e, [packet])
      else (d, [])
    else TakeData(c, b)
  }

  /** The whole stream s, byte by byte. */
  function Run(c: Conv, s: bytes): (Conv, seq<Message>) {
    if s == [] then (c, [])
    else
      var (d, ms) := Run(c, s[..|s| - 1]);
      var (e, more) := Feed(d, s[|s| - 1]);
      (e, ms + more)
  }

  lemma RunSnoc(c: Conv, s: bytes, b: byte)
    ensures var (d, ms) := Run(c, s);
            var (e, more) := Feed(d, b);
            Run(c, s + [b]) == (e, ms + more)
  {
    assert (s + [b])[..|s|] == s;
  }

  predicate OnGroup(g: nibble, ms: seq<Message>) {
    forall m :: m in ms ==> m.Valid() && m.group == g && (m.SysEx7? || m.System? || m.Voice?)
  }

  lemma CloseReachable(c: Conv)
    requires Reachable(c)
    ensures var d := Close(c).0; Reachable(d) && !d.inSysex && d.group == c.group
  {
  }

  lemma DataReachable(c: Conv, b: byte)
    requires Reachable(c) && IsData(b)
    ensures !c.inSysex ==> Reachable(TakeData(c, b).0) && TakeData(c, b).0.group == c.group
    ensures c.inSysex ==> Reachable(Feed(c, b).0) && Feed(c, b).0.group == c.group
  {
    hide DataCount, TakeStatus, Close;
  }

  lemma FeedReachable(c: Conv, b: byte)
    requires Reachable(c)
    ensures Reachable(Feed(c, b).0) && Feed(c, b).0.group == c.group
  {
    if IsData(b) {
      hide DataCount, TakeStatus, Close, Reachable, TakeData;
      DataReachable(c, b);
    } else {
      hide Close;
      CloseReachable(c);
    }
  }

  lemma FeedMessages(c: Conv, b: byte)
    requires Reachable(c)
    ensures |Feed(c, b).1| <= 2 && OnGroup(c.group, Feed(c, b).1)
  {
  }

  /** In every run the state invariant holds, and every message is well formed
      and on the converter's group. */
  lemma {:induction false} RunReachable(group: byte, s: bytes)
    ensures var (c, ms) := Run(Init(group), s);
            Reachable(c) && c.group == group % 16 && OnGroup(group % 16, ms)
  {
    if s != [] {
      hide Feed, Reachable;
      RunReachable(group, s[..|s| - 1]);
      var c := Run(Init(group), s[..|s| - 1]).0;
      FeedReachable(c, s[|s| - 1]);
      FeedMessages(c, s[|s| - 1]);
    }
  }

  // ---- Order on the wire ---------------------------------------------------

  /** The payload and Real-Time bytes of messages, packet boundaries erased. */
  function Flat(ms: seq<Message>): bytes {
    if ms == [] then []
    else
      (match ms[0]
       case SysEx7(_, _, data) => data
       case System(_, status, _, _) => if IsRealTime(status) then [status] else []
       case _ => [])
      + Flat(ms[1..])
  }

  lemma {:induction false} FlatAppend(xs: seq<Message>, ys: seq<Message>)
    ensures Flat(xs + ys) == Flat(xs) + Flat(ys)
  {
    if xs == [] {
      assert xs + ys == ys;
    } else {
      assert (xs + ys)[1..] == xs[1..] + ys;
      FlatAppend(xs[1..], ys);
    }
  }

  lemma FlatFew(m: Message, n: Message)
    ensures Flat([m, n]) == Flat([m]) + Flat([n])
    ensures Flat([m]) == match m
                         case SysEx7(_, _, data) => data
                         case System(_, status, _, _) => if IsRealTime(status) then [status] else []
                         case _ => []
  {
    FlatAppend([m], [n]);
    assert [m] + [n] == [m, n];
    assert Flat([m][1..]) == [];
  }

  lemma BufferBound(c: Conv)
    requires Reachable(c)
    ensures |c.buf| <= 5
  {
  }

  lemma EmitKeeps(c: Conv, isEnd: bool)
    ensures Flat([Emit(c, isEnd).1]) == c.buf && Emit(c, isEnd).0.buf == []
  {
    FlatFew(Emit(c, isEnd).1, Emit(c, isEnd).1);
  }

  lemma CloseKeeps(c: Conv)
    requires Reachable(c)
    ensures Flat(Close(c).1) == c.buf && Close(c).0.buf == []
  {
    hide Flat, Emit;
    EmitKeeps(c, true);
    FlatNone();
  }

  lemma RealTimeKeeps(c: Conv, b: byte)
    requires Reachable(c) && IsRealTime(b)
    ensures Flat(TakeRealTime(c, b).1) + TakeRealTime(c, b).0.buf == c.buf + [b]
  {
    hide Flat, Emit;
    EmitKeeps(c, false);
    FlatFew(Emit(c, false).1, System(c.group, b, 0, 0));
    FlatFew(System(c.group, b, 0, 0), System(c.group, b, 0, 0));
  }

  lemma OthersKeep(c: Conv, b: byte)
    ensures IsStatus(b) ==> Flat(TakeStatus(c, b).1) == [] && TakeStatus(c, b).0.buf == c.buf
    ensures Reachable(c) ==> Flat(TakeData(c, b).1) == [] && TakeData(c, b).0.buf == c.buf
  {
    hide Flat;
    FlatNone();
    var own, more := TakeStatus(c, b).1, TakeData(c, b).1;
    if own != [] { FlatFew(own[0], own[0]); }
    if more != [] { FlatFew(more[0], more[0]); }
  }

  /** A byte is sent on or kept behind the bytes kept before it, never lost. */
  lemma FeedKeepsOrder(c: Conv, b: byte)
    requires Reachable(c)
    ensures var (d, ms) := Feed(c, b);
            Flat(ms) + d.buf == c.buf + if IsRealTime(b) || (IsData(b) && c.inSysex) then [b] else []
  {
    hide Flat, Emit, Close, TakeStatus, TakeData, TakeRealTime;
    FlatNone();
    if IsRealTime(b) {
      RealTimeKeeps(c, b);
    } else if b == 0xF7 {
      EmitKeeps(c, true);
    } else if b >= 0x80 {
      CloseKeeps(c);
      OthersKeep(Close(c).0, b);
      FlatAppend(Close(c).1, TakeStatus(Close(c).0, b).1);
    } else if c.inSysex {
      EmitKeeps(c.(buf := c.buf + [b]), false);
    } else {
      OthersKeep(c, b);
    }
  }

  lemma FlatNone()
    ensures Flat([]) == []
  {
  }

  // ---- The output grammar (section 7.7.1 of M2-104-UM) ----------------------

  /** Is a SysEx open after message m, if open says whether one was before? */
  function OpenNext(open: bool, m: Message): bool {
    if m.SysEx7? && m.form == START then true
    else if m.SysEx7? && m.form == END then false
    else open
  }

  function OpenAfter(open: bool, ms: seq<Message>): bool
    decreases |ms|
  {
    if ms == [] then open else OpenAfter(OpenNext(open, ms[0]), ms[1..])
  }

  /** START and COMPLETE only outside a SysEx, CONTINUE and END only inside, and
      inside nothing else but Real-Time messages. */
  predicate Allowed(open: bool, m: Message) {
    if m.SysEx7? then open == (m.form == CONTINUE || m.form == END)
    else open ==> m.System? && IsRealTime(m.status)
  }

  ghost predicate Grammatical(open: bool, ms: seq<Message>) {
    forall i :: 0 <= i < |ms| ==> Allowed(OpenAfter(open, ms[..i]), ms[i])
  }

  lemma {:induction false} OpenAppend(open: bool, xs: seq<Message>, ys: seq<Message>)
    ensures OpenAfter(open, xs + ys) == OpenAfter(OpenAfter(open, xs), ys)
    decreases |xs|
  {
    if xs == [] {
      assert xs + ys == ys;
    } else {
      assert (xs + ys)[1..] == xs[1..] + ys;
      OpenAppend(OpenNext(open, xs[0]), xs[1..], ys);
    }
  }

  lemma GrammaticalAppend(open: bool, xs: seq<Message>, ys: seq<Message>)
    requires Grammatical(open, xs) && Grammatical(OpenAfter(open, xs), ys)
    ensures Grammatical(open, xs + ys)
  {
    var all := xs + ys;
    forall i | 0 <= i < |all|
      ensures Allowed(OpenAfter(open, all[..i]), all[i])
    {
      if i < |xs| {
        assert all[..i] == xs[..i];
      } else {
        assert all[..i] == xs + ys[..i - |xs|];
        OpenAppend(open, xs, ys[..i - |xs|]);
      }
    }
  }

  lemma FeedGrammatical(c: Conv, b: byte)
    requires Reachable(c)
    ensures var (d, ms) := Feed(c, b);
            OpenAfter(c.started, ms) == d.started && Grammatical(c.started, ms)
  {
    hide OpenAfter, Grammatical;
    var ms := Feed(c, b).1;
    GrammaticalFew(c.started, ms);
  }

  lemma GrammaticalFew(open: bool, ms: seq<Message>)
    ensures ms == [] ==> OpenAfter(open, ms) == open && Grammatical(open, ms)
    ensures |ms| == 1 ==> OpenAfter(open, ms) == OpenNext(open, ms[0]) && (Allowed(open, ms[0]) ==> Grammatical(open, ms))
    ensures |ms| == 2 ==> OpenAfter(open, ms) == OpenNext(OpenNext(open, ms[0]), ms[1])
                          && (Allowed(open, ms[0]) && Allowed(OpenNext(open, ms[0]), ms[1]) ==> Grammatical(open, ms))
  {
    forall i | 0 <= i < |ms| && i < 2
      ensures OpenAfter(open, ms[..i]) == if i == 0 then open else OpenNext(open, ms[0])
    {
      assert i == 0 ==> ms[..i] == [];
      assert i == 1 ==> ms[..i] == [ms[0]];
    }
    if |ms| == 2 {
      assert ms == [ms[0]] + [ms[1]];
      OpenAppend(open, [ms[0]], [ms[1]]);
    }
  }

  /** Every stream converts to a grammatical sequence of messages. */
  lemma {:induction false} RunGrammatical(group: byte, s: bytes)
    ensures var (c, ms) := Run(Init(group), s);
            Grammatical(false, ms) && OpenAfter(false, ms) == c.started
  {
    if s != [] {
      hide Feed, Grammatical, OpenAfter, Reachable;
      var i := s[..|s| - 1];
      var (c, ms) := Run(Init(group), i);
      RunGrammatical(group, i);
      RunReachable(group, i);
      FeedGrammatical(c, s[|s| - 1]);
      GrammaticalAppend(false, ms, Feed(c, s[|s| - 1]).1);
      OpenAppend(false, ms, Feed(c, s[|s| - 1]).1);
    }
  }

  // ---- Packets are full ------------------------------------------------------

  /** A packet that does not end its SysEx has six bytes, unless a Real-Time message
      follows that must keep its place. */
  ghost predicate Full(ms: seq<Message>) {
    forall i :: 0 <= i < |ms| && ms[i].SysEx7? && (ms[i].form == 1 || ms[i].form == 2) && |ms[i].data| != 6 ==>
      0 < |ms[i].data| < 6 && i + 1 < |ms| && ms[i + 1].System? && ms[i + 1].status >= 0xF8
  }

  lemma FeedFull(c: Conv, b: byte)
    requires Reachable(c)
    ensures Full(Feed(c, b).1)
  {
  }

  lemma FullAppend(xs: seq<Message>, ys: seq<Message>)
    requires Full(xs) && Full(ys)
    ensures Full(xs + ys)
  {
    var all := xs + ys;
    forall i | 0 <= i < |all| && all[i].SysEx7? && (all[i].form == 1 || all[i].form == 2) && |all[i].data| != 6
      ensures 0 < |all[i].data| < 6 && i + 1 < |all| && all[i + 1].System? && all[i + 1].status >= 0xF8
    {
      if i < |xs| {
        assert all[i] == xs[i] && all[i + 1] == xs[i + 1];
      } else {
        var k := i - |xs|;
        assert all[i] == ys[k] && all[i + 1] == ys[k + 1];
      }
    }
  }

  /** In every run. */
  lemma {:induction false} RunFull(group: byte, s: bytes)
    ensures Full(Run(Init(group), s).1)
  {
    if s != [] {
      hide Feed, Full, Reachable;
      RunFull(group, s[..|s| - 1]);
      var (c, ms) := Run(Init(group), s[..|s| - 1]);
      RunReachable(group, s[..|s| - 1]);
      FeedFull(c, s[|s| - 1]);
      FullAppend(ms, Feed(c, s[|s| - 1]).1);
    } else {
      assert Full([]);
    }
  }
}
