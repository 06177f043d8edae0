/** The converter and the reassembler together mean what ByteStream.Parse says
    the bytes mean. */
module Conversion {
  import opened Words
  import opened Ump
  import opened Reassembly
  import opened Processor
  import opened ByteStream
  import opened Converter
  import opened Senders

  // ---- The receiver, on messages -------------------------------------------

  function Receive(limit: Limit, a: Assembler<nibble>, m: Message): (Assembler<nibble>, seq<Event>) {
    match m
    case SysEx7(g, f, d) =>
      var (a', ds) := Step(limit, a, Fragment(g, f, d));
      (a', Events7(ds))
    case _ => (a, [OnUmp(m.Words())])
  }

  function ReceiveAll(limit: Limit, a: Assembler<nibble>, ms: seq<Message>): (Assembler<nibble>, seq<Event>)
    decreases |ms|
  {
    if ms == [] then (a, [])
    else
      var (b, es) := Receive(limit, a, ms[0]);
      var (c, more) := ReceiveAll(limit, b, ms[1..]);
      (c, es + more)
  }

  lemma {:induction false} ReceiveAppend(limit: Limit, a: Assembler<nibble>, xs: seq<Message>, ys: seq<Message>)
    ensures var (b, es) := ReceiveAll(limit, a, xs);
            var (c, more) := ReceiveAll(limit, b, ys);
            ReceiveAll(limit, a, xs + ys) == (c, es + more)
    decreases |xs|
  {
    hide Receive;
    var (b, es) := ReceiveAll(limit, a, xs);
    var (c, more) := ReceiveAll(limit, b, ys);
    if xs == [] {
      assert xs + ys == ys && (b, es) == (a, []) && es + more == more;
    } else {
      var (b1, es1) := Receive(limit, a, xs[0]);
      var es2 := ReceiveAll(limit, b1, xs[1..]).1;
      assert (xs + ys)[1..] == xs[1..] + ys && es1 + (es2 + more) == es + more;
      ReceiveAppend(limit, b1, xs[1..], ys);
    }
  }

  lemma ReceiveOne(limit: Limit, a: Assembler<nibble>, m: Message)
    ensures ReceiveAll(limit, a, [m]) == Receive(limit, a, m)
    ensures ReceiveAll(limit, a, []) == (a, [])
  {
    hide Receive;
    var (b, es) := Receive(limit, a, m);
    assert ReceiveAll(limit, b, []) == (b, []) && es + [] == es;
  }

  // ---- What the state knows about the stream so far ------------------------

  /** The status that the next data byte belongs to, 0 if none. */
  function LiveStatus(s: bytes): byte {
    var n := DataCount(Status(s));
    if n > 0 && (Status(s) < 0xF0 || |Since(s)| < n) then Status(s) else 0
  }

  predicate Knows(limit: Limit, s: bytes, c: Conv, a: Assembler<nibble>) {
    && Reachable(c)
    && c.running == LiveStatus(s)
    && (c.running != 0 ==> c.pos == |Since(s)| % c.need && (c.pos == 1 ==> c.d0 == Since(s)[|Since(s)| - 1]))
    && KnowsSysEx(limit, s, c, a)
  }

  predicate KnowsSysEx(limit: Limit, s: bytes, c: Conv, a: Assembler<nibble>) {
    && c.inSysex == InSysEx(s)
    && (c.inSysex && !c.started ==> c.buf == Since(s))
    && (c.inSysex && c.started ==>
          var k := |Since(s)| - |c.buf|;
          k > 0 && Since(s)[k..] == c.buf && a == Assembler(Some(c.group), Clip(limit, Since(s)[..k])))
  }

  lemma EmitEnd(limit: Limit, s: bytes, c: Conv, a: Assembler<nibble>)
    requires Knows(limit, s, c, a) && c.inSysex && Fits(limit, Since(s))
    ensures Receive(limit, a, Emit(c, true).1).1 == [OnSysEx7(c.group, Since(s))]
  {
    var d := Since(s);
    if c.started {
      var k := |d| - |c.buf|;
      ClipTwice(limit, d[..k], c.buf);
      assert d[..k] + c.buf == d;
    }
  }

  lemma EmitMore(limit: Limit, s: bytes, c: Conv, a: Assembler<nibble>)
    requires KnowsSysEx(limit, s, c, a) && c.inSysex && c.buf != []
    ensures var (d, packet) := Emit(c, false);
            var (b, es) := Receive(limit, a, packet);
            es == [] && KnowsSysEx(limit, s, d, b)
  {
    hide Since, InSysEx, Clip;
    var d := Since(s);
    var k := if c.started then |d| - |c.buf| else 0;
    ClipTwice(limit, d[..k], c.buf);
    assert d[..k] + c.buf == d;
    assert d == d[..|d|];
    assert d[|d|..] == [];
    if c.started {
      assert a.data == Clip(limit, d[..k]);
    } else {
      assert [] + c.buf == c.buf == d;
    }
    assert Receive(limit, a, Emit(c, false).1) == (Assembler(Some(c.group), Clip(limit, d)), []);
  }

  // ---- One byte ------------------------------------------------------------

  predicate FitEvents(limit: Limit, es: seq<Event>) {
    forall i :: 0 <= i < |es| && es[i].OnSysEx7? ==> Fits(limit, es[i].data)
  }

  ghost predicate Correct(limit: Limit, s: bytes, c: Conv, a: Assembler<nibble>, b: byte) {
    var (d, ms) := Feed(c, b);
    var (a', es) := ReceiveAll(limit, a, ms);
    es == Produced(c.group, s, b) && Knows(limit, s + [b], d, a')
  }

  lemma RealTimeByte(limit: Limit, s: bytes, c: Conv, a: Assembler<nibble>, b: byte)
    requires Knows(limit, s, c, a) && IsRealTime(b)
    ensures Correct(limit, s, c, a, b)
  {
    hide Status, Since, Ended, Receive, Image;
    Snoc(s, b);
    var rt := System(c.group, b, 0, 0);
    assert Receive(limit, a, rt) == (a, [SystemEvent(c.group, b, 0, 0)]) by { ReceiveSystem(limit, a, c.group, b); }
    ReceiveOne(limit, a, rt);
    if c.inSysex && c.buf != [] {
      var (d, packet) := Emit(c, false);
      EmitMore(limit, s, c, a);
      var a' := Receive(limit, a, packet).0;
      ReceiveOne(limit, a, packet);
      ReceiveOne(limit, a', rt);
      ReceiveSystem(limit, a', c.group, b);
      ReceiveAppend(limit, a, [packet], [rt]);
      assert [packet] + [rt] == [packet, rt];
    }
  }

  lemma ReceiveSystem(limit: Limit, a: Assembler<nibble>, g: nibble, b: byte)
    ensures Receive(limit, a, System(g, b, 0, 0)) == (a, [SystemEvent(g, b, 0, 0)])
  {
  }

  lemma CloseDelivers(limit: Limit, s: bytes, c: Conv, a: Assembler<nibble>)
    requires Knows(limit, s, c, a)
    requires InSysEx(s) && Since(s) != [] ==> Fits(limit, Since(s))
    ensures ReceiveAll(limit, a, Close(c).1).1
            == if InSysEx(s) && Since(s) != [] then [OnSysEx7(c.group, Since(s))] else []
  {
    hide Status, Since, Ended, Receive;
    if c.inSysex && Since(s) != [] {
      EmitEnd(limit, s, c, a);
      ReceiveOne(limit, a, Emit(c, true).1);
    }
  }

  lemma StatusKnown(limit: Limit, s: bytes, c: Conv, a: Assembler<nibble>, b: byte, a': Assembler<nibble>)
    requires Knows(limit, s, c, a) && IsStatus(b)
    ensures Knows(limit, s + [b], Feed(c, b).0, a')
  {
    hide Status, Since, Ended;
    Snoc(s, b);
  }

  lemma StatusByte(limit: Limit, s: bytes, c: Conv, a: Assembler<nibble>, b: byte)
    requires Knows(limit, s, c, a) && IsStatus(b)
    requires FitEvents(limit, Produced(c.group, s, b))
    ensures Correct(limit, s, c, a, b)
  {
    hide Status, Since, Ended, Receive, ReceiveAll, Message.Words;
    var (d, ms) := Feed(c, b);
    var closing := Close(c).1;
    assert InSysEx(s) && Since(s) != [] ==> Fits(limit, Since(s)) by {
      assert InSysEx(s) && Since(s) != [] ==> Produced(c.group, s, b)[0] == OnSysEx7(c.group, Since(s));
    }
    CloseDelivers(limit, s, c, a);
    var own := if b == 0xF4 || b == 0xF5 || b == 0xF6 then [System(c.group, b, 0, 0)] else [];
    var a' := ReceiveAll(limit, a, closing).0;
    ReceiveOne(limit, a', System(c.group, b, 0, 0));
    ReceiveSystem(limit, a', c.group, b);
    ReceiveAppend(limit, a, closing, own);
    assert ms == closing + own;
    StatusKnown(limit, s, c, a, b, ReceiveAll(limit, a, ms).0);
  }

  lemma EndByte(limit: Limit, s: bytes, c: Conv, a: Assembler<nibble>)
    requires Knows(limit, s, c, a) && FitEvents(limit, Produced(c.group, s, 0xF7))
    ensures Correct(limit, s, c, a, 0xF7)
  {
    hide Status, Since, Ended, Receive, Image;
    Snoc(s, 0xF7);
    if c.inSysex {
      assert Produced(c.group, s, 0xF7)[0] == OnSysEx7(c.group, Since(s));
      EmitEnd(limit, s, c, a);
    }
    ReceiveOne(limit, a, Emit(c, true).1);
  }

  lemma SysExDataByte(limit: Limit, s: bytes, c: Conv, a: Assembler<nibble>, b: byte)
    requires Knows(limit, s, c, a) && IsData(b) && c.inSysex
    ensures Correct(limit, s, c, a, b)
  {
    hide Status, Since, Ended, Receive, Image;
    Snoc(s, b);
    var d := c.(buf := c.buf + [b]);
    var k := if c.started then |Since(s)| - |c.buf| else 0;
    assert (Since(s) + [b])[k..] == Since(s)[k..] + [b] && (Since(s) + [b])[..k] == Since(s)[..k];
    EmitMore(limit, s + [b], d, a);
    ReceiveOne(limit, a, Emit(d, false).1);
  }

  /** The position counter against the number of data bytes since the status. */
  lemma Position(n: nat, need: nat)
    requires 1 <= need <= 2
    ensures (n % need + 1 >= need) <==> (n + 1) % need == 0
    ensures n % need + 1 < need ==> (n + 1) % need == n % need + 1
  {
  }

  lemma ChannelDataByte(limit: Limit, s: bytes, c: Conv, a: Assembler<nibble>, b: byte)
    requires Knows(limit, s, c, a) && IsData(b) && !c.inSysex
    ensures Correct(limit, s, c, a, b)
  {
    hide Status, Since, Ended, Message.Words, ReceiveAll, DataCount;
    Snoc(s, b);
    ReceiveOne(limit, a, System(c.group, 0, 0, 0));
    if c.running != 0 {
      Position(|Since(s)|, c.need);
      if c.pos + 1 >= c.need {
        ReceiveOne(limit, a, TakeData(c, b).1[0]);
      }
    }
    DataCounts(Status(s));
  }

  lemma DataCounts(status: byte)
    ensures DataCount(status) <= 2 && (DataCount(status) > 0 ==> 0x80 <= status && status != 0xF0)
    ensures 0x80 <= status < 0xF0 ==> DataCount(status) > 0
  {
  }

  lemma OneByte(limit: Limit, s: bytes, c: Conv, a: Assembler<nibble>, b: byte)
    requires Knows(limit, s, c, a) && FitEvents(limit, Produced(c.group, s, b))
    ensures Correct(limit, s, c, a, b)
  {
    hide Knows, Correct, Produced;
    if IsRealTime(b) { RealTimeByte(limit, s, c, a, b); }
    else if IsStatus(b) { StatusByte(limit, s, c, a, b); }
    else if b == 0xF7 { EndByte(limit, s, c, a); }
    else if c.inSysex { SysExDataByte(limit, s, c, a, b); }
    else { ChannelDataByte(limit, s, c, a, b); }
  }

  // ---- The whole stream ----------------------------------------------------

  lemma EmptyStream(limit: Limit, a: Assembler<nibble>, group: byte)
    ensures Run(Init(group), []) == (Init(group), []) && ReceiveAll(limit, a, []) == (a, [])
    ensures Parse(group % 16, []) == [] && Knows(limit, [], Init(group), a)
  {
  }

  /** Any byte string, converted and reassembled by a receiver in any state with
      room for the payloads, makes exactly the events of its parse, in order. */
  lemma {:induction false} StreamMeaning(limit: Limit, a: Assembler<nibble>, group: byte, s: bytes)
    requires FitEvents(limit, Parse(group % 16, s))
    ensures var (c, ms) := Run(Init(group), s);
            var (a', es) := ReceiveAll(limit, a, ms);
            es == Parse(group % 16, s) && Knows(limit, s, c, a') && c.group == group % 16
  {
    hide Parse, Run, Feed, Produced, Knows, FitEvents, ReceiveAll;
    EmptyStream(limit, a, group);
    if s != [] {
      var (i, b) := (s[..|s| - 1], s[|s| - 1]);
      assert s == i + [b];
      SnocParse(group % 16, i, b);
      FitSplit(limit, Parse(group % 16, i), Produced(group % 16, i, b));
      StreamMeaning(limit, a, group, i);
      var (c, ms) := Run(Init(group), i);
      var a' := ReceiveAll(limit, a, ms).0;
      RunSnoc(Init(group), i, b);
      OneByte(limit, i, c, a', b);
      ReceiveAppend(limit, a, ms, Feed(c, b).1);
      GroupKept(c, b);
    }
  }

  lemma GroupKept(c: Conv, b: byte)
    ensures Feed(c, b).0.group == c.group
  {
  }

  lemma FitSplit(limit: Limit, xs: seq<Event>, ys: seq<Event>)
    requires FitEvents(limit, xs + ys)
    ensures FitEvents(limit, xs) && FitEvents(limit, ys)
  {
    forall i | 0 <= i < |xs|
      ensures xs[i] == (xs + ys)[i]
    {
    }
    forall i | 0 <= i < |ys|
      ensures ys[i] == (xs + ys)[|xs| + i]
    {
    }
  }

  /** At every moment the bytes sent so far, followed by the at most five bytes
      still buffered, are the payload and Real-Time bytes received so far. */
  lemma {:induction false} WirePosition(group: byte, s: bytes)
    ensures var (c, ms) := Run(Init(group), s);
            Flat(ms) + c.buf == Carried(s) && |c.buf| <= 5
  {
    if s != [] {
      hide Run, Feed, Flat, Carried, InSysEx, Parse, WithoutRealTime, Reachable, OnGroup;
      var (i, b) := (s[..|s| - 1], s[|s| - 1]);
      assert s == i + [b];
      var (c, ms) := Run(Init(group), i);
      var (d, more) := Feed(c, b);
      WirePosition(group, i);
      RunSnoc(Init(group), i, b);
      RunReachable(group, i);
      FeedReachable(c, b);
      BufferBound(d);
      InSysExKnown(group, i);
      FeedKeepsOrder(c, b);
      FlatAppend(ms, more);
      SnocCarried(i, b);
      var x: bytes := if IsRealTime(b) || (IsData(b) && c.inSysex) then [b] else [];
      Regroup(Flat(ms), Flat(more), d.buf, c.buf, x);
    }
  }

  lemma Regroup(sent: bytes, more: bytes, kept': bytes, kept: bytes, x: bytes)
    requires more + kept' == kept + x
    ensures sent + more + kept' == sent + kept + x
  {
    assert sent + more + kept' == sent + (more + kept');
  }

  lemma InSysExKnown(group: byte, s: bytes)
    ensures Run(Init(group), s).0.inSysex == InSysEx(s)
  {
    StreamMeaning(Unbounded, Assembler(None, []), group, s);
  }

  // ---- On the words --------------------------------------------------------

  function WordsOf(ms: seq<Message>): (r: seq<seq<word>>)
    ensures |r| == |ms| && forall w :: w in r ==> |w| >= 1
  {
    seq(|ms|, i requires 0 <= i < |ms| => ms[i].Words())
  }

  lemma ProcessMessage(cfg: Config, p: Proc, m: Message)
    requires cfg.limit7.Some? && m.group in cfg.groups && m.Valid() && (m.SysEx7? || m.System? || m.Voice?)
    ensures var (a, es) := Receive(cfg.limit7.value, p.sysex7, m);
            Process(cfg, p, m.Words()) == (p.(sysex7 := a), es)
  {
    match m
    case SysEx7(g, f, d) =>
      hide Image, Step;
      ProcessFragment7(cfg, p, Fragment(g, f, d));
    case System(g, st, d1, d2) =>
      hide Image;
      SystemWordFields(g, st, d1, d2);
      assert m.Words()[..1] == m.Words();
    case Voice(g, st, d1, d2) =>
      hide Image;
      VoiceWordFields(g, st, d1, d2);
      assert m.Words()[..1] == m.Words();
    case SysEx8(_, _, _, _) =>
  }

  lemma {:induction false} ProcessMessages(cfg: Config, p: Proc, g: nibble, ms: seq<Message>)
    requires cfg.limit7.Some? && g in cfg.groups && OnGroup(g, ms)
    ensures var (a, es) := ReceiveAll(cfg.limit7.value, p.sysex7, ms);
            ProcessAll(cfg, p, WordsOf(ms)) == (p.(sysex7 := a), es)
    decreases |ms|
  {
    if ms != [] {
      hide Process, Receive, Message.Words;
      ProcessMessage(cfg, p, ms[0]);
      assert WordsOf(ms)[1..] == WordsOf(ms[1..]);
      ProcessMessages(cfg, Process(cfg, p, WordsOf(ms)[0]).0, g, ms[1..]);
    }
  }

  /** The words of any converted byte stream, fed to a processor in any state
      with that group on and room for the payloads: the callbacks are those of
      the parse, in order. */
  lemma ConvertThenProcess(cfg: Config, p: Proc, group: byte, s: bytes)
    requires cfg.limit7.Some? && group % 16 in cfg.groups
    requires FitEvents(cfg.limit7.value, Parse(group % 16, s))
    ensures ProcessAll(cfg, p, WordsOf(Run(Init(group), s).1)).1 == Parse(group % 16, s)
  {
    var (c, ms) := Run(Init(group), s);
    RunReachable(group, s);
    ProcessMessages(cfg, p, group % 16, ms);
    StreamMeaning(cfg.limit7.value, p.sysex7, group, s);
  }

  /** Deleting the Real-Time bytes from a stream, though it moves the packet
      boundaries, leaves every reassembled payload and every other message. */
  lemma RealTimeTransparency(cfg: Config, p: Proc, q: Proc, group: byte, s: bytes)
    requires cfg.limit7.Some? && group % 16 in cfg.groups
    requires FitEvents(cfg.limit7.value, Parse(group % 16, s))
    ensures var with := ProcessAll(cfg, p, WordsOf(Run(Init(group), s).1)).1;
            var without := ProcessAll(cfg, q, WordsOf(Run(Init(group), WithoutRealTime(s)).1)).1;
            without == WithoutRealTimeEvents(with)
  {
    hide Run, Parse, WithoutRealTimeEvents, WithoutRealTime, ProcessAll;
    RealTimeTransparent(group % 16, s);
    FitFiltered(cfg.limit7.value, Parse(group % 16, s));
    ConvertThenProcess(cfg, p, group, s);
    ConvertThenProcess(cfg, q, group, WithoutRealTime(s));
  }

  lemma {:induction false} FitFiltered(limit: Limit, es: seq<Event>)
    requires FitEvents(limit, es)
    ensures FitEvents(limit, WithoutRealTimeEvents(es))
  {
    if es != [] {
      assert es == [es[0]] + es[1..];
      FitSplit(limit, [es[0]], es[1..]);
      FitFiltered(limit, es[1..]);
    }
  }
}
