/** The midi2_conv_state struct and the functions that update it
    (src/midi2_conv.c:89-291), against the state machine of Converter, and the
    canonical feed/next loop (src/midi2_conv.h:58-67) in front of a processor. */
module ConverterState {
  import opened Words
  import opened Ump
  import opened Reassembly
  import opened ByteStream
  import opened Converter
  import opened Conversion
  import Processor

  lemma Nothing()
    ensures WordsOf([]) == []
  {
  }

  lemma OnlyMessage(w: seq<word>, m: Message)
    requires w == m.Words()
    ensures WordsOf([m]) == [w]
  {
  }

  lemma WordsOfAppend(xs: seq<Message>, ys: seq<Message>)
    ensures WordsOf(xs + ys) == WordsOf(xs) + WordsOf(ys)
  {
    hide Message.Words;
  }

  class State {
    const group: nibble
    var runningStatus: byte
    var dataByteCount: nat
    var dataPos: nat
    const data: array<byte>
    const sysexBuf: array<byte>
    var sysexLen: nat
    var inSysex: bool
    var sysexStarted: bool
    const ump: array<word>
    var umpWords: nat
    const pending: array<word>
    var pendingWords: nat

    ghost const Repr: set<object> := {this, data, sysexBuf, ump, pending}

    ghost predicate Sized()
      reads this
    {
      && data.Length == 2 && sysexBuf.Length == 6 && ump.Length == 4 && pending.Length == 2
      && data != sysexBuf && ump != pending
      && sysexLen <= 6 && umpWords <= 2 && pendingWords <= 1
    }

    ghost function Model(): Conv
      requires Sized()
      reads this, data, sysexBuf
    {
      Conv(group, runningStatus, dataByteCount, dataPos, data[0], data[1], sysexBuf[..sysexLen], inSysex, sysexStarted)
    }

    ghost predicate Valid()
      reads Repr
    {
      Sized() && Reachable(Model())
    }

    /** The message in ump, if any, and the one queued behind it. */
    ghost function Ready(): (r: seq<seq<word>>)
      requires Sized()
      ensures forall w :: w in r ==> |w| >= 1
      reads this, ump, pending
    {
      (if umpWords == 0 then [] else [ump[..umpWords]])
      + (if pendingWords == 0 then [] else [pending[..pendingWords]])
    }

    /** midi2_conv_init. */
    constructor (group: byte)
      ensures Valid() && fresh(Repr) && Model() == Init(group) && Ready() == []
    {
      this.group := group % 16;
      runningStatus, dataByteCount, dataPos := 0, 0, 0;
      data, sysexBuf := new byte[2](_ => 0), new byte[6](_ => 0);
      sysexLen, inSysex, sysexStarted := 0, false, false;
      ump, pending := new word[4](_ => 0), new word[2](_ => 0);
      umpWords, pendingWords := 0, 0;
    }

    method EmitSysexPacket(isEnd: bool)
      requires Sized()
      modifies ump, this`umpWords, this`sysexLen, this`inSysex, this`sysexStarted
      ensures Sized() && umpWords == 2
      ensures var (c, m) := Emit(old(Model()), isEnd);
              Model() == c && ump[..2] == m.Words()
    {
      hide SysEx7Words, ByteAt;
      var status: byte;
      if !sysexStarted && isEnd {
        status := 16 * COMPLETE;
      } else if !sysexStarted {
        status := 16 * START;
        sysexStarted := true;
      } else if isEnd {
        status := 16 * END;
      } else {
        status := 16 * CONTINUE;
      }
      SysEx7Packet(ump, group, status, sysexBuf[..sysexLen]);
      assert sysexBuf[..sysexLen][..sysexLen] == sysexBuf[..sysexLen];
      umpWords := 2;
      sysexLen := 0;
      if isEnd {
        inSysex := false;
        sysexStarted := false;
      }
    }

    /** The word of a status that is a message by itself, 0 for any other. */
    method ConvTakeStatus(b: byte) returns (w: word)
      requires Sized() && 0x80 <= b <= 0xF6
      modifies this`runningStatus, this`dataByteCount, this`dataPos, data
      ensures Sized()
      ensures var (c, ms) := TakeStatus(old(Model()), b);
              Model() == c && WordsOf(ms) == if w == 0 then [] else [[w]]
    {
      hide Image;
      runningStatus := b;
      dataByteCount := DataCount(b);
      dataPos := 0;
      if b >= 0xF1 && b <= 0xF6 {
        if dataByteCount == 0 {
          runningStatus := 0;
          w := SystemWord(group, b, 0, 0);
          SystemWordFields(group, b, 0, 0);
          assert w != 0 by { assert Mt(w) == MT_SYSTEM; }
          return;
        }
        return 0;
      }
      data[0] := 0;
      data[1] := 0;
      return 0;
    }

    method EmitChannelMsg()
      requires Sized() && (runningStatus < 0xF0 || runningStatus > 0xF0)
      requires 0x80 <= runningStatus <= 0xF3 && dataByteCount == DataCount(runningStatus) && dataByteCount > 0
      modifies ump, this`umpWords
      ensures Sized() && umpWords == 1
      ensures ump[..1] == (if runningStatus < 0xF0 then Voice(group, runningStatus, data[0], data[1])
                           else System(group, runningStatus, data[0], if dataByteCount == 1 then 0 else data[1])).Words()
    {
      hide Image;
      var w;
      if runningStatus < 0xF0 {
        w := VoiceWord(group, runningStatus, data[0], data[1]);
      } else if dataByteCount == 1 {
        w := SystemWord(group, runningStatus, data[0], 0);
      } else {
        w := SystemWord(group, runningStatus, data[0], data[1]);
      }
      ump[0] := w;
      umpWords := 1;
      assert ump[..1] == [w];
    }

    method EmitRealTime(b: byte)
      requires Valid() && pendingWords == 0 && IsRealTime(b)
      modifies ump, pending, this`umpWords, this`pendingWords, this`sysexLen, this`inSysex, this`sysexStarted
      ensures Sized() && umpWords != 0
      ensures var (c, ms) := TakeRealTime(old(Model()), b);
              Model() == c && Ready() == WordsOf(ms)
    {
      hide Message.Words;
      var w := SystemWord(group, b, 0, 0);
      if inSysex && sysexLen > 0 {
        EmitSysexPacket(false);
        pending[0] := w;
        pendingWords := 1;
        assert pending[..pendingWords] == [w];
      } else {
        ump[0] := w;
        umpWords := 1;
        assert ump[..umpWords] == [w];
      }
    }

    /** A status byte ends the open SysEx; its own message, if it is one, queues
        behind the closing packet. */
    method InterruptSysEx(b: byte) returns (closed: bool)
      requires Sized() && pendingWords == 0 && umpWords == 0 && inSysex && 0x80 <= b <= 0xF6
      modifies Repr
      ensures Sized() && (closed <==> umpWords != 0) && (umpWords == 0 ==> pendingWords == 0)
      ensures var (c, closing) := Close(old(Model()));
              var (d, own) := TakeStatus(c, b);
              Model() == d && Ready() == WordsOf(closing) + WordsOf(own)
    {
      hide Message.Words;
      closed := false;
      if sysexLen > 0 || sysexStarted {
        EmitSysexPacket(true);
        closed := true;
      } else {
        inSysex := false;
      }
      assert Model() == Close(old(Model())).0 && Ready() == WordsOf(Close(old(Model())).1);
      var word := ConvTakeStatus(b);
      if word != 0 {
        if closed {
          pending[0] := word;
          pendingWords := 1;
          assert pending[..pendingWords] == [word];
        } else {
          ump[0] := word;
          umpWords := 1;
          closed := true;
          assert ump[..umpWords] == [word];
        }
      }
    }

    /** F0: a new SysEx ends the open one. */
    method OpenSysEx() returns (closed: bool)
      requires Sized() && pendingWords == 0 && umpWords == 0
      modifies Repr
      ensures Sized() && pendingWords == 0 && (closed <==> umpWords != 0)
      ensures var (c, closing) := Close(old(Model()));
              && Model() == c.(inSysex := true, started := false, buf := [], running := 0)
              && Ready() == WordsOf(closing)
    {
      hide Message.Words;
      closed := false;
      if inSysex && (sysexLen > 0 || sysexStarted) {
        EmitSysexPacket(true);
        closed := true;
      }
      inSysex := true;
      sysexStarted := false;
      sysexLen := 0;
      runningStatus := 0;
    }

    /** A data byte of the open SysEx; the sixth completes a packet. */
    method TakeSysExByte(b: byte) returns (r: bool)
      requires Valid() && pendingWords == 0 && umpWords == 0 && inSysex
      modifies Repr
      ensures Sized() && pendingWords == 0 && (r <==> umpWords != 0)
      ensures var d := old(Model()).(buf := old(Model()).buf + [b]);
              if |d.buf| == 6 then Model() == Emit(d, false).0 && Ready() == WordsOf([Emit(d, false).1])
              else Model() == d && Ready() == []
    {
      hide Message.Words;
      sysexBuf[sysexLen] := b;
      sysexLen := sysexLen + 1;
      assert sysexBuf[..sysexLen] == old(Model()).buf + [b];
      if sysexLen == 6 {
        EmitSysexPacket(false);
        return true;
      }
      return false;
    }

    /** A data byte outside a SysEx (Running Status applies). */
    method TakeDataByte(b: byte) returns (r: bool)
      requires Valid() && pendingWords == 0 && umpWords == 0 && !inSysex && IsData(b)
      modifies Repr
      ensures Sized() && pendingWords == 0 && (r <==> umpWords != 0)
      ensures var (c, ms) := TakeData(old(Model()), b);
              Model() == c && Ready() == WordsOf(ms)
    {
      hide Message.Words;
      if runningStatus == 0 {
        return false;
      }
      data[dataPos] := b;
      dataPos := dataPos + 1;
      if dataPos >= dataByteCount {
        EmitChannelMsg();
        dataPos := 0;
        data[0] := 0;
        data[1] := 0;
        if runningStatus >= 0xF1 {
          runningStatus := 0;
        }
        return true;
      }
      return false;
    }

    /** midi2_conv_feed: nothing may be queued from the byte before. */
    method Feed(b: byte) returns (r: bool)
      requires Valid() && pendingWords == 0
      modifies Repr
      ensures Valid() && (r <==> Ready() != []) && (umpWords == 0 ==> pendingWords == 0)
      ensures var (c, ms) := Converter.Feed(old(Model()), b);
              Model() == c && Ready() == WordsOf(ms)
    {
      FeedReachable(Model(), b);
      r := FeedInner(b);
    }

    method FeedInner(b: byte) returns (r: bool)
      requires Valid() && pendingWords == 0
      modifies Repr
      ensures Sized() && (r <==> umpWords != 0) && (umpWords == 0 ==> pendingWords == 0)
      ensures var (c, ms) := Converter.Feed(old(Model()), b);
              Model() == c && Ready() == WordsOf(ms)
    {
      hide Message.Words, DataCount, TakeRealTime, TakeData, TakeStatus, Emit, WordsOf;
      ghost var (d, closing) := Close(Model());
      WordsOfAppend(closing, TakeStatus(d, b).1);
      Nothing();
      umpWords := 0;
      if b >= 0xF8 {
        EmitRealTime(b);
        return true;
      }
      if b == 0xF0 {
        r := OpenSysEx();
        return;
      }
      if b == 0xF7 {
        if inSysex {
          EmitSysexPacket(true);
          OnlyMessage(ump[..2], Emit(old(Model()), true).1);
          return true;
        }
        return false;
      }
      if inSysex {
        if b >= 0x80 {
          r := InterruptSysEx(b);
          return;
        }
        r := TakeSysExByte(b);
        return;
      }
      if b >= 0x80 {
        var word := ConvTakeStatus(b);
        if word != 0 {
          ump[0] := word;
          umpWords := 1;
          assert ump[..umpWords] == [word];
          return true;
        }
        return false;
      }
      r := TakeDataByte(b);
    }

    /** midi2_conv_next: move on to the queued message. */
    method Next() returns (r: bool)
      requires Valid()
      modifies ump, this`umpWords, this`pendingWords
      ensures Valid() && Model() == old(Model()) && pendingWords == 0
      ensures r <==> Ready() != []
      ensures Ready() == if old(pendingWords) == 0 then [] else [old(pending[..pendingWords])]
    {
      umpWords := 0;
      if pendingWords == 0 {
        return false;
      }
      ump[0] := pending[0];
      ump[1] := pending[1];
      umpWords := pendingWords;
      pendingWords := 0;
      assert ump[..umpWords] == old(pending[..pendingWords]);
      return true;
    }
  }

  // ---- The canonical loop --------------------------------------------------

  lemma {:induction false} ProcessAppend(cfg: Processor.Config, p: Processor.Proc, xs: seq<seq<word>>, ys: seq<seq<word>>)
    requires forall w :: w in xs ==> |w| >= 1
    requires forall w :: w in ys ==> |w| >= 1
    ensures var (q, es) := Processor.ProcessAll(cfg, p, xs);
            var (r, more) := Processor.ProcessAll(cfg, q, ys);
            Processor.ProcessAll(cfg, p, xs + ys) == (r, es + more)
    decreases |xs|
  {
    hide Processor.Process;
    var (q, es) := Processor.ProcessAll(cfg, p, xs);
    var (r, more) := Processor.ProcessAll(cfg, q, ys);
    if xs == [] {
      assert xs + ys == ys && (q, es) == (p, []) && es + more == more;
    } else {
      var (p1, es1) := Processor.Process(cfg, p, xs[0]);
      var es2 := Processor.ProcessAll(cfg, p1, xs[1..]).1;
      assert (xs + ys)[1..] == xs[1..] + ys && es1 + (es2 + more) == es + more;
      ProcessAppend(cfg, p1, xs[1..], ys);
    }
  }

  lemma ProcessFirst(cfg: Processor.Config, p: Processor.Proc, ws: seq<seq<word>>)
    requires ws != [] && forall w :: w in ws ==> |w| >= 1
    ensures var (q, es) := Processor.Process(cfg, p, ws[0]);
            var (r, more) := Processor.ProcessAll(cfg, q, ws[1..]);
            Processor.ProcessAll(cfg, p, ws) == (r, es + more)
  {
  }

  lemma ProcessNone(cfg: Processor.Config, p: Processor.Proc)
    ensures Processor.ProcessAll(cfg, p, []) == (p, [])
  {
  }

  /** Convert a byte and hand each message it makes to the processor. */
  method ConvertByte(conv: State, proc: Processor.State, b: byte)
    requires conv.Valid() && proc.Valid() && conv.pendingWords == 0 && conv.Repr !! proc.Repr
    modifies conv.Repr, proc.Repr
    ensures conv.Valid() && proc.Valid() && conv.pendingWords == 0 && proc.Cfg() == old(proc.Cfg())
    ensures var (c, ms) := Converter.Feed(old(conv.Model()), b);
            var (p, es) := Processor.ProcessAll(proc.Cfg(), old(proc.Model()), WordsOf(ms));
            conv.Model() == c && proc.Model() == p && proc.events == old(proc.events) + es
  {
    hide Converter.Feed, Processor.Process, Reachable;
    var more := conv.Feed(b);
    Drain(conv, proc, more);
  }

  /** One turn of the do/while: process the current message, ask for the next. */
  method PassOn(conv: State, proc: Processor.State) returns (more: bool)
    requires conv.Valid() && proc.Valid() && conv.Repr !! proc.Repr
    requires conv.umpWords != 0
    modifies conv.Repr, proc.Repr
    ensures conv.Valid() && proc.Valid() && conv.pendingWords == 0 && conv.umpWords <= old(conv.pendingWords)
    ensures (more <==> conv.Ready() != []) && conv.Model() == old(conv.Model()) && proc.Cfg() == old(proc.Cfg())
    ensures conv.Ready() == old(conv.Ready())[1..]
    ensures var (p, es) := Processor.Process(proc.Cfg(), old(proc.Model()), old(conv.Ready())[0]);
            proc.Model() == p && proc.events == old(proc.events) + es
  {
    hide Processor.Process, Reachable;
    assert conv.Ready()[0] == conv.ump[..conv.umpWords];
    proc.Feed(conv.ump[..conv.umpWords]);
    more := conv.Next();
  }

  method Drain(conv: State, proc: Processor.State, ready: bool)
    requires conv.Valid() && proc.Valid() && conv.Repr !! proc.Repr
    requires (ready <==> conv.Ready() != []) && (conv.umpWords == 0 ==> conv.pendingWords == 0)
    modifies conv.Repr, proc.Repr
    ensures conv.Valid() && proc.Valid() && conv.pendingWords == 0 && proc.Cfg() == old(proc.Cfg())
    ensures var (p, es) := Processor.ProcessAll(proc.Cfg(), old(proc.Model()), old(conv.Ready()));
            conv.Model() == old(conv.Model()) && proc.Model() == p && proc.events == old(proc.events) + es
  {
    hide Processor.Process, Processor.ProcessAll, Reachable, ToPassOn;
    ghost var cfg, c := proc.Cfg(), conv.Model();
    ghost var (p, es) := Processor.ProcessAll(cfg, proc.Model(), conv.Ready());
    ghost var total := proc.events + es;
    assert ToPassOn(conv, proc, cfg, p, total) by { ToPassAll(conv, proc); }
    var more := ready;
    while more
      invariant conv.Valid() && proc.Valid() && proc.Cfg() == cfg && conv.Model() == c
      invariant (more <==> conv.Ready() != []) && (conv.umpWords == 0 ==> conv.pendingWords == 0)
      invariant ToPassOn(conv, proc, cfg, p, total)
      decreases |conv.Ready()|
    {
      more := PassNext(conv, proc, cfg, p, total);
    }
    PassedOn(conv, proc, cfg, p, total);
  }

  /** Once the ready messages are processed, the processor is in state p and the
      callbacks of total have been fired. */
  ghost predicate ToPassOn(conv: State, proc: Processor.State, cfg: Processor.Config, p: Processor.Proc, total: seq<Processor.Event>)
    requires conv.Sized() && proc.Valid()
    reads conv, conv.Repr, proc, proc.Repr
  {
    var (q, rest) := Processor.ProcessAll(cfg, proc.Model(), conv.Ready());
    p == q && total == proc.events + rest
  }

  lemma ToPassAll(conv: State, proc: Processor.State)
    requires conv.Sized() && proc.Valid()
    ensures var (p, es) := Processor.ProcessAll(proc.Cfg(), proc.Model(), conv.Ready());
            ToPassOn(conv, proc, proc.Cfg(), p, proc.events + es)
  {
    hide Processor.ProcessAll;
  }

  lemma PassedOn(conv: State, proc: Processor.State, cfg: Processor.Config, p: Processor.Proc, total: seq<Processor.Event>)
    requires conv.Sized() && proc.Valid() && ToPassOn(conv, proc, cfg, p, total) && conv.Ready() == []
    ensures proc.Model() == p && proc.events == total
  {
    hide Processor.ProcessAll;
    ProcessNone(cfg, proc.Model());
  }

  method PassNext(conv: State, proc: Processor.State, ghost cfg: Processor.Config, ghost p: Processor.Proc,
                  ghost total: seq<Processor.Event>) returns (more: bool)
    requires conv.Valid() && proc.Valid() && conv.Repr !! proc.Repr && conv.umpWords != 0
    requires proc.Cfg() == cfg && ToPassOn(conv, proc, cfg, p, total)
    modifies conv.Repr, proc.Repr
    ensures conv.Valid() && proc.Valid() && conv.pendingWords == 0 && conv.umpWords <= old(conv.pendingWords)
    ensures (more <==> conv.Ready() != []) && conv.Model() == old(conv.Model()) && proc.Cfg() == cfg
    ensures |conv.Ready()| < |old(conv.Ready())| && ToPassOn(conv, proc, cfg, p, total)
  {
    hide Processor.Process, Processor.ProcessAll, Reachable;
    ghost var ready, before := conv.Ready(), proc.events;
    ProcessFirst(cfg, proc.Model(), ready);
    ghost var (q, e) := Processor.Process(cfg, proc.Model(), ready[0]);
    ghost var rest := Processor.ProcessAll(cfg, q, ready[1..]).1;
    assert before + (e + rest) == before + e + rest;
    more := PassOn(conv, proc);
  }

  lemma OneByteMore(cfg: Processor.Config, p: Processor.Proc, group: byte, s: bytes, b: byte)
    ensures var (c, ms) := Run(Init(group), s);
            var (d, more) := Converter.Feed(c, b);
            var (q, es) := Processor.ProcessAll(cfg, p, WordsOf(ms));
            var (r, es') := Processor.ProcessAll(cfg, q, WordsOf(more));
            && Run(Init(group), s + [b]).0 == d
            && Processor.ProcessAll(cfg, p, WordsOf(Run(Init(group), s + [b]).1)) == (r, es + es')
  {
    hide Run, Converter.Feed, Processor.ProcessAll;
    var (c, ms) := Run(Init(group), s);
    RunSnoc(Init(group), s, b);
    WordsOfAppend(ms, Converter.Feed(c, b).1);
    ProcessAppend(cfg, p, WordsOf(ms), WordsOf(Converter.Feed(c, b).1));
  }

  lemma NoBytes(cfg: Processor.Config, p: Processor.Proc, group: byte)
    ensures Run(Init(group), []) == (Init(group), [])
    ensures Processor.ProcessAll(cfg, p, WordsOf(Run(Init(group), []).1)) == (p, [])
  {
  }

  /** Both objects after the stream s, if the processor was in state p with the
      callbacks of log fired when it began. */
  ghost predicate InStep(conv: State, proc: Processor.State, cfg: Processor.Config, p: Processor.Proc,
                         log: seq<Processor.Event>, group: byte, s: bytes)
    reads conv, conv.Repr, proc, proc.Repr
  {
    && conv.Valid() && proc.Valid() && conv.pendingWords == 0 && proc.Cfg() == cfg
    && conv.Model() == Run(Init(group), s).0
    && var (q, es) := Processor.ProcessAll(cfg, p, WordsOf(Run(Init(group), s).1));
       proc.Model() == q && proc.events == log + es
  }

  method ConvertNext(conv: State, proc: Processor.State, ghost cfg: Processor.Config, ghost p: Processor.Proc,
                     ghost log: seq<Processor.Event>, ghost group: byte, ghost s: bytes, b: byte)
    requires conv.Repr !! proc.Repr && InStep(conv, proc, cfg, p, log, group, s)
    modifies conv.Repr, proc.Repr
    ensures InStep(conv, proc, cfg, p, log, group, s + [b])
  {
    hide Run, Converter.Feed, Processor.ProcessAll, Reachable, WordsOf;
    OneByteMore(cfg, p, group, s, b);
    ConvertByte(conv, proc, b);
  }

  lemma AtFirst(conv: State, proc: Processor.State, group: byte)
    requires conv.Valid() && proc.Valid() && conv.pendingWords == 0 && conv.Model() == Init(group)
    ensures InStep(conv, proc, proc.Cfg(), proc.Model(), proc.events, group, [])
  {
    hide Run, Processor.ProcessAll, WordsOf, Reachable;
    NoBytes(proc.Cfg(), proc.Model(), group);
    assert proc.events + [] == proc.events;
  }

  lemma AtLast(conv: State, proc: Processor.State, cfg: Processor.Config, p: Processor.Proc,
               log: seq<Processor.Event>, group: byte, s: bytes)
    requires InStep(conv, proc, cfg, p, log, group, s)
    ensures proc.Valid() && proc.events == log + Processor.ProcessAll(cfg, p, WordsOf(Run(Init(group), s).1)).1
  {
    hide Run, Processor.ProcessAll, WordsOf, Reachable;
  }

  /** A whole byte stream through converter and processor: whatever state the
      processor is in, the callbacks fired are the events of the parse. */
  method ConvertStream(group: byte, s: bytes, proc: Processor.State)
    requires proc.Valid() && group % 16 in proc.groupMask && proc.sysexBuf != null
    requires FitEvents(Capacity(proc.sysexBuf.Length), Parse(group % 16, s))
    modifies proc.Repr
    ensures proc.Valid() && proc.events == old(proc.events) + Parse(group % 16, s)
  {
    hide Run, Processor.ProcessAll, Parse, FitEvents, WordsOf, Reachable, InStep;
    ghost var cfg, p, log := proc.Cfg(), proc.Model(), proc.events;
    ConvertThenProcess(cfg, p, group, s);
    var conv := new State(group);
    var i := 0;
    assert s[..0] == [];
    AtFirst(conv, proc, group);
    while i < |s|
      invariant 0 <= i <= |s|
      invariant fresh(conv.Repr) && InStep(conv, proc, cfg, p, log, group, s[..i])
    {
      assert s[..i + 1] == s[..i] + [s[i]];
      ConvertNext(conv, proc, cfg, p, log, group, s[..i], s[i]);
      i := i + 1;
    }
    assert s[..i] == s;
    AtLast(conv, proc, cfg, p, log, group, s);
  }
}
