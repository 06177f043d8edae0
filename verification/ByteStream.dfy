/** What a MIDI 1.0 byte stream means, said of the whole stream: each byte is
    judged by the last status byte before it and the data bytes since. */
module ByteStream {
  import opened Words
  import opened Ump
  import opened Processor

  predicate IsRealTime(b: byte) { b >= 0xF8 }

  predicate IsData(b: byte) { b < 0x80 }

  /** F7 is not a status here: it ends a SysEx and does nothing elsewhere. */
  predicate IsStatus(b: byte) { 0x80 <= b <= 0xF6 }

  /** The number of data bytes of one message (MIDI 1.0), 0 if it has none. */
  function DataCount(status: byte): nat {
    if 0xC0 <= status < 0xE0 then 1
    else if 0x80 <= status < 0xF0 then 2
    else if status == 0xF1 || status == 0xF3 then 1
    else if status == 0xF2 then 2
    else 0
  }

  /** The last status byte of s, 0 if there is none. */
  function Status(s: bytes): byte {
    if s == [] then 0
    else if IsStatus(s[|s| - 1]) then s[|s| - 1]
    else Status(s[..|s| - 1])
  }

  /** The data bytes of s after its last status byte. */
  function Since(s: bytes): bytes {
    if s == [] || IsStatus(s[|s| - 1]) then []
    else Since(s[..|s| - 1]) + (if IsData(s[|s| - 1]) then [s[|s| - 1]] else [])
  }

  /** An F7 follows the last status byte of s. */
  predicate Ended(s: bytes) {
    s != [] && !IsStatus(s[|s| - 1]) && (s[|s| - 1] == 0xF7 || Ended(s[..|s| - 1]))
  }

  predicate InSysEx(s: bytes) {
    Status(s) == 0xF0 && !Ended(s)
  }

  function SystemEvent(g: nibble, status: byte, d1: byte, d2: byte): Event {
    OnUmp(System(g, status, d1, d2).Words())
  }

  /** What byte b after the stream s completes.
      A Real-Time byte is a message by itself, anywhere. F7 completes the open
      SysEx, and so does any status byte if the SysEx has data; F4, F5 and F6 are
      messages by themselves. Under a Channel Voice status every full group of
      data bytes is a message (Running Status); under F1, F2 or F3 only the first
      is; under anything else, data bytes complete nothing. */
  function Produced(g: nibble, s: bytes, b: byte): seq<Event> {
    if IsRealTime(b) then [SystemEvent(g, b, 0, 0)]
    else if b == 0xF7 then
      if InSysEx(s) then [OnSysEx7(g, Since(s))] else []
    else if IsStatus(b) then
      (if InSysEx(s) && Since(s) != [] then [OnSysEx7(g, Since(s))] else [])
      + (if b == 0xF4 || b == 0xF5 || b == 0xF6 then [SystemEvent(g, b, 0, 0)] else [])
    else
      var status, d := Status(s), Since(s) + [b];
      var n := DataCount(status);
      var d1, d2 := if n == 2 && |d| >= 2 then d[|d| - 2] else b, if n == 2 then b else 0;
      if status < 0xF0 && n > 0 && |d| % n == 0 then [OnUmp(Voice(g, status, d1, d2).Words())]
      else if status > 0xF0 && n > 0 && |d| == n then [SystemEvent(g, status, d1, d2)]
      else []
  }

  function Parse(g: nibble, s: bytes): seq<Event> {
    if s == [] then [] else Parse(g, s[..|s| - 1]) + Produced(g, s[..|s| - 1], s[|s| - 1])
  }

  /** The SysEx payload and Real-Time bytes of s, in the order received. */
  function Carried(s: bytes): bytes {
    if s == [] then []
    else
      var (i, b) := (s[..|s| - 1], s[|s| - 1]);
      Carried(i) + (if IsRealTime(b) || (IsData(b) && InSysEx(i)) then [b] else [])
  }

  /** The context of a stream one byte longer. */
  lemma Snoc(s: bytes, b: byte)
    ensures Status(s + [b]) == if IsStatus(b) then b else Status(s)
    ensures Since(s + [b]) == if IsStatus(b) then [] else if IsData(b) then Since(s) + [b] else Since(s)
    ensures Ended(s + [b]) <==> !IsStatus(b) && (b == 0xF7 || Ended(s))
  {
    assert (s + [b])[..|s|] == s;
  }

  lemma SnocParse(g: nibble, s: bytes, b: byte)
    ensures Parse(g, s + [b]) == Parse(g, s) + Produced(g, s, b)
  {
    assert (s + [b])[..|s|] == s;
  }

  lemma SnocCarried(s: bytes, b: byte)
    ensures Carried(s + [b]) == Carried(s) + if IsRealTime(b) || (IsData(b) && InSysEx(s)) then [b] else []
  {
    assert (s + [b])[..|s|] == s;
  }

  lemma SnocFiltered(s: bytes, b: byte)
    ensures WithoutRealTime(s + [b]) == if IsRealTime(b) then WithoutRealTime(s) else WithoutRealTime(s) + [b]
  {
    assert (s + [b])[..|s|] == s;
  }

  // ---- Real-Time bytes change nothing but themselves -----------------------

  function WithoutRealTime(s: bytes): bytes {
    if s == [] then []
    else WithoutRealTime(s[..|s| - 1]) + (if IsRealTime(s[|s| - 1]) then [] else [s[|s| - 1]])
  }

  predicate IsRealTimeEvent(e: Event) {
    e.OnUmp? && |e.words| == 1 && Mt(e.words[0]) == MT_SYSTEM && ByteAt(e.words[0], 1) >= 0xF8
  }

  function WithoutRealTimeEvents(es: seq<Event>): seq<Event> {
    if es == [] then []
    else (if IsRealTimeEvent(es[0]) then [] else [es[0]]) + WithoutRealTimeEvents(es[1..])
  }

  lemma {:induction false} FilterAppend(xs: seq<Event>, ys: seq<Event>)
    ensures WithoutRealTimeEvents(xs + ys) == WithoutRealTimeEvents(xs) + WithoutRealTimeEvents(ys)
  {
    if xs == [] {
      assert xs + ys == ys;
    } else {
      assert (xs + ys)[1..] == xs[1..] + ys;
      FilterAppend(xs[1..], ys);
    }
  }

  lemma {:induction false} ContextWithoutRealTime(s: bytes)
    ensures var r := WithoutRealTime(s);
            Status(r) == Status(s) && Since(r) == Since(s) && Ended(r) == Ended(s)
  {
    if s != [] {
      hide Status, Since, Ended, WithoutRealTime;
      var (i, b) := (s[..|s| - 1], s[|s| - 1]);
      assert s == i + [b];
      ContextWithoutRealTime(i);
      Snoc(i, b);
      SnocFiltered(i, b);
      Snoc(WithoutRealTime(i), b);
    }
  }

  lemma SystemWordFields(g: nibble, status: byte, d1: byte, d2: byte)
    ensures var w := System(g, status, d1, d2).Words();
            |w| == 1 && Mt(w[0]) == MT_SYSTEM && ByteAt(w[0], 1) == status && Group(w[0]) == g
  {
    HeaderOfImage([0x10 + g, status, d1, d2], 1);
    ImageByte([0x10 + g, status, d1, d2], 1, 1);
  }

  lemma VoiceWordFields(g: nibble, status: byte, d1: byte, d2: byte)
    ensures var w := Voice(g, status, d1, d2).Words();
            |w| == 1 && Mt(w[0]) == MT_MIDI1_CV && Group(w[0]) == g
  {
    HeaderOfImage([0x20 + g, status, d1 % 0x80, d2 % 0x80], 1);
  }

  lemma {:induction false} FilterOne(es: seq<Event>)
    ensures (forall e :: e in es ==> !IsRealTimeEvent(e)) ==> WithoutRealTimeEvents(es) == es
    ensures |es| == 1 && IsRealTimeEvent(es[0]) ==> WithoutRealTimeEvents(es) == []
  {
    if es != [] {
      FilterOne(es[1..]);
    }
  }

  lemma ProducedKind(g: nibble, s: bytes, b: byte)
    ensures WithoutRealTimeEvents(Produced(g, s, b)) == if IsRealTime(b) then [] else Produced(g, s, b)
  {
    forall status, d1, d2
      ensures IsRealTimeEvent(SystemEvent(g, status, d1, d2)) <==> status >= 0xF8
    {
      SystemWordFields(g, status, d1, d2);
    }
    FilterOne(Produced(g, s, b));
    forall status, d1, d2
      ensures !IsRealTimeEvent(OnUmp(Voice(g, status, d1, d2).Words()))
    {
      VoiceWordFields(g, status, d1, d2);
    }
  }

  /** Deleting the Real-Time bytes of a stream deletes their own messages and
      leaves every other message as it was. */
  lemma {:induction false} RealTimeTransparent(g: nibble, s: bytes)
    ensures Parse(g, WithoutRealTime(s)) == WithoutRealTimeEvents(Parse(g, s))
  {
    if s != [] {
      hide Parse, Produced, WithoutRealTime, WithoutRealTimeEvents;
      var (i, b) := (s[..|s| - 1], s[|s| - 1]);
      assert s == i + [b];
      var r := WithoutRealTime(i);
      RealTimeTransparent(g, i);
      SnocFiltered(i, b);
      SnocParse(g, i, b);
      SnocParse(g, r, b);
      SameContext(g, i, b);
      ProducedKind(g, i, b);
      FilterAppend(Parse(g, i), Produced(g, i, b));
      assert WithoutRealTimeEvents(Parse(g, i)) + [] == WithoutRealTimeEvents(Parse(g, i));
    }
  }

  lemma SameContext(g: nibble, s: bytes, b: byte)
    ensures Produced(g, WithoutRealTime(s), b) == Produced(g, s, b)
  {
    hide Status, Since, Ended, WithoutRealTime, Image;
    ContextWithoutRealTime(s);
  }
}
