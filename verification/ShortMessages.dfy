/** What short MIDI 1.0 messages mean, in numbers: how many data bytes each status
    takes and the word each message becomes, behind any stream
    (src/midi2_conv.c:44-85, 124-143, 157-261, src/midi2_msg.h:419-432, 1081-1088). */
module ShortMessages {
  import opened Words
  import opened Ump
  import opened Processor
  import opened ByteStream

  /** One callback, with one word. */
  function OneWord(w: word): seq<Event> {
    [OnUmp([w])]
  }

  lemma SystemNumber(g: nibble, status: byte, d1: byte, d2: byte)
    ensures [SystemEvent(g, status, d1, d2)] == OneWord(0x1000_0000 + 0x100_0000 * g + 0x1_0000 * status + 0x100 * d1 + d2)
  {
    assert Image([0x10 + g, status, d1, d2], 1) == [Be(0x10 + g, status, d1, d2)];
  }

  lemma VoiceNumber(g: nibble, status: byte, d1: byte, d2: byte)
    requires d1 < 0x80 && d2 < 0x80
    ensures [OnUmp(Voice(g, status, d1, d2).Words())]
            == OneWord(0x2000_0000 + 0x100_0000 * g + 0x1_0000 * status + 0x100 * d1 + d2)
  {
    assert Image([0x20 + g, status, d1, d2], 1) == [Be(0x20 + g, status, d1, d2)];
  }

  /** A status byte that takes data completes nothing but the SysEx it may cut off. */
  lemma StatusAlone(g: nibble, s: bytes, status: byte)
    requires 0x80 <= status <= 0xF3
    ensures Parse(g, s + [status]) == Parse(g, s) + (if InSysEx(s) && Since(s) != [] then [OnSysEx7(g, Since(s))] else [])
  {
    SnocParse(g, s, status);
  }

  /** Note Off, Note On, Poly Pressure, Control Change and Pitch Bend take two data
      bytes; two more are another message of the same status. */
  lemma TwoDataBytes(g: nibble, s: bytes, status: byte, d1: byte, d2: byte, d3: byte, d4: byte)
    requires 0x80 <= status <= 0xBF || 0xE0 <= status <= 0xEF
    requires d1 < 0x80 && d2 < 0x80 && d3 < 0x80 && d4 < 0x80
    ensures Parse(g, s + [status, d1]) == Parse(g, s + [status])
    ensures Parse(g, s + [status, d1, d2])
            == Parse(g, s + [status]) + OneWord(0x2000_0000 + 0x100_0000 * g + 0x1_0000 * status + 0x100 * d1 + d2)
    ensures Parse(g, s + [status, d1, d2, d3]) == Parse(g, s + [status, d1, d2])
    ensures Parse(g, s + [status, d1, d2, d3, d4])
            == Parse(g, s + [status, d1, d2]) + OneWord(0x2000_0000 + 0x100_0000 * g + 0x1_0000 * status + 0x100 * d3 + d4)
  {
    hide Parse, Status, Since, Ended, Message.Words, DataCount;
    assert DataCount(status) == 2 by { Counts(status); }
    VoiceNumber(g, status, d1, d2);
    VoiceNumber(g, status, d3, d4);
    var t := s + [status];
    Snoc(s, status);
    DataNext(g, t, d1);
    DataNext(g, t + [d1], d2);
    DataNext(g, t + [d1] + [d2], d3);
    DataNext(g, t + [d1] + [d2] + [d3], d4);
    Grouped(s, status, d1, d2, d3, d4);
  }

  /** Program Change and Channel Pressure take one, and so does every further one. */
  lemma OneDataByte(g: nibble, s: bytes, status: byte, d1: byte, d2: byte)
    requires 0xC0 <= status <= 0xDF && d1 < 0x80 && d2 < 0x80
    ensures Parse(g, s + [status, d1])
            == Parse(g, s + [status]) + OneWord(0x2000_0000 + 0x100_0000 * g + 0x1_0000 * status + 0x100 * d1)
    ensures Parse(g, s + [status, d1, d2])
            == Parse(g, s + [status, d1]) + OneWord(0x2000_0000 + 0x100_0000 * g + 0x1_0000 * status + 0x100 * d2)
  {
    hide Parse, Status, Since, Ended, Message.Words, DataCount;
    assert DataCount(status) == 1 by { Counts(status); }
    VoiceNumber(g, status, d1, 0);
    VoiceNumber(g, status, d2, 0);
    var t := s + [status];
    Snoc(s, status);
    DataNext(g, t, d1);
    DataNext(g, t + [d1], d2);
    Grouped(s, status, d1, d2, 0, 0);
  }

  /** As the whole stream: one callback with one word, of type 2, whose bytes are type
      and group, status and the data bytes in order. */
  lemma ByItself(g: nibble, status: byte, d1: byte, d2: byte)
    requires 0x80 <= status <= 0xEF && d1 < 0x80 && d2 < 0x80
    ensures var w: word := 0x2000_0000 + 0x100_0000 * g + 0x1_0000 * status + 0x100 * d1;
            if 0xC0 <= status <= 0xDF then Parse(g, [status, d1]) == OneWord(w)
            else Parse(g, [status, d1]) == [] && Parse(g, [status, d1, d2]) == OneWord(w + d2)
  {
    hide Status, Since, Ended, DataCount, Parse, InSysEx;
    assert Parse(g, []) == [] && !InSysEx([]) by { NothingParsed(g); }
    StatusAlone(g, [], status);
    assert [] + [status] == [status] && [] + [status, d1] == [status, d1] && [] + [status, d1, d2] == [status, d1, d2];
    if 0xC0 <= status <= 0xDF { OneDataByte(g, [], status, d1, d2); } else { TwoDataBytes(g, [], status, d1, d2, 0, 0); }
  }

  lemma NothingParsed(g: nibble)
    ensures Parse(g, []) == [] && !InSysEx([])
  {
  }

  /** MTC Quarter Frame and Song Select take one data byte, Song Position two; they
      establish no Running Status, so data bytes behind them mean nothing. */
  lemma SystemCommon(g: nibble, s: bytes, d1: byte, d2: byte, d3: byte)
    requires d1 < 0x80 && d2 < 0x80 && d3 < 0x80
    ensures Parse(g, s + [0xF1, d1]) == Parse(g, s + [0xF1]) + OneWord(0x10F1_0000 + 0x100_0000 * g + 0x100 * d1)
    ensures Parse(g, s + [0xF1, d1, d2]) == Parse(g, s + [0xF1, d1])
    ensures Parse(g, s + [0xF3, d1]) == Parse(g, s + [0xF3]) + OneWord(0x10F3_0000 + 0x100_0000 * g + 0x100 * d1)
    ensures Parse(g, s + [0xF3, d1, d2]) == Parse(g, s + [0xF3, d1])
    ensures Parse(g, s + [0xF2, d1]) == Parse(g, s + [0xF2])
    ensures Parse(g, s + [0xF2, d1, d2]) == Parse(g, s + [0xF2, d1]) + OneWord(0x10F2_0000 + 0x100_0000 * g + 0x100 * d1 + d2)
    ensures Parse(g, s + [0xF2, d1, d2, d3]) == Parse(g, s + [0xF2, d1, d2])
  {
    hide Parse, Status, Since, Ended, SystemEvent;
    ShortSystem(g, s, 0xF1, d1, d2);
    ShortSystem(g, s, 0xF3, d1, d2);
    SystemNumber(g, 0xF2, d1, d2);
    var t: bytes := s + [0xF2];
    Snoc(s, 0xF2);
    DataNext(g, t, d1);
    DataNext(g, t + [d1], d2);
    DataNext(g, t + [d1] + [d2], d3);
    Grouped(s, 0xF2, d1, d2, d3, 0);
  }

  lemma ShortSystem(g: nibble, s: bytes, status: byte, d1: byte, d2: byte)
    requires (status == 0xF1 || status == 0xF3) && d1 < 0x80 && d2 < 0x80
    ensures Parse(g, s + [status, d1])
            == Parse(g, s + [status]) + OneWord(0x1000_0000 + 0x100_0000 * g + 0x1_0000 * status + 0x100 * d1)
    ensures Parse(g, s + [status, d1, d2]) == Parse(g, s + [status, d1])
  {
    hide Parse, Status, Since, Ended, SystemEvent;
    SystemNumber(g, status, d1, 0);
    var t := s + [status];
    Snoc(s, status);
    DataNext(g, t, d1);
    DataNext(g, t + [d1], d2);
    Grouped(s, status, d1, d2, 0, 0);
  }

  /** F4, F5 and F6 are messages by themselves, behind the SysEx they may cut off;
      data bytes after them mean nothing. */
  lemma StandAlone(g: nibble, s: bytes, status: byte, d: byte)
    requires 0xF4 <= status <= 0xF6 && d < 0x80
    ensures Parse(g, s + [status])
            == Parse(g, s) + (if InSysEx(s) && Since(s) != [] then [OnSysEx7(g, Since(s))] else [])
               + OneWord(0x1000_0000 + 0x100_0000 * g + 0x1_0000 * status)
    ensures Parse(g, s + [status, d]) == Parse(g, s + [status])
  {
    hide Parse, Status, Since, Ended, SystemEvent;
    SystemNumber(g, status, 0, 0);
    SnocParse(g, s, status);
    Snoc(s, status);
    DataNext(g, s + [status], d);
    assert s + [status] + [d] == s + [status, d];
  }

  /** F8 to FF are messages by themselves anywhere; F7 alone is none. */
  lemma RealTimeAlone(g: nibble, s: bytes, b: byte)
    ensures b >= 0xF8 ==> Parse(g, s + [b]) == Parse(g, s) + OneWord(0x1000_0000 + 0x100_0000 * g + 0x1_0000 * b)
    ensures !InSysEx(s) ==> Parse(g, s + [0xF7]) == Parse(g, s)
  {
    hide Parse, InSysEx, SystemEvent;
    SnocParse(g, s, b);
    SnocParse(g, s, 0xF7);
    SystemNumber(g, b, 0, 0);
  }

  lemma {:induction false} PayloadSince(s: bytes, data: bytes)
    requires Is7Bit(data)
    ensures var t := s + [0xF0] + data; InSysEx(t) && Since(t) == data
    decreases |data|
  {
    hide Status, Since, Ended;
    var t: bytes := s + [0xF0];
    if data == [] {
      Snoc(s, 0xF0);
      assert t + data == t;
    } else {
      var k := |data| - 1;
      PayloadSince(s, data[..k]);
      Snoc(t + data[..k], data[k]);
      assert t + data == t + data[..k] + [data[k]];
      assert data == data[..k] + [data[k]];
    }
  }

  lemma {:induction false} PayloadQuiet(g: nibble, s: bytes, data: bytes)
    requires Is7Bit(data)
    ensures Parse(g, s + [0xF0] + data) == Parse(g, s + [0xF0])
    decreases |data|
  {
    hide Parse, Status, Since, Ended;
    var t: bytes := s + [0xF0];
    if data == [] {
      assert t + data == t;
    } else {
      var k := |data| - 1;
      PayloadQuiet(g, s, data[..k]);
      PayloadSince(s, data[..k]);
      assert t + data == t + data[..k] + [data[k]];
      SnocParse(g, t + data[..k], data[k]);
    }
  }

  /** F0, 7-bit bytes and F7 are one SysEx of those bytes, of any number; cut off by
      another F0 or a Channel Voice status, one of the bytes so far unless there are
      none. */
  lemma SysExMeans(g: nibble, s: bytes, data: bytes, status: byte)
    requires Is7Bit(data) && 0x80 <= status <= 0xF3
    ensures Parse(g, s + [0xF0] + data + [0xF7]) == Parse(g, s + [0xF0]) + [OnSysEx7(g, data)]
    ensures Parse(g, s + [0xF0] + data + [status])
            == if data == [] then Parse(g, s + [0xF0]) else Parse(g, s + [0xF0]) + [OnSysEx7(g, data)]
  {
    hide Parse, Status, Since, Ended, InSysEx;
    var t := s + [0xF0] + data;
    PayloadSince(s, data);
    PayloadQuiet(g, s, data);
    SnocParse(g, t, 0xF7);
    StatusAlone(g, t, status);
  }

  /** Behind the F7 that ended a SysEx, data bytes and further F7s mean nothing. */
  lemma {:induction false} AfterEnd(g: nibble, s: bytes, data: bytes, more: bytes)
    requires Is7Bit(data) && forall i :: 0 <= i < |more| ==> more[i] < 0x80 || more[i] == 0xF7
    ensures var t := s + [0xF0] + data + [0xF7];
            Parse(g, t + more) == Parse(g, t) && Status(t + more) == 0xF0 && Ended(t + more)
    decreases |more|
  {
    hide Parse, Status, Since, Ended;
    var t := s + [0xF0] + data + [0xF7];
    if more == [] {
      PayloadSince(s, data);
      Snoc(s + [0xF0] + data, 0xF7);
      assert t + more == t;
    } else {
      var k := |more| - 1;
      AfterEnd(g, s, data, more[..k]);
      assert t + more == t + more[..k] + [more[k]];
      Snoc(t + more[..k], more[k]);
      SnocParse(g, t + more[..k], more[k]);
    }
  }

  /** An F7 that ends no SysEx leaves Running Status and half a message alone. */
  lemma StrayEnd(g: nibble, s: bytes, status: byte, d1: byte, d2: byte)
    requires (0x80 <= status <= 0xBF || 0xE0 <= status <= 0xEF) && d1 < 0x80 && d2 < 0x80
    ensures Parse(g, s + [status, d1, 0xF7, d2])
            == Parse(g, s + [status]) + OneWord(0x2000_0000 + 0x100_0000 * g + 0x1_0000 * status + 0x100 * d1 + d2)
  {
    hide Parse, Status, Since, Ended, Message.Words, DataCount;
    assert DataCount(status) == 2 by { Counts(status); }
    VoiceNumber(g, status, d1, d2);
    var t := s + [status];
    Snoc(s, status);
    DataNext(g, t, d1);
    Snoc(t + [d1], 0xF7);
    SnocParse(g, t + [d1], 0xF7);
    DataNext(g, t + [d1] + [0xF7], d2);
    assert s + [status, d1, 0xF7, d2] == t + [d1] + [0xF7] + [d2];
  }

  /** Data bytes with no status before them mean nothing. */
  lemma {:induction false} Orphans(g: nibble, data: bytes)
    requires Is7Bit(data)
    ensures Parse(g, data) == [] && Status(data) == 0
    decreases |data|
  {
    if data != [] {
      Orphans(g, data[..|data| - 1]);
    }
  }

  // ---- One data byte more ------------------------------------------------------

  lemma Counts(status: byte)
    ensures 0x80 <= status <= 0xBF || 0xE0 <= status <= 0xEF ==> DataCount(status) == 2
    ensures 0xC0 <= status <= 0xDF ==> DataCount(status) == 1
  {
  }

  lemma DataNext(g: nibble, t: bytes, d: byte)
    requires d < 0x80
    ensures Status(t + [d]) == Status(t) && Since(t + [d]) == Since(t) + [d]
    ensures var status, ds := Status(t), Since(t) + [d];
            var n := DataCount(status);
            Parse(g, t + [d]) == Parse(g, t) +
              (var d1, d2 := if n == 2 && |ds| >= 2 then ds[|ds| - 2] else d, if n == 2 then d else 0;
               if status < 0xF0 && n > 0 && |ds| % n == 0 then [OnUmp(Voice(g, status, d1, d2).Words())]
               else if status > 0xF0 && n > 0 && |ds| == n then [SystemEvent(g, status, d1, d2)]
               else [])
  {
    hide Message.Words, SystemEvent, DataCount;
    Snoc(t, d);
    SnocParse(g, t, d);
  }

  lemma Grouped(s: bytes, status: byte, d1: byte, d2: byte, d3: byte, d4: byte)
    ensures var t := s + [status];
            && t + [d1] == s + [status, d1] && t + [d1] + [d2] == s + [status, d1, d2]
            && t + [d1] + [d2] + [d3] == s + [status, d1, d2, d3]
            && t + [d1] + [d2] + [d3] + [d4] == s + [status, d1, d2, d3, d4]
  {
  }
}
