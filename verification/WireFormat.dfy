/** The layouts in numbers: message lengths, SysEx packets, and MIDI-CI headers
    (src/midi2_msg.h:165-188, 667-680, 996-1017, src/midi2_proc.c:66-77, 122-143,
    190-223, 252-289, src/midi2_ci_msg.h:151-235). */
module WireFormat {
  import opened Words
  import opened Ump
  import opened Reassembly
  import opened Processor
  import opened CiMessage

  // ---- Message lengths -------------------------------------------------------

  /** A word's message type is its top four bits; the group is the next four. */
  lemma TypeAndGroup(w: word)
    ensures Mt(w) == w / 0x1000_0000 && Group(w) == w / 0x100_0000 % 16
    ensures Form(w) == w / 0x10_0000 % 16 && NumBytes(w) == w / 0x1_0000 % 16
  {
    assert w / 0x1000_0000 == w / 0x100_0000 / 16;
    assert w / 0x10_0000 == w / 0x1_0000 / 16;
    LowByte(w / 0x1_0000);
  }

  /** Of the low byte of x: its high and low four bits, and its low seven. */
  lemma LowByte(x: nat)
    ensures x % 0x100 / 16 == x / 16 % 16 && x % 0x100 % 16 == x % 16 && x % 0x100 % 0x80 == x % 0x80
  {
    HighFour(x);
    LowSeven(x);
    LowFour(x);
  }

  lemma LowFour(x: nat)
    ensures x % 0x100 % 16 == x % 16
  {
    var q, r := x / 0x100, x % 0x100;
    assert x == 16 * (16 * q) + r;
  }

  lemma HighFour(x: nat)
    ensures x % 0x100 / 16 == x / 16 % 16
  {
    var q, r := x / 0x100, x % 0x100;
    assert x / 16 == 16 * q + r / 16;
  }

  lemma LowSeven(x: nat)
    ensures x % 0x100 % 0x80 == x % 0x80
  {
    var q, r := x / 0x100, x % 0x100;
    assert x == 0x80 * (2 * q) + r;
  }

  lemma Lengths(mt: nibble)
    ensures mt in {0, 1, 2, 6, 7} ==> WordCount(mt) == 1
    ensures mt in {3, 4, 8, 9, 10} ==> WordCount(mt) == 2
    ensures mt in {11, 12} ==> WordCount(mt) == 3
    ensures mt in {5, 13, 14, 15} ==> WordCount(mt) == 4
  {
  }

  /** What on_ump is given: all the words of a message, 1, 2, 3 or 4 by its type, if
      its group is on or it has none (types 0 and 15). A message cut short, of
      whatever type, does nothing. */
  lemma Callbacks(cfg: Config, p: Proc, w: seq<word>)
    requires |w| >= 1
    ensures var mt, on := w[0] / 0x1000_0000, w[0] / 0x100_0000 % 16 in cfg.groups;
            && (mt == 0 || (mt in {1, 2, 6, 7} && on) ==> Process(cfg, p, w) == (p, [OnUmp(w[..1])]))
            && (mt in {4, 8, 9, 10} && on && |w| >= 2 ==> Process(cfg, p, w) == (p, [OnUmp(w[..2])]))
            && (mt in {11, 12} && on && |w| >= 3 ==> Process(cfg, p, w) == (p, [OnUmp(w[..3])]))
            && ((mt == 15 || (mt in {13, 14} && on)) && |w| >= 4 ==> Process(cfg, p, w) == (p, [OnUmp(w[..4])]))
            && (mt !in {0, 3, 5, 15} && !on ==> Process(cfg, p, w) == (p, []))
            && (mt in {3, 4, 8, 9, 10} && |w| < 2 ==> Process(cfg, p, w) == (p, []))
            && (mt in {11, 12} && |w| < 3 ==> Process(cfg, p, w) == (p, []))
            && (mt in {5, 13, 14, 15} && |w| < 4 ==> Process(cfg, p, w) == (p, []))
  {
    hide WordCount, Mt, Group, Form, SysEx7Data, SysEx8Data, Step;
    TypeAndGroup(w[0]);
    Lengths(w[0] / 0x1000_0000);
  }

  /** SysEx ignores the group filter, and needs a buffer. */
  lemma SysExCallbacks(cfg: Config, p: Proc, w: seq<word>)
    requires |w| >= 4
    ensures var mt := w[0] / 0x1000_0000;
            && ((mt == 3 && cfg.limit7 == None) || (mt == 5 && cfg.limit8 == None) ==> Process(cfg, p, w) == (p, []))
            && (mt in {3, 5} ==> Process(cfg, p, w) == Process(cfg.(groups := {}), p, w))
  {
    hide WordCount, Mt, SysEx7Data, SysEx8Data, Step;
    TypeAndGroup(w[0]);
    Lengths(w[0] / 0x1000_0000);
  }

  // ---- SysEx packets ---------------------------------------------------------------

  lemma ImageNumber(all: bytes, n: nat, k: nat)
    requires k < n
    ensures Image(all, n)[k]
            == 0x100_0000 * Pad(all, 4 * k) + 0x1_0000 * Pad(all, 4 * k + 1) + 0x100 * Pad(all, 4 * k + 2) + Pad(all, 4 * k + 3)
  {
  }

  /** Six bytes of payload, zeroes for those missing. */
  lemma SysEx7Numbers(g: nibble, form: nibble, data: bytes)
    requires |data| <= 6
    ensures var w, n := SysEx7Words(g, form, data), |data|;
            && w[0] == 0x3000_0000 + 0x100_0000 * g + 0x10_0000 * form + 0x1_0000 * n + 0x100 * Pad(data, 0) + Pad(data, 1)
            && w[1] == 0x100_0000 * Pad(data, 2) + 0x1_0000 * Pad(data, 3) + 0x100 * Pad(data, 4) + Pad(data, 5)
  {
    hide Image;
    var all: bytes := [0x30 + g, 16 * form + |data|] + data;
    ImageNumber(all, 2, 0);
    ImageNumber(all, 2, 1);
  }

  lemma SysEx8Numbers(g: nibble, form: nibble, stream: byte, data: bytes)
    requires |data| <= 13
    ensures var w, n := SysEx8Words(g, form, stream, data), |data| + 1;
            && w[0] == 0x5000_0000 + 0x100_0000 * g + 0x10_0000 * form + 0x1_0000 * n + 0x100 * stream + Pad(data, 0)
            && w[1] == 0x100_0000 * Pad(data, 1) + 0x1_0000 * Pad(data, 2) + 0x100 * Pad(data, 3) + Pad(data, 4)
            && w[2] == 0x100_0000 * Pad(data, 5) + 0x1_0000 * Pad(data, 6) + 0x100 * Pad(data, 7) + Pad(data, 8)
            && w[3] == 0x100_0000 * Pad(data, 9) + 0x1_0000 * Pad(data, 10) + 0x100 * Pad(data, 11) + Pad(data, 12)
  {
    hide Image;
    var all: bytes := [0x50 + g, 16 * form + |data| + 1, stream] + data;
    ImageNumber(all, 4, 0);
    ImageNumber(all, 4, 1);
    ImageNumber(all, 4, 2);
    ImageNumber(all, 4, 3);
  }

  /** Of any SysEx7 packet: as many bytes as it declares, at most six, their top bits
      cleared. */
  lemma SysEx7Reads(w: seq<word>)
    requires |w| >= 2
    ensures var n, d := w[0] / 0x1_0000 % 16, SysEx7Data(w);
            && |d| == (if n < 6 then n else 6)
            && (n > 0 ==> d[0] == w[0] / 0x100 % 0x80) && (n > 1 ==> d[1] == w[0] % 0x80)
            && (n > 2 ==> d[2] == w[1] / 0x100_0000 % 0x80) && (n > 3 ==> d[3] == w[1] / 0x1_0000 % 0x80)
            && (n > 4 ==> d[4] == w[1] / 0x100 % 0x80) && (n > 5 ==> d[5] == w[1] % 0x80)
  {
    hide SysEx7Data, ByteAt, NumBytes, Mt, Form, Group;
    TypeAndGroup(w[0]);
    LowSevens(w[0]);
    LowSevens(w[1]);
    SevenBytes(w, 0);
    SevenBytes(w, 1);
    SevenBytes(w, 2);
    SevenBytes(w, 3);
    SevenBytes(w, 4);
    SevenBytes(w, 5);
  }

  /** Which message a packet belongs to, and which part of it. */
  lemma PacketKeys(w: seq<word>)
    requires |w| >= 2
    ensures Fragment7(w) == Fragment(w[0] / 0x100_0000 % 16, w[0] / 0x10_0000 % 16, SysEx7Data(w))
    ensures |w| >= 4 ==>
              Fragment8(w) == Fragment(StreamKey(w[0] / 0x100_0000 % 16, w[0] / 0x100 % 0x100), w[0] / 0x10_0000 % 16, SysEx8Data(w))
  {
    hide SysEx7Data, SysEx8Data, Group, Form;
    TypeAndGroup(w[0]);
  }

  lemma SevenBytes(w: seq<word>, i: nat)
    requires |w| >= 2 && i < 6
    ensures |SysEx7Data(w)| == Min(NumBytes(w[0]), 6)
    ensures i < |SysEx7Data(w)| ==> SysEx7Data(w)[i] == ByteAt(w[(2 + i) / 4], (2 + i) % 4) % 0x80
  {
    hide ByteAt, NumBytes;
  }

  lemma LowSevens(w: word)
    ensures ByteAt(w, 0) % 0x80 == w / 0x100_0000 % 0x80 && ByteAt(w, 1) % 0x80 == w / 0x1_0000 % 0x80
    ensures ByteAt(w, 2) % 0x80 == w / 0x100 % 0x80 && ByteAt(w, 3) % 0x80 == w % 0x80
  {
    LowSeven(w / 0x1_0000);
    LowSeven(w / 0x100);
    LowSeven(w);
  }

  /** Of any SysEx8 packet: as many bytes as it declares less the stream id, at most
      thirteen, from the fourth byte on. */
  lemma SysEx8Reads(w: seq<word>, i: nat)
    requires |w| >= 4
    ensures var n, d := w[0] / 0x1_0000 % 16, SysEx8Data(w);
            && |d| == (if n == 0 then 0 else if n < 14 then n - 1 else 13)
            && SysEx8Stream(w[0]) == w[0] / 0x100 % 0x100
            && (i < |d| ==> d[i] == ByteAt(w[(3 + i) / 4], (3 + i) % 4))
  {
    TypeAndGroup(w[0]);
  }

  // ---- The packets of a message ------------------------------------------------------

  /** The i-th packet has the i-th size bytes, and says whether it is the only one (0),
      the first (1), the last (3) or another (2). */
  lemma {:induction false} FragmentAt<K>(key: K, data: bytes, size: nat, from: nat, i: nat)
    requires size > 0 && from <= |data| && i < |FragmentsFrom(key, data, size, from)|
    ensures var at := from + i * size;
            && at < |data|
            && FragmentsFrom(key, data, size, from)[i]
               == Fragment(key, if at == 0 then (if |data| <= size then 0 else 1) else if at + size >= |data| then 3 else 2,
                           data[at..if at + size >= |data| then |data| else at + size])
    decreases i
  {
    hide FragmentsFrom;
    NextFragment(key, data, size, from);
    if i > 0 {
      var next := from + Min(size, |data| - from);
      assert next == |data| ==> FragmentsFrom(key, data, size, next) == [] by { NextFragment(key, data, size, next); }
      StepOn(from, i, size);
      FragmentAt(key, data, size, next, i - 1);
    }
  }

  lemma StepOn(from: nat, i: nat, size: nat)
    requires i > 0 && size > 0
    ensures from + i * size == from + size + (i - 1) * size >= from + size
  {
    assert i * size == size + (i - 1) * size;
  }

  /** A sender tries up to the first refusal, that included. */
  lemma {:induction false} WritesToRefusal<P>(packets: seq<P>, sink: Sink, t: nat)
    ensures var n := Writes(packets, sink, t);
            && n <= |packets| && (forall i :: t <= i < t + n - 1 ==> sink(i))
            && (n < |packets| ==> n > 0 && !sink(t + n - 1))
            && |Accepted(packets, sink, t)| == if n > 0 && !sink(t + n - 1) then n - 1 else n
  {
    if packets != [] && sink(t) {
      WritesToRefusal(packets[1..], sink, t + 1);
    }
  }

  // ---- MIDI-CI headers ------------------------------------------------------------------

  function Digits(d: bytes, p: nat): nat
    requires p + 4 <= |d|
  {
    d[p] as int + 128 * d[p + 1] as int + 16384 * d[p + 2] as int + 2097152 * d[p + 3] as int
  }

  /** A 14-bit field has its low seven bits first, a MUID its four groups of seven. */
  lemma FieldsWritten(v: u14, m: muid)
    ensures Write14(v) == [v % 128, v / 128]
    ensures WriteMuid(m) == [m % 128, m / 128 % 128, m / 16384 % 128, m / 2097152]
  {
    assert v / 128 < 128 && m / 2097152 < 128;
  }

  lemma FieldsRead(d: bytes)
    requires |d| >= 4 && Is7Bit(d)
    ensures Read14(d, 0) == d[0] as int + 128 * d[1] as int && ReadMuid(d, 0) == Digits(d, 0)
  {
    hide ReadMuid;
    MuidDigitsAt(d, 0);
    assert Digit(d[0]) == d[0] && Digit(d[1]) == d[1];
  }

  lemma MuidDigitsAt(d: bytes, p: nat)
    requires p + 4 <= |d| && Is7Bit(d)
    ensures ReadMuid(d, p) == Digits(d, p)
  {
    assert Digit(d[p]) == d[p] && Digit(d[p + 1]) == d[p + 1] && Digit(d[p + 2]) == d[p + 2] && Digit(d[p + 3]) == d[p + 3];
  }

  /** Thirteen bytes: universal SysEx, device, MIDI-CI, sub-id, version, then source
      and destination. */
  lemma HeaderNumbers(h: Header)
    ensures HeaderBytes(h) == [0x7E, h.deviceId, 0x0D, h.subId, h.version] + WriteMuid(h.src) + WriteMuid(h.dst)
    ensures VERSION_2 == 2 && PROFILE_INQUIRY_REPLY == 0x21
    ensures PE_GET == 0x34 && PE_GET_REPLY == 0x35 && PE_SET == 0x36 && PE_SET_REPLY == 0x37 && PE_NOTIFY == 0x3F
  {
  }

  /** The fields of an inbound message, by byte. */
  lemma HeaderReads(d: bytes)
    ensures IsCi(d) <==> |d| >= 13 && d[0] == 0x7E && d[2] == 0x0D
    ensures IsCi(d) ==> HeaderOf(d).deviceId == d[1] && HeaderOf(d).subId == d[3] && HeaderOf(d).version == d[4]
    ensures IsCi(d) && Is7Bit(d) ==>
              && HeaderOf(d).src == Digits(d, 5)
              && HeaderOf(d).dst == Digits(d, 9)
  {
    if IsCi(d) && Is7Bit(d) {
      hide ReadMuid, Is7Bit;
      MuidDigitsAt(d, 5);
      MuidDigitsAt(d, 9);
    }
  }

  // ---- PE frames cut short --------------------------------------------------------------

  /** A built PE frame of which only the first n bytes arrive: a field is read if it
      is there, a block if all of it is; everything behind is 0 or NULL. */
  lemma PeCutShort(h: Header, requestId: byte, header: bytes, numChunks: u14, thisChunk: u14, body: bytes, n: nat)
    requires |header| < 0x4000 && |body| < 0x4000
    requires n <= |PeFrame(h, requestId, header, numChunks, thisChunk, body)|
    ensures var f := PeFields(PeFrame(h, requestId, header, numChunks, thisChunk, body)[..n]);
            var q := 16 + |header|;
            && (n < 14 ==> f == None)
            && (14 <= n < 16 ==> f == Some(PeData(requestId, None, 0, 0, 0, None, 0)))
            && (n >= 16 ==> f.Some? && f.value.requestId == requestId && f.value.headerLen == |header|
                            && f.value.header == (if 0 < |header| <= n - 16 then Some(header) else None)
                            && f.value.numChunks == (if n >= q + 2 then numChunks else 0)
                            && f.value.thisChunk == (if n >= q + 4 then thisChunk else 0)
                            && f.value.bodyLen == (if n >= q + 6 then |body| else 0)
                            && f.value.body == (if n == q + 6 + |body| && body != [] then Some(body) else None))
  {
    hide HeaderBytes, Write14, Read14, PeFrame;
    var d := PeFrame(h, requestId, header, numChunks, thisChunk, body);
    var q, e := 16 + |header|, d[..n];
    PeLayout(h, requestId, header, numChunks, thisChunk, body);
    if n >= 16 {
      assert e[14..16] == d[14..16];
      Read14Back(e, 14, |header|);
      if n >= q { assert e[16..q] == d[16..q]; }
      if n >= q + 2 {
        assert e[q..q + 2] == d[q..q + 2];
        Read14Back(e, q, numChunks);
      }
      if n >= q + 4 {
        assert e[q + 2..q + 4] == d[q + 2..q + 4];
        Read14Back(e, q + 2, thisChunk);
      }
      if n >= q + 6 {
        assert e[q + 4..q + 6] == d[q + 4..q + 6];
        Read14Back(e, q + 4, |body|);
        assert n == |d| ==> e[q + 6..q + 6 + |body|] == d[q + 6..];
      }
    }
  }
}
