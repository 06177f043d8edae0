/** UMP messages and their words (src/midi2_msg.h). Every packet is a header of
    one or two bytes followed by its payload, zero padded, most significant byte
    first; the packet builders are proved to write exactly that image. */
module Ump {
  import opened Words

  const COMPLETE: nibble := 0
  const START: nibble := 1
  const CONTINUE: nibble := 2
  const END: nibble := 3

  const MT_UTILITY: nibble := 0
  const MT_SYSTEM: nibble := 1
  const MT_MIDI1_CV: nibble := 2
  const MT_SYSEX7: nibble := 3
  const MT_DATA128: nibble := 5
  const MT_STREAM: nibble := 15

  // ---- Images --------------------------------------------------------------

  function Pad(data: bytes, i: nat): byte {
    if i < |data| then data[i] else 0
  }

  /** The n words whose bytes are all, zero padded. */
  function Image(all: bytes, n: nat): (w: seq<word>)
    ensures |w| == n
  {
    seq(n, k requires 0 <= k < n =>
      Be(Pad(all, 4 * k), Pad(all, 4 * k + 1), Pad(all, 4 * k + 2), Pad(all, 4 * k + 3)))
  }

  lemma ImageByte(all: bytes, n: nat, q: nat)
    requires q < 4 * n
    ensures ByteAt(Image(all, n)[q / 4], q % 4) == Pad(all, q)
  {
    var k := q / 4;
    BytesOfBe(Pad(all, 4 * k), Pad(all, 4 * k + 1), Pad(all, 4 * k + 2), Pad(all, 4 * k + 3));
  }

  /** ORing the next byte into its place extends the image by that byte. */
  lemma ImageAppend(all: bytes, n: nat, v: byte)
    requires |all| < 4 * n
    ensures var q := |all|; var w := Image(all, n);
            w[q / 4 := OrWord(w[q / 4], Shl(v, 24 - 8 * (q % 4)))] == Image(all + [v], n)
  {
    var q, w := |all|, Image(all, n);
    var k, more := q / 4, all + [v];
    var r := OrWord(w[k], Shl(v, 24 - 8 * (q % 4)));
    OrAtPlace(Pad(all, 4 * k), Pad(all, 4 * k + 1), Pad(all, 4 * k + 2), Pad(all, 4 * k + 3), v, q % 4);
    assert r == Image(more, n)[k];
    forall j | 0 <= j < n
      ensures w[k := r][j] == Image(more, n)[j]
    {
      assert j > k ==> 4 * j > q;
      assert j < k ==> 4 * j + 3 < q;
    }
  }

  lemma OrAtPlace(b0: byte, b1: byte, b2: byte, b3: byte, v: byte, j: nat)
    requires j < 4
    requires [b0, b1, b2, b3][j] == 0
    ensures OrWord(Be(b0, b1, b2, b3), Shl(v, 24 - 8 * j))
            == Be(if j == 0 then v else b0, if j == 1 then v else b1,
                  if j == 2 then v else b2, if j == 3 then v else b3)
  {
    hide Or;
    OrZero(b0);
    OrZero(b1);
    OrZero(b2);
    OrZero(b3);
    OrZero(v);
    OrBe(b0, b1, b2, b3, if j == 0 then v else 0, if j == 1 then v else 0,
         if j == 2 then v else 0, if j == 3 then v else 0);
  }

  lemma OrNibbles(hi: nibble, lo: nibble)
    ensures Or(16 * hi, lo) == 16 * hi + lo
  {
    hide Or;
    OrZero(hi);
    OrZero(lo);
    OrBase16(hi, 0, 0, lo);
  }

  // ---- Messages ------------------------------------------------------------

  /** The messages the converter and the senders produce. The form of a
      fragment is one of COMPLETE, START, CONTINUE and END. */
  datatype Message =
    | System(group: nibble, status: byte, d1: byte, d2: byte)
    | Voice(group: nibble, status: byte, d1: byte, d2: byte)
    | SysEx7(group: nibble, form: nibble, data: bytes)
    | SysEx8(group: nibble, form: nibble, stream: byte, data: bytes)
  {
    predicate Valid() {
      && (SysEx7? ==> form <= END && |data| <= 6 && Is7Bit(data))
      && (SysEx8? ==> form <= END && |data| <= 13)
    }

    function Words(): seq<word> {
      match this
      case System(g, st, d1, d2) => Image([0x10 + g, st, d1, d2], 1)
      case Voice(g, st, d1, d2) => Image([0x20 + g, st, d1 % 0x80, d2 % 0x80], 1)
      case SysEx7(g, f, d) => SysEx7Words(g, f, d)
      case SysEx8(g, f, s, d) => SysEx8Words(g, f, s, d)
    }
  }

  function SysEx7Words(group: nibble, form: nibble, data: bytes): seq<word> {
    Image([0x30 + group, 16 * form + |data| % 16] + data, 2)
  }

  function SysEx8Words(group: nibble, form: nibble, stream: byte, data: bytes): seq<word> {
    Image([0x50 + group, 16 * form + (|data| + 1) % 16, stream] + data, 4)
  }

  // ---- Reading a message (midi2_msg.h:165-175, midi2_proc.c:66-76, 122-143) -

  function WordCount(mt: nibble): nat {
    [1, 1, 1, 2, 2, 4, 1, 1, 2, 2, 2, 3, 3, 4, 4, 4][mt]
  }

  function Mt(w: word): nibble {
    ByteAt(w, 0) / 16
  }

  function Group(w: word): nibble {
    ByteAt(w, 0) % 16
  }

  function Form(w: word): nibble {
    ByteAt(w, 1) / 16
  }

  function NumBytes(w: word): nibble {
    ByteAt(w, 1) % 16
  }

  /** The n bytes of a packet from byte position p on. */
  function Payload(w: seq<word>, p: nat, n: nat): (data: bytes)
    requires p + n <= 4 * |w|
    ensures |data| == n
  {
    seq<byte>(n, i requires 0 <= i < n => ByteAt(w[(p + i) / 4], (p + i) % 4))
  }

  function Mask7(data: bytes): (r: bytes)
    ensures |r| == |data| && Is7Bit(r)
    ensures Is7Bit(data) ==> r == data
  {
    seq(|data|, i requires 0 <= i < |data| => data[i] % 0x80)
  }

  /** The payload bytes of a SysEx7 packet: as many as it declares, at most six. */
  function SysEx7Data(w: seq<word>): (data: bytes)
    requires |w| >= 2
    ensures |data| <= 6 && Is7Bit(data)
  {
    Mask7(Payload(w, 2, Min(NumBytes(w[0]), 6)))
  }

  function SysEx8Stream(w: word): byte {
    ByteAt(w, 2)
  }

  /** The payload bytes of a SysEx8 packet; the declared count includes the stream id. */
  function SysEx8Data(w: seq<word>): (data: bytes)
    requires |w| >= 4
    ensures |data| <= 13
  {
    var n := NumBytes(w[0]);
    Payload(w, 3, if n > 1 then Min(n - 1, 13) else 0)
  }

  lemma PayloadOfImage(all: bytes, n: nat, p: nat, len: nat)
    requires p + len <= 4 * n
    ensures p + len <= |all| ==> Payload(Image(all, n), p, len) == all[p..p + len]
    ensures forall i :: 0 <= i < len ==> Payload(Image(all, n), p, len)[i] == Pad(all, p + i)
  {
    hide Image, ByteAt, Payload;
    var data := Payload(Image(all, n), p, len);
    forall i | 0 <= i < len
      ensures data[i] == Pad(all, p + i)
    {
      ImageByte(all, n, p + i);
      PayloadAt(Image(all, n), p, len, i);
    }
    if p + len <= |all| {
      assert forall i :: 0 <= i < len ==> data[i] == all[p..p + len][i];
    }
  }

  lemma PayloadAt(w: seq<word>, p: nat, n: nat, i: nat)
    requires p + n <= 4 * |w| && i < n
    ensures Payload(w, p, n)[i] == ByteAt(w[(p + i) / 4], (p + i) % 4)
  {
  }

  lemma HeaderOfImage(all: bytes, n: nat)
    requires n >= 1 && |all| >= 2
    ensures var w := Image(all, n)[0];
            && Mt(w) == all[0] / 16 && Group(w) == all[0] % 16
            && Form(w) == all[1] / 16 && NumBytes(w) == all[1] % 16
  {
    ImageByte(all, n, 0);
    ImageByte(all, n, 1);
  }

  lemma SysEx7Unpack(group: nibble, form: nibble, data: bytes)
    requires |data| <= 6 && Is7Bit(data)
    ensures var w := SysEx7Words(group, form, data);
            && Mt(w[0]) == MT_SYSEX7 && Group(w[0]) == group && Form(w[0]) == form
            && SysEx7Data(w) == data
  {
    hide Image, Payload, ByteAt;
    var all: bytes := [0x30 + group, 16 * form + |data| % 16] + data;
    HeaderOfImage(all, 2);
    PayloadOfImage(all, 2, 2, |data|);
    assert all[2..2 + |data|] == data;
  }

  lemma SysEx8Unpack(group: nibble, form: nibble, stream: byte, data: bytes)
    requires |data| <= 13
    ensures var w := SysEx8Words(group, form, stream, data);
            && Mt(w[0]) == MT_DATA128 && Group(w[0]) == group && Form(w[0]) == form
            && SysEx8Stream(w[0]) == stream && SysEx8Data(w) == data
  {
    hide Image, Payload;
    var all: bytes := [0x50 + group, 16 * form + (|data| + 1) % 16, stream] + data;
    HeaderOfImage(all, 4);
    ImageByte(all, 4, 2);
    PayloadOfImage(all, 4, 3, |data|);
    assert all[3..3 + |data|] == data;
  }

  // ---- Packet builders (midi2_msg.h:419-432, 667-680, 996-1017, 1081-1088) --

  lemma HeaderOr(mt: nibble, low: nibble, second: byte)
    ensures OrWord(OrWord(Shl(16 * mt, 24), Shl(low, 24)), Shl(second, 16)) == Be(16 * mt + low, second, 0, 0)
  {
    hide Or;
    OrZero(0);
    OrZero(second);
    OrNibbles(mt, low);
    OrBe(16 * mt, 0, 0, 0, low, 0, 0, 0);
    OrAtPlace(16 * mt + low, 0, 0, 0, second, 1);
  }

  lemma OrTwoData(b0: byte, b1: byte, d1: byte, d2: byte)
    ensures [OrWord(OrWord(Be(b0, b1, 0, 0), Shl(d1, 8)), Shl(d2, 0))] == Image([b0, b1, d1, d2], 1)
  {
    OrAtPlace(b0, b1, 0, 0, d1, 2);
    OrAtPlace(b0, b1, d1, 0, d2, 3);
  }

  method SystemWord(group: byte, status: byte, d1: byte, d2: byte) returns (w: word)
    ensures [w] == System(group % 16, status, d1, d2).Words()
  {
    hide Image, OrWord;
    w := OrWord(OrWord(OrWord(OrWord(Shl(0x10, 24), Shl(group % 16, 24)), Shl(status, 16)), Shl(d1, 8)), Shl(d2, 0));
    HeaderOr(1, group % 16, status);
    OrTwoData(0x10 + group % 16, status, d1, d2);
  }

  method VoiceWord(group: byte, status: byte, d1: byte, d2: byte) returns (w: word)
    ensures [w] == Voice(group % 16, status, d1, d2).Words()
  {
    hide Image, OrWord;
    w := OrWord(OrWord(OrWord(OrWord(Shl(0x20, 24), Shl(group % 16, 24)), Shl(status, 16)), Shl(d1 % 0x80, 8)), Shl(d2 % 0x80, 0));
    HeaderOr(2, group % 16, status);
    OrTwoData(0x20 + group % 16, status, d1 % 0x80, d2 % 0x80);
  }

  /** w[wi] |= v << sh, where that is the place of the next byte. */
  method OrInto(w: array<word>, n: nat, wi: nat, v: byte, sh: nat, ghost all: bytes)
    requires n <= w.Length && |all| < 4 * n && wi == |all| / 4 && sh == 24 - 8 * (|all| % 4)
    requires w[..n] == Image(all, n)
    modifies w
    ensures w[..n] == Image(all + [v], n) && w[n..] == old(w[n..])
  {
    ImageAppend(all, n, v);
    assert w[wi] == Image(all, n)[wi];
    w[wi] := OrWord(w[wi], Shl(v, sh));
  }

  /** Zero the packet and write its first half word: message type, group, second byte. */
  method Header(w: array<word>, n: nat, mt: nibble, group: byte, second: byte)
    requires 1 <= n <= w.Length
    modifies w
    ensures w[..n] == Image([16 * mt + group % 16, second], n) && w[n..] == old(w[n..])
  {
    hide OrWord, Shl, Image, Be;
    forall i | 0 <= i < n { w[i] := 0; }
    w[0] := OrWord(OrWord(Shl(16 * mt, 24), Shl(group % 16, 24)), Shl(second, 16));
    HeaderOr(mt, group % 16, second);
    HeaderImage(16 * mt + group % 16, second, n);
  }

  lemma HeaderImage(first: byte, second: byte, n: nat)
    requires n >= 1
    ensures var w := Image([first, second], n);
            w[0] == Be(first, second, 0, 0) && forall k :: 1 <= k < n ==> w[k] == 0
  {
  }

  /** Where the source puts the i-th data byte of a SysEx7 packet, behind two bytes
      of header. */
  lemma NextPlace(i: nat)
    requires i < 6
    ensures (2 + i) / 4 == if i < 2 then 0 else 1
    ensures 24 - 8 * ((2 + i) % 4) == if i < 2 then 8 - i * 8 else 24 - (i - 2) * 8
  {
  }

  method SysEx7Packet(w: array<word>, group: byte, status: byte, data: bytes)
    requires w.Length >= 2 && status % 16 == 0
    modifies w
    ensures w[..2] == SysEx7Words(group % 16, status / 16, data[..Min(|data|, 6)])
    ensures w[2..] == old(w[2..])
  {
    hide Image, Or, OrWord, Shl;
    var len: byte := if |data| > 6 then 6 else |data|;
    OrNibbles(status / 16, len);
    Header(w, 2, MT_SYSEX7, group, Or(status, len));
    ghost var head: bytes := [0x30 + group % 16, status + len];
    assert head == head + data[..0];
    var i := 0;
    while i < len
      invariant 0 <= i <= len
      invariant w[..2] == Image(head + data[..i], 2)
      invariant w[2..] == old(w[2..])
    {
      var wi := if i < 2 then 0 else 1;
      var sh := if i < 2 then 8 - i * 8 else 24 - (i - 2) * 8;
      NextPlace(i);
      OrInto(w, 2, wi, data[i], sh, head + data[..i]);
      assert head + data[..i + 1] == head + data[..i] + [data[i]];
      i := i + 1;
    }
  }

  method SysEx8Packet(w: array<word>, group: byte, status: byte, stream: byte, data: bytes)
    requires w.Length == 4 && status % 16 == 0
    modifies w
    ensures w[..] == SysEx8Words(group % 16, status / 16, stream, data[..Min(|data|, 13)])
  {
    hide Image, Or, OrWord;
    var len: byte := if |data| > 13 then 13 else |data|;
    var numBytes: byte := len + 1;
    OrNibbles(status / 16, numBytes);
    Header(w, 4, MT_DATA128, group, Or(status, numBytes));
    ghost var head: bytes := [0x50 + group % 16, status + numBytes];
    OrInto(w, 4, 0, stream, 8, head);
    head := [0x50 + group % 16, 16 * (status / 16) + (len + 1) % 16, stream];
    assert w[..4] == Image(head + data[..0], 4) by {
      assert head == [0x50 + group % 16, status + numBytes] + [stream] == head + data[..0];
    }
    var i := 0;
    if len >= 1 {
      OrInto(w, 4, 0, data[0], 0, head + data[..0]);
      assert head + data[..1] == head + data[..0] + [data[0]];
      i := 1;
    }
    while i < len
      invariant 0 <= i <= len && (len >= 1 ==> i >= 1)
      invariant w[..4] == Image(head + data[..i], 4)
    {
      OrInto(w, 4, 1 + (i - 1) / 4, data[i], 24 - (i - 1) % 4 * 8, head + data[..i]);
      assert head + data[..i + 1] == head + data[..i] + [data[i]];
      i := i + 1;
    }
    assert w[..] == w[..4];
  }
}
