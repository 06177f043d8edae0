/** UMP Stream text: Endpoint Name, Product Instance Id and Function Block Name
    (src/midi2_proc.c:313-408, src/midi2_msg.h:908-965), and what the dispatcher
    delivers for them (src/midi2_dispatch.c:474-515). */
module StreamText {
  import opened Words
  import opened Ump
  import opened Reassembly
  import opened Senders
  import WireFormat

  const ENDPOINT_NAME: byte := 0x03
  const PRODUCT_INSTANCE_ID: byte := 0x04
  const FB_NAME: byte := 0x12

  const TEXT_BYTES_PER_UMP := 14
  const TEXT_MAX_BYTES := 98
  const FB_BYTES_PER_UMP := 13
  const FB_MAX_BYTES := 91

  // ---- Packets -------------------------------------------------------------

  /** body follows the two header bytes; for a Function Block name it begins with
      the block's number. */
  function StreamWords(form: nibble, status: byte, body: bytes): seq<word>
    requires form <= END
  {
    Image([0xF0 + 4 * form, status] + body, 4)
  }

  /** Type 15, the form, the status and up to fourteen bytes, zeroes for those missing. */
  lemma StreamNumbers(form: nibble, status: byte, body: bytes)
    requires form <= END
    ensures var w := StreamWords(form, status, body);
            && |w| == 4
            && w[0] == 0xF000_0000 + 0x400_0000 * form + 0x1_0000 * status + 0x100 * Pad(body, 0) + Pad(body, 1)
            && w[1] == 0x100_0000 * Pad(body, 2) + 0x1_0000 * Pad(body, 3) + 0x100 * Pad(body, 4) + Pad(body, 5)
            && w[2] == 0x100_0000 * Pad(body, 6) + 0x1_0000 * Pad(body, 7) + 0x100 * Pad(body, 8) + Pad(body, 9)
            && w[3] == 0x100_0000 * Pad(body, 10) + 0x1_0000 * Pad(body, 11) + 0x100 * Pad(body, 12) + Pad(body, 13)
  {
    hide Image;
    var all: bytes := [0xF0 + 4 * form, status] + body;
    WireFormat.ImageNumber(all, 4, 0);
    WireFormat.ImageNumber(all, 4, 1);
    WireFormat.ImageNumber(all, 4, 2);
    WireFormat.ImageNumber(all, 4, 3);
  }

  lemma StreamHeaderOr(form: nibble)
    requires form <= END
    ensures Or(0xF0, 4 * form) == 0xF0 + 4 * form
  {
    OrNibbles(15, 4 * form);
  }

  method StreamHeader(w: array<word>, form: nibble, status: byte)
    requires w.Length == 4 && form <= END
    modifies w
    ensures w[..4] == Image([0xF0 + 4 * form, status], 4)
  {
    hide Or;
    StreamHeaderOr(form);
    forall i | 0 <= i < 4 { w[i] := 0; }
    w[0] := OrWord(Shl(Or(0xF0, 4 * form), 24), Shl(status, 16));
    OrAtPlace(0xF0 + 4 * form, 0, 0, 0, status, 1);
  }

  /** midi2_msg_stream_endpoint_name and midi2_msg_stream_product_id. */
  method BuildText(w: array<word>, form: nibble, status: byte, data: bytes)
    requires w.Length == 4 && form <= END
    modifies w
    ensures w[..4] == StreamWords(form, status, data[..Min(|data|, 14)])
  {
    hide Image;
    var len := if |data| > 14 then 14 else |data|;
    StreamHeader(w, form, status);
    ghost var head: bytes := [0xF0 + 4 * form, status];
    assert head + data[..0] == head;
    var i := 0;
    while i < len
      invariant 0 <= i <= len
      invariant w[..4] == Image(head + data[..i], 4)
    {
      if i < 2 {
        OrInto(w, 4, 0, data[i], 8 - i * 8, head + data[..i]);
      } else {
        var offset := i - 2;
        OrInto(w, 4, 1 + offset / 4, data[i], 24 - offset % 4 * 8, head + data[..i]);
      }
      assert head + data[..i + 1] == head + data[..i] + [data[i]];
      i := i + 1;
    }
  }

  /** midi2_msg_stream_fb_name. */
  method BuildFbName(w: array<word>, form: nibble, fb: byte, data: bytes)
    requires w.Length == 4 && form <= END
    modifies w
    ensures w[..4] == StreamWords(form, FB_NAME, [fb] + data[..Min(|data|, 13)])
  {
    hide Image;
    var len := if |data| > 13 then 13 else |data|;
    StreamHeader(w, form, FB_NAME);
    ghost var head: bytes := [0xF0 + 4 * form, FB_NAME];
    OrInto(w, 4, 0, fb, 8, head);
    head := head + [fb];
    assert head + data[..0] == head;
    var i := 0;
    while i < len
      invariant 0 <= i <= len
      invariant w[..4] == Image(head + data[..i], 4)
    {
      if i == 0 {
        OrInto(w, 4, 0, data[0], 0, head + data[..i]);
      } else {
        var offset := i - 1;
        OrInto(w, 4, 1 + offset / 4, data[i], 24 - offset % 4 * 8, head + data[..i]);
      }
      assert head + data[..i + 1] == head + data[..i] + [data[i]];
      i := i + 1;
    }
    assert [0xF0 + 4 * form, FB_NAME] + ([fb] + data[..len]) == head + data[..len];
  }

  // ---- Senders -------------------------------------------------------------

  function StreamPackets(status: byte, prefix: bytes, fs: seq<Fragment<byte>>): (r: seq<seq<word>>)
    requires forall f :: f in fs ==> f.form <= END
    ensures |r| == |fs| && forall w :: w in r ==> |w| == 4
  {
    seq(|fs|, i requires 0 <= i < |fs| => StreamWords(fs[i].form, status, prefix + fs[i].data))
  }

  function TextPackets(status: byte, prefix: bytes, text: bytes, size: nat, offset: nat): (r: seq<seq<word>>)
    requires size > 0 && offset <= |text|
  {
    FragmentsFit(status, text, size, offset);
    StreamPackets(status, prefix, FragmentsFrom(status, text, size, offset))
  }

  lemma NextTextPacket(status: byte, prefix: bytes, text: bytes, size: nat, offset: nat)
    requires size > 0 && offset <= |text|
    ensures offset == |text| ==> TextPackets(status, prefix, text, size, offset) == []
    ensures offset < |text| ==>
              var next := offset + Min(size, |text| - offset);
              TextPackets(status, prefix, text, size, offset)
              == [StreamWords(FormOf(offset == 0, next == |text|), status, prefix + text[offset..next])]
                 + TextPackets(status, prefix, text, size, next)
  {
    hide StreamWords;
    FragmentsFit(status, text, size, offset);
    NextFragment(status, text, size, offset);
  }

  /** name[i], with the NUL after the last byte. */
  function CharAt(name: bytes, i: nat): byte
    requires i <= |name|
  {
    if i < |name| then name[i] else 0
  }

  method Bounded(name: bytes, max: nat) returns (total: nat)
    requires NulFree(name)
    ensures total == Min(|name|, max)
  {
    total := 0;
    while CharAt(name, total) != 0 && total < max
      invariant total <= |name| && total <= max
      decreases max - total
    {
      total := total + 1;
    }
  }

  /** stream_text_emit, for the endpoint name and the product id. */
  method SendText(status: byte, name: bytes, port: Port)
    requires NulFree(name) && (status == 3 || status == 4)
    modifies port
    ensures var packets := TextPackets(status, [], name[..Min(|name|, 98)], 14, 0);
            && port.wire == old(port.wire) + Accepted(packets, port.sink, old(port.writes))
            && port.writes == old(port.writes) + Writes(packets, port.sink, old(port.writes))
  {
    hide Owed, StreamWords, TextPackets, Accepted, Writes, Image;
    var total := Bounded(name, TEXT_MAX_BYTES);
    var text := name[..total];
    ghost var packets, wire, t := TextPackets(status, [], text, 14, 0), port.wire, port.writes;
    Begin(packets, port);
    var offset := 0;
    while offset < total
      invariant 0 <= offset <= total
      invariant Owed(packets, wire, t, TextPackets(status, [], text, 14, offset), port)
    {
      var remaining := total - offset;
      var n := if remaining > 14 then 14 else remaining;
      var form := StreamForm(offset == 0, remaining <= 14);
      NextTextPacket(status, [], text, 14, offset);
      var w := TextPacket(form, status, text[offset..offset + n]);
      assert [] + text[offset..offset + n] == text[offset..offset + n];
      var sent := WritePacket(w, port, packets, wire, t, TextPackets(status, [], text, 14, offset + n));
      if sent < 4 {
        Settled(packets, wire, t, port);
        return;
      }
      offset := offset + n;
    }
    NextTextPacket(status, [], text, 14, total);
    Settled(packets, wire, t, port);
  }

  method TextPacket(form: nibble, status: byte, data: bytes) returns (w: seq<word>)
    requires form <= END && |data| <= 14
    ensures w == StreamWords(form, status, data) && |w| == 4
  {
    hide StreamWords;
    var msg := new word[4];
    BuildText(msg, form, status, data);
    assert data[..Min(|data|, 14)] == data && msg[..] == msg[..4];
    w := msg[..];
  }

  /** The words midi2_proc_send_fb_name packs by hand: the same words as
      midi2_msg_stream_fb_name (BuildFbName above). */
  method PackFbName(form: nibble, fb: byte, p: bytes) returns (w: seq<word>)
    requires form <= END && |p| <= 13
    ensures w == StreamWords(form, FB_NAME, [fb] + p) && |w| == 4
  {
    hide Image;
    var msg := new word[4];
    StreamHeader(msg, form, FB_NAME);
    ghost var head: bytes := [0xF0 + 4 * form, FB_NAME];
    OrInto(msg, 4, 0, fb, 8, head);
    head := head + [fb];
    assert head + p[..0] == head;
    var i := 0;
    if |p| > 0 {
      OrInto(msg, 4, 0, p[0], 0, head + p[..0]);
      assert head + p[..1] == head + p[..0] + [p[0]];
      i := 1;
    }
    while i < |p|
      invariant 0 <= i <= |p| && (|p| > 0 ==> i > 0)
      invariant msg[..4] == Image(head + p[..i], 4)
    {
      OrInto(msg, 4, 1 + (i - 1) / 4, p[i], 24 - (i - 1) % 4 * 8, head + p[..i]);
      assert head + p[..i + 1] == head + p[..i] + [p[i]];
      i := i + 1;
    }
    assert [0xF0 + 4 * form, FB_NAME] + ([fb] + p) == head + p[..i] && msg[..] == msg[..4];
    w := msg[..];
  }

  /** midi2_proc_send_fb_name. */
  method SendFbName(fb: byte, name: bytes, port: Port)
    requires NulFree(name)
    modifies port
    ensures var packets := TextPackets(0x12, [fb], name[..Min(|name|, 91)], 13, 0);
            && port.wire == old(port.wire) + Accepted(packets, port.sink, old(port.writes))
            && port.writes == old(port.writes) + Writes(packets, port.sink, old(port.writes))
  {
    hide Owed, StreamWords, TextPackets, Accepted, Writes, Image;
    var total := Bounded(name, FB_MAX_BYTES);
    var text := name[..total];
    ghost var packets, wire, t := TextPackets(FB_NAME, [fb], text, 13, 0), port.wire, port.writes;
    Begin(packets, port);
    var offset := 0;
    while offset < total
      invariant 0 <= offset <= total
      invariant Owed(packets, wire, t, TextPackets(FB_NAME, [fb], text, 13, offset), port)
    {
      var remaining := total - offset;
      var n := if remaining > 13 then 13 else remaining;
      var form := StreamForm(offset == 0, remaining <= 13);
      NextTextPacket(FB_NAME, [fb], text, 13, offset);
      var w := PackFbName(form, fb, text[offset..offset + n]);
      var sent := WritePacket(w, port, packets, wire, t, TextPackets(FB_NAME, [fb], text, 13, offset + n));
      if sent < 4 {
        Settled(packets, wire, t, port);
        return;
      }
      offset := offset + n;
    }
    NextTextPacket(FB_NAME, [fb], text, 13, total);
    Settled(packets, wire, t, port);
  }

  // ---- The dispatcher ------------------------------------------------------

  /** Without its trailing zero bytes. */
  function Trim(data: bytes): bytes {
    if data == [] || data[|data| - 1] != 0 then data else Trim(data[..|data| - 1])
  }

  function StreamFormOf(w: word): nibble {
    w / 0x400_0000 % 4
  }

  function StreamStatusOf(w: word): nat {
    w / 0x1_0000 % 0x400
  }

  /** What the dispatcher delivers: status and form, the Function Block number where
      there is one, and the text. */
  datatype Text = Text(status: nat, form: nibble, prefix: bytes, data: bytes)

  function TextBehind(w: seq<word>, prefixLen: nat): Text
    requires |w| == 4 && prefixLen <= 1
  {
    var form := StreamFormOf(w[0]);
    var data := Payload(w, 2 + prefixLen, 14 - prefixLen);
    Text(StreamStatusOf(w[0]), form, Payload(w, 2, prefixLen), if form == COMPLETE || form == END then Trim(data) else data)
  }

  /** For a UMP Stream message: its text, if it is one of the three that have one. */
  function Dispatched(w: seq<word>): Option<Text>
    requires |w| == 4
  {
    var status := StreamStatusOf(w[0]);
    if status == 3 || status == 4 then Some(TextBehind(w, 0))
    else if status == 0x12 then Some(TextBehind(w, 1))
    else None
  }

  /** dispatch_stream, as far as text goes. */
  method DispatchStream(w: seq<word>) returns (text: Option<Text>)
    requires |w| == 4
    ensures text == Dispatched(w)
  {
    var status := StreamStatusOf(w[0]);
    if status == ENDPOINT_NAME || status == PRODUCT_INSTANCE_ID {
      var t := DispatchText(w, 0);
      return Some(t);
    } else if status == FB_NAME {
      var t := DispatchText(w, 1);
      return Some(t);
    }
    return None;
  }

  method DispatchText(w: seq<word>, prefixLen: nat) returns (text: Text)
    requires |w| == 4 && prefixLen <= 1
    ensures text == TextBehind(w, prefixLen)
  {
    hide Payload, StreamFormOf, StreamStatusOf;
    var form := StreamFormOf(w[0]);
    var data := Payload(w, 2 + prefixLen, 14 - prefixLen);
    var len := |data|;
    assert data[..len] == data;
    if form == COMPLETE || form == END {
      while len > 0 && data[len - 1] == 0
        invariant 0 <= len <= |data|
        invariant Trim(data[..len]) == Trim(data)
      {
        assert data[..len][..len - 1] == data[..len - 1];
        len := len - 1;
      }
    }
    text := Text(StreamStatusOf(w[0]), form, Payload(w, 2, prefixLen), data[..len]);
  }

  lemma {:induction false} TrimZeros(data: bytes, all: bytes)
    requires NulFree(data) && |data| <= |all| && all[..|data|] == data
    requires forall i :: |data| <= i < |all| ==> all[i] == 0
    ensures Trim(all) == data
    decreases |all|
  {
    if |all| > |data| {
      var shorter := all[..|all| - 1];
      assert shorter[..|data|] == data;
      TrimZeros(data, shorter);
    } else {
      assert all == data;
    }
  }

  /** A packet of a name is delivered with its status, form, block number and text. */
  lemma DispatchPacket(form: nibble, status: byte, prefix: bytes, data: bytes)
    requires form <= END && |prefix| <= 1 && |prefix + data| <= 14 && NulFree(data)
    requires form == START || form == CONTINUE ==> |prefix + data| == 14
    ensures var w := StreamWords(form, status, prefix + data);
            && |w| == 4 && StreamFormOf(w[0]) == form && TextBehind(w, |prefix|) == Text(status, form, prefix, data)
            && (Carries(status, prefix) ==> Dispatched(w) == Some(Text(status, form, prefix, data)))
  {
    hide Image, Payload, StreamFormOf, StreamStatusOf, NulFree, Trim, Pad, ByteAt, Is7Bit;
    var n := |prefix|;
    var all: bytes := [0xF0 + 4 * form, status] + (prefix + data);
    assert StreamWords(form, status, prefix + data) == Image(all, 4);
    HeaderOfForm(form, status, prefix + data);
    assert all[2..2 + n] == prefix && all[2 + n..] == data;
    PayloadOfImage(all, 4, 2, n);
    BodyOfPacket(all, n, data);
    TrimBody(Payload(Image(all, 4), 2 + n, 14 - n), data);
  }

  /** Endpoint Name (3) and Product Instance Id (4), or Function Block Name (0x12) with
      the block's number. */
  predicate Carries(status: byte, prefix: bytes) {
    if |prefix| == 1 then status == 0x12 else prefix == [] && (status == 3 || status == 4)
  }

  lemma TrimBody(body: bytes, data: bytes)
    requires NulFree(data) && |data| <= |body| && body[..|data|] == data
    requires forall i :: |data| <= i < |body| ==> body[i] == 0
    ensures Trim(body) == data && (|data| == |body| ==> body == data)
  {
    TrimZeros(data, body);
    assert body[..|body|] == body;
  }

  lemma BodyOfPacket(all: bytes, n: nat, data: bytes)
    requires n <= 1 && |all| == 2 + n + |data| <= 16 && all[2 + n..] == data
    ensures var body := Payload(Image(all, 4), 2 + n, 14 - n);
            body[..|data|] == data && forall i :: |data| <= i < 14 - n ==> body[i] == 0
  {
    hide Image, Payload;
    PayloadOfImage(all, 4, 2 + n, 14 - n);
    forall i | 0 <= i < |data|
      ensures all[2 + n + i] == data[i]
    {
      assert all[2 + n..][i] == data[i];
    }
  }

  lemma HeaderOfForm(form: nibble, status: byte, body: bytes)
    requires form <= END
    ensures var w := StreamWords(form, status, body);
            |w| == 4 && StreamFormOf(w[0]) == form && StreamStatusOf(w[0]) == status
  {
    hide StreamWords, Pad;
    StreamNumbers(form, status, body);
    HeaderDigits(form, status, 0x100 * Pad(body, 0) + Pad(body, 1));
  }

  lemma HeaderDigits(form: nibble, status: byte, low: nat)
    requires form <= END && low < 0x1_0000
    ensures var w := 0xF000_0000 + 0x400_0000 * form + 0x1_0000 * status + low;
            w / 0x400_0000 % 4 == form && w / 0x1_0000 % 0x400 == status
  {
    var w := 0xF000_0000 + 0x400_0000 * form + 0x1_0000 * status + low;
    assert w / 0x1_0000 == 0x400 * (60 + form) + status;
    assert w / 0x400_0000 == 60 + form;
  }

  // ---- Round trip ----------------------------------------------------------

  function Joined(ws: seq<seq<word>>, prefixLen: nat): bytes
    requires prefixLen <= 1 && forall w :: w in ws ==> |w| == 4
  {
    if ws == [] then [] else TextBehind(ws[0], prefixLen).data + Joined(ws[1..], prefixLen)
  }

  /** Complete by itself, or Start, any number of Continue, End. */
  predicate ValidRun(ws: seq<seq<word>>, isFirst: bool)
    requires forall w :: w in ws ==> |w| == 4
  {
    ws == [] || (StreamFormOf(ws[0][0]) == FormOf(isFirst, |ws| == 1) && ValidRun(ws[1..], false))
  }

  /** The packets of text behind a prefix fill a packet's 14 payload bytes. */
  function Packets(status: byte, prefix: bytes, text: bytes, offset: nat): (r: seq<seq<word>>)
    requires |prefix| <= 1 && offset <= |text|
    ensures forall w :: w in r ==> |w| == 4
  {
    TextPackets(status, prefix, text, 14 - |prefix|, offset)
  }

  lemma NextPackets(status: byte, prefix: bytes, text: bytes, offset: nat)
    requires |prefix| <= 1 && NulFree(text) && offset < |text|
    ensures var next := offset + Min(14 - |prefix|, |text| - offset);
            var ws := Packets(status, prefix, text, offset);
            && ws != [] && ws[1..] == Packets(status, prefix, text, next)
            && StreamFormOf(ws[0][0]) == FormOf(offset == 0, |ws| == 1)
            && TextBehind(ws[0], |prefix|).data == text[offset..next]
            && (Carries(status, prefix) ==> Dispatched(ws[0]) == Some(Text(status, FormOf(offset == 0, |ws| == 1), prefix, text[offset..next])))
  {
    hide StreamWords, TextPackets, Dispatched, TextBehind, StreamFormOf, NulFree, Carries;
    var size := 14 - |prefix|;
    var next := offset + Min(size, |text| - offset);
    NextTextPacket(status, prefix, text, size, offset);
    NextTextPacket(status, prefix, text, size, next);
    NulFreePart(text, offset, next);
    DispatchPacket(FormOf(offset == 0, next == |text|), status, prefix, text[offset..next]);
  }

  lemma NulFreePart(text: bytes, i: nat, j: nat)
    requires NulFree(text) && i <= j <= |text|
    ensures NulFree(text[i..j])
  {
  }

  lemma NoPackets(status: byte, prefix: bytes, text: bytes)
    requires |prefix| <= 1
    ensures Packets(status, prefix, text, |text|) == []
  {
    NextTextPacket(status, prefix, text, 14 - |prefix|, |text|);
  }

  lemma {:induction false} PacketsRun(status: byte, prefix: bytes, text: bytes, offset: nat)
    requires |prefix| <= 1 && NulFree(text) && offset <= |text|
    ensures ValidRun(Packets(status, prefix, text, offset), offset == 0)
    decreases |text| - offset
  {
    hide Packets, StreamFormOf, NulFree, Dispatched, TextBehind;
    if offset < |text| {
      NextPackets(status, prefix, text, offset);
      PacketsRun(status, prefix, text, offset + Min(14 - |prefix|, |text| - offset));
    } else {
      NoPackets(status, prefix, text);
    }
  }

  /** Every packet is delivered as one of that status and block. */
  ghost predicate AllCarry(ws: seq<seq<word>>, status: byte, prefix: bytes)
    requires forall w :: w in ws ==> |w| == 4
  {
    forall w :: w in ws ==> Dispatched(w).Some? && Dispatched(w).value.status == status && Dispatched(w).value.prefix == prefix
  }

  lemma {:induction false} PacketsCarry(status: byte, prefix: bytes, text: bytes, offset: nat)
    requires Carries(status, prefix) && NulFree(text) && offset <= |text|
    ensures |prefix| <= 1 && AllCarry(Packets(status, prefix, text, offset), status, prefix)
    decreases |text| - offset
  {
    hide Packets, StreamFormOf, NulFree, Dispatched, TextBehind;
    if offset < |text| {
      NextPackets(status, prefix, text, offset);
      var ws := Packets(status, prefix, text, offset);
      PacketsCarry(status, prefix, text, offset + Min(14 - |prefix|, |text| - offset));
      assert ws == [ws[0]] + ws[1..];
    } else {
      NoPackets(status, prefix, text);
    }
  }

  /** Where k packets of up to size bytes get to in n bytes. */
  function Reach(n: nat, size: nat, offset: nat, k: nat): nat {
    Min(n, offset + k * size)
  }

  lemma ReachNext(n: nat, size: nat, offset: nat, k: nat)
    requires k > 0 && offset < n
    ensures Reach(n, size, offset, k) == Reach(n, size, offset + Min(size, n - offset), k - 1)
    ensures offset + Min(size, n - offset) <= Reach(n, size, offset, k) <= n
  {
    assert k * size == (k - 1) * size + size;
    assert (k - 1) * size >= 0;
  }

  lemma {:induction false} JoinedPrefix(status: byte, prefix: bytes, text: bytes, offset: nat, k: nat)
    requires |prefix| <= 1 && NulFree(text) && offset <= |text|
    requires k <= |Packets(status, prefix, text, offset)|
    ensures offset <= Reach(|text|, 14 - |prefix|, offset, k) <= |text|
    ensures Joined(Packets(status, prefix, text, offset)[..k], |prefix|)
            == text[offset..Reach(|text|, 14 - |prefix|, offset, k)]
    decreases k
  {
    hide Packets, Dispatched, TextBehind, Reach, NulFree, StreamFormOf, Joined;
    var size := 14 - |prefix|;
    var ws := Packets(status, prefix, text, offset);
    ReachNone(|text|, size, offset);
    NoPackets(status, prefix, text);
    if k > 0 {
      var next := offset + Min(size, |text| - offset);
      var end := Reach(|text|, size, offset, k);
      NextPackets(status, prefix, text, offset);
      ReachNext(|text|, size, offset, k);
      JoinedPrefix(status, prefix, text, next, k - 1);
      JoinedFirst(ws[..k], |prefix|);
      assert ws[..k][1..] == ws[1..][..k - 1] && ws[..k][0] == ws[0];
      assert text[offset..next] + text[next..end] == text[offset..end];
    } else {
      JoinedNone(ws[..k], |prefix|);
      assert text[offset..offset] == [];
    }
  }

  lemma JoinedNone(ws: seq<seq<word>>, prefixLen: nat)
    requires prefixLen <= 1 && ws == []
    ensures Joined(ws, prefixLen) == []
  {
  }

  lemma ReachNone(n: nat, size: nat, offset: nat)
    requires offset <= n
    ensures Reach(n, size, offset, 0) == offset
  {
  }

  lemma JoinedFirst(ws: seq<seq<word>>, prefixLen: nat)
    requires prefixLen <= 1 && ws != [] && forall w :: w in ws ==> |w| == 4
    ensures Joined(ws, prefixLen) == TextBehind(ws[0], prefixLen).data + Joined(ws[1..], prefixLen)
  {
  }

  /** At most 98 bytes of a name are sent, 91 of a Function Block name. */
  function Cut(prefix: bytes, name: bytes): bytes
    requires |prefix| <= 1
  {
    name[..Min(|name|, 7 * (14 - |prefix|))]
  }

  lemma PacketCount(status: byte, prefix: bytes, name: bytes)
    requires |prefix| <= 1
    ensures var n := |Packets(status, prefix, Cut(prefix, name), 0)|;
            n <= 7 && Reach(|Cut(prefix, name)|, 14 - |prefix|, 0, n) == |Cut(prefix, name)|
  {
    var text := Cut(prefix, name);
    FragmentCount(status, text, 14 - |prefix|, 0);
    AtMostSeven(|FragmentsFrom(status, text, 14 - |prefix|, 0)|, 14 - |prefix|, |text|);
  }

  lemma AtMostSeven(n: nat, size: nat, rest: nat)
    requires 13 <= size <= 14 && n * size < rest + size && rest <= 7 * size
    ensures n <= 7
  {
  }

  /** Sending a name and joining what the dispatcher delivers for the packets
      that got through gives the name so far: all of its first 98 bytes (91 for
      a Function Block) if all did. There are at most seven packets, each delivered with
      the name's status and block. */
  lemma TextRoundTrip(status: byte, prefix: bytes, name: bytes, text: bytes, packets: seq<seq<word>>, k: nat)
    requires |prefix| <= 1 && NulFree(name) && text == Cut(prefix, name)
    requires packets == Packets(status, prefix, text, 0) && k <= |packets|
    ensures |packets| <= 7 && ValidRun(packets, true)
    ensures Joined(packets[..k], |prefix|) == text[..Min(|text|, if prefix == [] then 14 * k else 13 * k)]
    ensures Joined(packets, |prefix|) == text
    ensures Carries(status, prefix) ==> AllCarry(packets, status, prefix)
  {
    hide Joined, ValidRun, Packets, AllCarry, Carries, NulFree;
    NulFreePart(name, 0, |text|);
    assert name[0..|text|] == text;
    PacketCount(status, prefix, name);
    PacketsRun(status, prefix, text, 0);
    if Carries(status, prefix) { PacketsCarry(status, prefix, text, 0); }
    JoinedPrefix(status, prefix, text, 0, k);
    JoinedPrefix(status, prefix, text, 0, |packets|);
    assert packets[..|packets|] == packets && text[0..|text|] == text;
  }
}
