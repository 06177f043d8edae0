/** The Property Exchange Get and Set handlers (src/midi2_ci.c:496-750). */
module PeResponder {
  import opened Words
  import opened Reassembly
  import opened Json
  import opened CiMessage
  import opened PropertyExchange

  // ---- Writing the ResourceList (midi2_ci.c:516-541) ------------------------

  predicate ShortNames(props: seq<Property>, max: nat) {
    |props| <= 0xFF && forall i :: 0 <= i < |props| && props[i].name.Some? ==> |props[i].name.value| + max + 32 <= 0xFFFF
  }

  lemma {:induction false} NamesPrefix(props: seq<Property>, i: nat)
    requires i <= |props|
    ensures Names(props[..i]) <= Names(props)
    decreases |props|
  {
    if i < |props| {
      assert props[..|props| - 1][..i] == props[..i];
      NamesPrefix(props[..|props| - 1], i);
    } else {
      assert props[..i] == props;
    }
  }

  lemma NamesNext(props: seq<Property>, i: nat)
    requires i < |props|
    ensures props[i].name == None ==> Names(props[..i + 1]) == Names(props[..i])
    ensures props[i].name.Some? ==>
              var names := Names(props); var k := |Names(props[..i])|;
              && k < |names| && names[..k] == Names(props[..i]) && names[k] == props[i].name.value
              && names[..k + 1] == Names(props[..i + 1]) && |Names(props[..i + 1])| == k + 1
  {
    assert props[..i + 1][..i] == props[..i];
    NamesPrefix(props, i);
    NamesPrefix(props, i + 1);
  }

  method BuildResourceList(props: seq<Property>, out: array<byte>, max: nat) returns (p: nat)
    requires max <= out.Length && ShortNames(props, max)
    modifies out
    ensures max < 2 ==> p == 0
    ensures max >= 2 ==> p <= max && out[..p] == ListText(Listed(Names(props), max))
  {
    hide PrintElements, Entries, Fitting, Names;
    if max < 2 { return 0; }
    out[0] := OPEN_BRACKET;
    p := 1;
    var emitted, i := 0, 0;
    ghost var names := Names(props);
    ListStart(props, max);
    while i < |props|
      invariant 0 <= i <= |props| && 1 <= p < max
      invariant emitted == |Names(props[..i])| <= |names| && names[..emitted] == Names(props[..i])
      invariant out[..p] == [OPEN_BRACKET] + PrintElements(Entries(names[..emitted]))
      invariant Fitting(names, max, 0) == Fitting(names, max, emitted)
    {
      NamesNext(props, i);
      if props[i].name == None {
        i := i + 1;
        continue;
      }
      var name := props[i].name.value;
      var need := (if emitted > 0 then 1 else 0) + |PRE| + |name| + 2 + 1;
      FittingNext(names, max, emitted);
      if p + need > max { break; }
      p := PutEntry(out, p, names[..emitted], name);
      assert names[..emitted] + [name] == names[..emitted + 1];
      emitted := emitted + 1;
      i := i + 1;
    }
    if i == |props| {
      assert props[..i] == props;
      FittingEnd(names, max);
    }
    out[p] := CLOSE_BRACKET;
    p := p + 1;
    assert out[..p] == ListText(names[..emitted]);
  }

  lemma ListStart(props: seq<Property>, max: nat)
    ensures Names(props[..0]) == [] && Names(props)[..0] == []
    ensures [OPEN_BRACKET] + PrintElements(Entries([])) == [OPEN_BRACKET]
  {
  }

  lemma FittingEnd(names: seq<bytes>, max: nat)
    ensures Fitting(names, max, |names|) == |names|
  {
  }

  lemma FittingNext(names: seq<bytes>, max: nat, k: nat)
    requires k < |names|
    ensures var needed := 1 + |PrintElements(Entries(names[..k]))| + (if k > 0 then 1 else 0) + |PRE| + |names[k]| + 2 + 1;
            Fitting(names, max, k) == if needed <= max then Fitting(names, max, k + 1) else k
  {
    hide PrintElements, Entries;
    assert names[..k + 1] == names[..k] + [names[k]];
    ListLengthSnoc(names[..k], names[k]);
  }

  method PutEntry(out: array<byte>, p: nat, ghost before: seq<bytes>, name: bytes) returns (q: nat)
    requires p >= 1 && p + 17 + |name| <= out.Length + 1
    requires p + (if before != [] then 1 else 0) + 15 + |name| <= out.Length
    requires out[..p] == [OPEN_BRACKET] + PrintElements(Entries(before))
    modifies out
    ensures q == p + (if before != [] then 1 else 0) + 15 + |name|
    ensures out[..q] == [OPEN_BRACKET] + PrintElements(Entries(before + [name]))
  {
    hide PrintElements, Entries, Ascii;
    q := p;
    ListSnoc(before, name);
    BeforeEmpty(before, out[..p]);
    ghost var text := out[..p];
    if p > 1 {
      q := Put(out, q, [COMMA]);
    }
    ghost var comma := if before == [] then [] else [COMMA];
    assert out[..q] == text + comma;
    ghost var entry := PRE + name + [QUOTE, CLOSE_BRACE];
    q := PutObject(out, q, name);
    assert out[..q] == text + (comma + entry);
  }

  method PutObject(out: array<byte>, p: nat, name: bytes) returns (q: nat)
    requires p + 15 + |name| <= out.Length
    modifies out
    ensures q == p + 15 + |name| && out[..q] == old(out[..p]) + (PRE + name + [QUOTE, CLOSE_BRACE])
  {
    assert |PRE| == 13;
    q := Put(out, p, PRE);
    q := Put(out, q, name);
    q := Put(out, q, [QUOTE, CLOSE_BRACE]);
    assert out[..q] == old(out[..p]) + (PRE + name + [QUOTE, CLOSE_BRACE]);
  }

  lemma BeforeEmpty(before: seq<bytes>, text: bytes)
    requires text == [OPEN_BRACKET] + PrintElements(Entries(before))
    ensures |text| > 1 <==> before != []
  {
    if before != [] {
      var k := |before| - 1;
      assert before == before[..k] + [before[k]];
      ListSnoc(before[..k], before[k]);
    }
  }

  // ---- Reply headers (midi2_ci.c:459-461, 577-598) --------------------------

  const STATUS_200: bytes := Ascii("{\"status\":200}")
  const STATUS_400: bytes := Ascii("{\"status\":400}")
  const STATUS_404: bytes := Ascii("{\"status\":404}")
  const HEAD: bytes := Ascii("{\"status\":200")
  const TOTAL: bytes := Ascii(",\"totalCount\":")

  function Decimal(n: nat): bytes {
    (if n < 10 then [] else Decimal(n / 10)) + [0x30 + n % 10]
  }

  function FromDecimal(digits: bytes): int {
    if digits == [] then 0 else 10 * FromDecimal(digits[..|digits| - 1]) + digits[|digits| - 1] - 0x30
  }

  lemma {:induction false} DecimalBack(n: nat)
    ensures FromDecimal(Decimal(n)) == n
    ensures forall d :: d in Decimal(n) ==> 0x30 <= d <= 0x39
    ensures if n < 10 then |Decimal(n)| == 1 else Decimal(n)[0] != 0x30
  {
    var d := Decimal(n);
    if n >= 10 {
      DecimalBack(n / 10);
      assert d[..|d| - 1] == Decimal(n / 10);
    } else {
      assert d[..|d| - 1] == [];
    }
  }

  function OkHeader(count: Option<nat>): bytes {
    HEAD + (if count == None then [] else TOTAL + Decimal(count.value)) + [CLOSE_BRACE]
  }

  function Reversed(s: bytes): (r: bytes)
    ensures |r| == |s|
  {
    if s == [] then [] else [s[|s| - 1]] + Reversed(s[..|s| - 1])
  }

  lemma NoDigits()
    ensures Reversed([]) == []
  {
  }

  lemma OneDigit(c: nat, before: bytes)
    requires c > 0
    ensures Decimal(c) + Reversed(before)
            == (if c / 10 > 0 then Decimal(c / 10) else []) + Reversed(before + [0x30 + c % 10])
  {
    assert (before + [0x30 + c % 10])[..|before|] == before;
  }

  /** The digits of count, least significant first, into tmp. */
  method SplitDigits(tmp: array<byte>, count: nat) returns (t: nat)
    requires 0 < count <= 0xFFFF && tmp.Length == 5
    modifies tmp
    ensures t <= 5 && Reversed(tmp[..t]) == Decimal(count)
  {
    hide Decimal, Reversed;
    assert Reversed([]) == [] by { NoDigits(); }
    t := 0;
    var c := count;
    while c > 0
      invariant 0 <= t <= 5 && (t > 0 || c > 0)
      invariant c <= [0xFFFF, 6553, 655, 65, 6, 0][t]
      invariant Decimal(count) == (if c > 0 then Decimal(c) else []) + Reversed(tmp[..t])
    {
      OneDigit(c, tmp[..t]);
      ghost var before := tmp[..t];
      tmp[t] := 0x30 + c % 10;
      assert tmp[..t + 1] == before + [tmp[t]];
      t := t + 1;
      c := c / 10;
    }
  }

  method PutReversed(buf: array<byte>, p: nat, digits: bytes) returns (q: nat)
    requires p + |digits| <= buf.Length
    modifies buf
    ensures q == p + |digits| && buf[..q] == old(buf[..p]) + Reversed(digits)
  {
    q := p;
    var t := |digits|;
    assert digits[..t] == digits;
    while t > 0
      invariant 0 <= t <= |digits| && q == p + (|digits| - t)
      invariant buf[..q] + Reversed(digits[..t]) == old(buf[..p]) + Reversed(digits)
    {
      assert digits[..t][..t - 1] == digits[..t - 1];
      t := t - 1;
      ghost var text := buf[..q];
      buf[q] := digits[t];
      q := q + 1;
      assert buf[..q] == text + [digits[t]];
      assert text + ([digits[t]] + Reversed(digits[..t])) == buf[..q] + Reversed(digits[..t]);
    }
    assert buf[..q] + [] == buf[..q];
  }

  method PutDecimal(buf: array<byte>, p: nat, count: nat) returns (q: nat)
    requires 0 < count <= 0xFFFF && p + 5 <= buf.Length
    modifies buf
    ensures q <= p + 5 && buf[..q] == old(buf[..p]) + Decimal(count)
  {
    hide Decimal, Reversed;
    var tmp := new byte[5];
    var t := SplitDigits(tmp, count);
    q := PutReversed(buf, p, tmp[..t]);
  }

  lemma DecimalZero()
    ensures Decimal(0) == [0x30]
  {
  }

  /** ci_pe_ok_header. */
  method PutOkHeader(buf: array<byte>, hasCount: bool, count: nat) returns (p: nat)
    requires buf.Length >= 40 && count <= 0xFFFF
    modifies buf
    ensures p <= 40 && buf[..p] == OkHeader(if hasCount then Some(count) else None)
  {
    hide Decimal;
    DecimalZero();
    p := Put(buf, 0, HEAD);
    if hasCount {
      p := Put(buf, p, TOTAL);
      if count == 0 {
        p := Put(buf, p, [0x30]);
      } else {
        p := PutDecimal(buf, p, count);
      }
    }
    p := Put(buf, p, [CLOSE_BRACE]);
  }

  // ---- What is answered -----------------------------------------------------

  const RESOURCE_LIST: bytes := Ascii("ResourceList")

  datatype Answer = Answer(header: bytes, body: bytes)

  /** The first property of that name, or |props|. */
  function Lookup(props: seq<Property>, name: bytes): (i: nat)
    ensures i <= |props|
    ensures i < |props| ==> props[i].name == Some(name)
    ensures forall j :: 0 <= j < i ==> props[j].name != Some(name)
  {
    if props == [] || props[0].name == Some(name) then 0 else 1 + Lookup(props[1..], name)
  }

  /** A value, up to 448 bytes of it, and its element count if it is a list. */
  function ValueAnswer(value: bytes): Answer {
    var body := value[..Min(|value|, PE_BODY_MAX)];
    var (isList, n) := ArrayCount(body);
    Answer(OkHeader(if isList then Some(n) else None), body)
  }

  function ListAnswer(props: seq<Property>): Answer {
    var body := ListText(Listed(Names(props), PE_BODY_MAX));
    Answer(OkHeader(Some(ArrayCount(body).1)), body)
  }

  const NOT_FOUND := Answer(STATUS_404, [])

  function GetAnswer(props: seq<Property>, res: Option<bytes>): Answer {
    if res == None then NOT_FOUND
    else
      var i := Lookup(props, res.value);
      if i == |props| then (if res.value == RESOURCE_LIST then ListAnswer(props) else NOT_FOUND)
      else if props[i].value == None then NOT_FOUND
      else ValueAnswer(props[i].value.value)
  }

  /** The inquiry header of a frame, if the frame holds all of it. */
  function Inquiry(d: bytes): Option<bytes>
    requires |d| >= 16
  {
    var n := Read14(d, 14);
    if |d| >= 16 + n then Some(d[16..16 + n]) else None
  }

  function ReplyFrame(muid: nat, d: bytes, subId: byte, a: Answer): bytes
    requires |d| >= 16
  {
    PeFrame(Header(0x7F, subId, VERSION_2, muid, ReadMuid(d, 5)), d[13], a.header, 1, 1, a.body)
  }

  function GetReply(props: seq<Property>, muid: nat, d: bytes): Option<bytes> {
    if |d| < 16 then None
    else Some(ReplyFrame(muid, d, PE_GET_REPLY, GetAnswer(props, Resource(Inquiry(d)))))
  }

  // ---- The Get handler (midi2_ci.c:605-683) ---------------------------------

  /** Names and values have 16-bit lengths. */
  predicate Registered(props: seq<Property>) {
    && ShortNames(props, PE_BODY_MAX)
    && forall i :: 0 <= i < |props| && props[i].value.Some? ==> |props[i].value.value| <= 0xFFFF
  }

  method FindProperty(props: seq<Property>, res: bytes) returns (i: nat)
    ensures i == Lookup(props, res)
  {
    i := 0;
    while i < |props|
      invariant 0 <= i <= |props|
      invariant forall j :: 0 <= j < i ==> props[j].name != Some(res)
    {
      if props[i].name == Some(res) { return; }
      i := i + 1;
    }
  }

  method FrameReply(muid: nat, d: bytes, subId: byte, a: Answer) returns (frame: bytes)
    requires |d| >= 16 && |a.header| + |a.body| <= 490
    ensures frame == ReplyFrame(muid, d, subId, a) && |frame| <= 512
  {
    hide PeFrame;
    var reply := new byte[512];
    var n := BuildPeData(reply, Header(0x7F, subId, VERSION_2, muid, ReadMuid(d, 5)), d[13], a.header, 1, 1, a.body);
    frame := reply[..n];
  }

  method AnswerList(props: seq<Property>) returns (a: Answer)
    requires Registered(props)
    ensures a == ListAnswer(props) && |a.header| + |a.body| <= 490
  {
    hide ArrayCount, ListText, Listed, Names, OkHeader;
    var body := new byte[PE_BODY_MAX];
    var n := BuildResourceList(props, body, PE_BODY_MAX);
    var _, total := CountArray(body[..n]);
    CountBound(body[..n]);
    var hdr := new byte[40];
    var m := PutOkHeader(hdr, true, total);
    a := Answer(hdr[..m], body[..n]);
  }

  method AnswerValue(value: bytes) returns (a: Answer)
    requires |value| <= 0xFFFF
    ensures a == ValueAnswer(value) && |a.header| + |a.body| <= 490
  {
    hide ArrayCount, OkHeader;
    var n := |value|;
    if n > PE_BODY_MAX { n := PE_BODY_MAX; }
    var isList, total := CountArray(value[..n]);
    CountBound(value[..n]);
    var hdr := new byte[40];
    var m := PutOkHeader(hdr, isList, total);
    a := Answer(hdr[..m], value[..n]);
  }

  /** ci_handle_pe_get: the frame sent, if any. */
  method HandleGet(props: seq<Property>, muid: nat, d: bytes) returns (reply: Option<bytes>)
    requires Registered(props)
    ensures reply == GetReply(props, muid, d) && (reply.Some? ==> |reply.value| <= 512)
  {
    hide ListAnswer, ValueAnswer, Resource, ReplyFrame, Ascii, Lookup;
    if |d| < 16 { return None; }
    var hdrLen: nat := Read14(d, 14);
    var inq := if |d| >= 16 + hdrLen then Some(d[16..16 + hdrLen]) else None;
    var res := FindResource(inq);
    var a := NOT_FOUND;
    if res.Some? {
      var i := FindProperty(props, res.value);
      if i == |props| && res.value == RESOURCE_LIST {
        a := AnswerList(props);
      } else if i < |props| && props[i].value.Some? {
        a := AnswerValue(props[i].value.value);
      }
    }
    var frame := FrameReply(muid, d, PE_GET_REPLY, a);
    return Some(frame);
  }

  // A body of n bytes has at most n elements.

  lemma {:induction false} ScanBound(rest: bytes, depth: int, inStr: bool, n: nat)
    ensures Scan(rest, depth, inStr, n) <= n + |rest|
    decreases |rest|
  {
    if rest != [] {
      var c := rest[0];
      if inStr && c == BACKSLASH {
        if |rest| > 1 { ScanBound(rest[2..], depth, true, n); }
      } else {
        ScanBound(rest[1..], depth, c != QUOTE, n);
        ScanBound(rest[1..], depth, true, n);
        ScanBound(rest[1..], depth + 1, false, n);
        ScanBound(rest[1..], depth - 1, false, n);
        ScanBound(rest[1..], depth, false, n);
        ScanBound(rest[1..], depth, false, n + 1);
      }
    }
  }

  lemma {:induction false} SkipBound(text: bytes)
    ensures |SkipSpace(text)| <= |text|
  {
    if text != [] && IsSpace(text[0]) { SkipBound(text[1..]); }
  }

  lemma CountBound(body: bytes)
    ensures ArrayCount(body).1 <= |body| + 1
  {
    hide Scan, SkipSpace;
    SkipBound(body);
    var b := SkipSpace(body);
    if b != [] && b[0] == OPEN_BRACKET {
      SkipBound(b[1..]);
      ScanBound(SkipSpace(b[1..]), 0, false, 1);
    }
  }

  // ---- The Set handler (midi2_ci.c:685-750) ---------------------------------

  /** A call of the setter of props[index], and the C string it was given. */
  datatype SetterCall = SetterCall(index: nat, value: bytes)

  /** The bytes up to the first NUL. */
  function CString(b: bytes): bytes {
    if b == [] || b[0] == 0 then [] else [b[0]] + CString(b[1..])
  }

  /** The body of a Set, up to 448 bytes of it; none if the frame cuts it short. */
  function SetBody(d: bytes): bytes
    requires |d| >= 16
  {
    var off := 16 + Read14(d, 14);
    if |d| < off + 6 then []
    else
      var n := Read14(d, off + 4);
      if |d| < off + 6 + n then [] else d[off + 6..off + 6 + Min(n, PE_BODY_MAX)]
  }

  function SetAnswer(props: seq<Property>, res: Option<bytes>, value: bytes): (bytes, seq<SetterCall>) {
    if res == None then (STATUS_404, [])
    else
      var i := Lookup(props, res.value);
      if i == |props| || props[i].setter.None? then (STATUS_404, [])
      else (if props[i].setter.value(value) then STATUS_200 else STATUS_400, [SetterCall(i, value)])
  }

  method CopyBody(d: bytes, hdrLen: nat) returns (body: bytes)
    requires |d| >= 16 && hdrLen == Read14(d, 14)
    ensures body == SetBody(d)
  {
    var off, bodyLen, start := 16 + hdrLen, 0, 0;
    if |d| >= off + 6 {
      bodyLen := Read14(d, off + 4);
      start := off + 6;
      if |d| < off + 6 + bodyLen { bodyLen := 0; }
    }
    if bodyLen > PE_BODY_MAX { bodyLen := PE_BODY_MAX; }
    return d[start..start + bodyLen];
  }

  /** ci_handle_pe_set: the frame sent, if any, and the setter calls made. */
  method HandleSet(props: seq<Property>, muid: nat, d: bytes) returns (reply: Option<bytes>, calls: seq<SetterCall>)
    ensures |d| < 16 ==> reply == None && calls == []
    ensures reply.Some? ==> |reply.value| <= 512
    ensures |d| >= 16 ==>
              var (status, made) := SetAnswer(props, Resource(Inquiry(d)), CString(SetBody(d)));
              reply == Some(ReplyFrame(muid, d, PE_SET_REPLY, Answer(status, []))) && calls == made
  {
    hide Resource, ReplyFrame, CString, SetBody, Ascii, Lookup;
    calls := [];
    if |d| < 16 { return None, []; }
    var hdrLen: nat := Read14(d, 14);
    var inq := if |d| >= 16 + hdrLen then Some(d[16..16 + hdrLen]) else None;
    var res := FindResource(inq);
    var status := STATUS_404;
    if res.Some? {
      var i := FindProperty(props, res.value);
      if i < |props| && props[i].setter.Some? {
        var body := CopyBody(d, hdrLen);
        var value := UpToNul(body);
        calls := [SetterCall(i, value)];
        status := if props[i].setter.value(value) then STATUS_200 else STATUS_400;
      }
    }
    var frame := FrameReply(muid, d, PE_SET_REPLY, Answer(status, []));
    return Some(frame), calls;
  }

  lemma CStringNext(b: bytes, i: nat)
    requires i <= |b|
    ensures i == |b| || b[i] == 0 ==> b[..i] + CString(b[i..]) == b[..i]
    ensures i < |b| && b[i] != 0 ==> b[..i] + CString(b[i..]) == b[..i + 1] + CString(b[i + 1..])
  {
    if i < |b| && b[i] != 0 {
      assert b[i..][1..] == b[i + 1..];
      assert b[..i + 1] == b[..i] + [b[i]];
    }
  }

  /** What a setter sees of a NUL-terminated buffer. */
  method UpToNul(b: bytes) returns (s: bytes)
    ensures s == CString(b)
  {
    hide CString;
    var i := 0;
    assert b[..0] + CString(b[0..]) == CString(b) by { assert b[0..] == b; }
    while i < |b| && b[i] != 0
      invariant 0 <= i <= |b| && CString(b) == b[..i] + CString(b[i..])
    {
      CStringNext(b, i);
      i := i + 1;
    }
    CStringNext(b, i);
    return b[..i];
  }
}
