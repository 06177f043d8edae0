/** What a Get and a Set come to, told from the properties alone: texts byte by
    byte, the property by its position (src/midi2_ci.c:459-468, 473-509, 577-750). */
module Outcomes {
  import opened Words
  import opened Reassembly
  import opened Json
  import opened CiMessage
  import opened PropertyExchange
  import opened PeResponder

  /** {"status":200}, {"status":400} and {"status":404} */
  const OK: bytes := [0x7B, 0x22, 0x73, 0x74, 0x61, 0x74, 0x75, 0x73, 0x22, 0x3A, 0x32, 0x30, 0x30, 0x7D]
  const REJECTED: bytes := [0x7B, 0x22, 0x73, 0x74, 0x61, 0x74, 0x75, 0x73, 0x22, 0x3A, 0x34, 0x30, 0x30, 0x7D]
  const MISSING: bytes := [0x7B, 0x22, 0x73, 0x74, 0x61, 0x74, 0x75, 0x73, 0x22, 0x3A, 0x34, 0x30, 0x34, 0x7D]

  /** {"status":200,"totalCount": */
  const COUNTING: bytes := [0x7B, 0x22, 0x73, 0x74, 0x61, 0x74, 0x75, 0x73, 0x22, 0x3A, 0x32, 0x30, 0x30, 0x2C,
                            0x22, 0x74, 0x6F, 0x74, 0x61, 0x6C, 0x43, 0x6F, 0x75, 0x6E, 0x74, 0x22, 0x3A]

  /** ResourceList */
  const LIST: bytes := [0x52, 0x65, 0x73, 0x6F, 0x75, 0x72, 0x63, 0x65, 0x4C, 0x69, 0x73, 0x74]

  /** {"resource":" */
  const ENTRY: bytes := [0x7B, 0x22, 0x72, 0x65, 0x73, 0x6F, 0x75, 0x72, 0x63, 0x65, 0x22, 0x3A, 0x22]

  lemma Texts()
    ensures STATUS_200 == OK && STATUS_400 == REJECTED && STATUS_404 == MISSING
    ensures HEAD + [0x7D] == OK && HEAD + TOTAL == COUNTING
  {
    hide COUNTING, HEAD, TOTAL;
    HeadTexts();
  }

  lemma HeadTexts()
    ensures HEAD + [0x7D] == OK && HEAD + TOTAL == COUNTING
  {
    hide STATUS_200, STATUS_400, STATUS_404, REJECTED, MISSING;
    assert HEAD == OK[..13];
  }

  lemma NameTexts()
    ensures RESOURCE_LIST == LIST && PRE == ENTRY && KEY == ENTRY[1..11]
  {
  }

  // ---- A Get -----------------------------------------------------------------

  /** The i-th property is the first of that name. */
  predicate FirstNamed(props: seq<Property>, name: bytes, i: nat) {
    i < |props| && props[i].name == Some(name) && forall j :: 0 <= j < i ==> props[j].name != Some(name)
  }

  predicate Unregistered(props: seq<Property>, name: bytes) {
    forall i :: 0 <= i < |props| ==> props[i].name != Some(name)
  }

  /** Of an array, with how many elements it has as it is sent. */
  function Heading(body: bytes): bytes {
    var (isArray, n) := ArrayCount(body);
    if isArray then COUNTING + Decimal(n) + [0x7D] else OK
  }

  /** The list of the first k of the named properties, which are all or all that fit
      448 bytes. */
  predicate ListOf(props: seq<Property>, k: nat, a: Answer) {
    && k <= |Names(props)|
    && a == Answer(COUNTING + Decimal(ArrayCount(a.body).1) + [0x7D], ListText(Names(props)[..k]))
    && |a.body| <= 448
    && (k < |Names(props)| ==> |ListText(Names(props)[..k + 1])| > 448)
    && ((forall n :: n in Names(props) ==> Plainly(n)) ==> ArrayCount(a.body) == (true, k))
  }

  /** What a Get of that name is to be answered: the first 448 bytes of the value of
      the first property of the name; 404 if it has none, or there is no such
      property; the list, if the name is ResourceList and none is registered so. */
  ghost predicate AnsweredBy(props: seq<Property>, name: bytes, a: Answer) {
    && (forall i: nat :: FirstNamed(props, name, i) && props[i].value.Some? ==>
          && a.body == props[i].value.value[..Min(|props[i].value.value|, 448)]
          && a.header == Heading(a.body))
    && (forall i: nat :: FirstNamed(props, name, i) && props[i].value == None ==> a == Answer(MISSING, []))
    && (Unregistered(props, name) ==>
          if name == LIST then exists k: nat :: ListOf(props, k, a) else a == Answer(MISSING, []))
  }

  lemma GetOutcome(props: seq<Property>, name: bytes)
    ensures AnsweredBy(props, name, GetAnswer(props, Some(name)))
  {
    hide FirstNamed, Unregistered, ListOf, GetAnswer, Heading, ListAnswer, Lookup, Listed, Names;
    var i := Lookup(props, name);
    Found(props, name);
    if i < |props| {
      GetFound(props, name, i);
    } else {
      GetMissed(props, name);
      ListIs(props);
    }
  }

  /** Lookup finds the first of that name. */
  lemma Found(props: seq<Property>, name: bytes)
    ensures var i := Lookup(props, name);
            if i < |props| then FirstNamed(props, name, i) && !Unregistered(props, name) else Unregistered(props, name)
    ensures forall i: nat :: FirstNamed(props, name, i) ==> i == Lookup(props, name) && i < |props|
  {
  }

  lemma GetFound(props: seq<Property>, name: bytes, i: nat)
    requires i == Lookup(props, name) < |props|
    ensures var a := GetAnswer(props, Some(name));
            if props[i].value == None then a == Answer(MISSING, [])
            else a.body == props[i].value.value[..Min(|props[i].value.value|, 448)] && a.header == Heading(a.body)
  {
    hide Ascii, ValueAnswer, ListAnswer, Heading, Lookup;
    Texts();
    if props[i].value.Some? { ValueIs(props[i].value.value); }
  }

  lemma GetMissed(props: seq<Property>, name: bytes)
    requires Lookup(props, name) == |props|
    ensures GetAnswer(props, Some(name)) == if name == LIST then ListAnswer(props) else Answer(MISSING, [])
  {
    hide Ascii, ValueAnswer, ListAnswer, Lookup;
    Texts();
    NameTexts();
  }

  lemma ValueIs(value: bytes)
    ensures var a := ValueAnswer(value);
            a.body == value[..Min(|value|, 448)] && a.header == Heading(a.body)
  {
    hide Ascii, ArrayCount, Decimal;
    Texts();
    var (isArray, n) := ArrayCount(value[..Min(|value|, 448)]);
    assert HEAD + [] + [0x7D] == OK by { assert HEAD + [] == HEAD; }
    assert HEAD + (TOTAL + Decimal(n)) + [0x7D] == COUNTING + Decimal(n) + [0x7D];
  }

  lemma ListIs(props: seq<Property>)
    ensures ListOf(props, |Listed(Names(props), 448)|, ListAnswer(props))
  {
    hide Ascii, ArrayCount, Decimal, Names, Fitting, Print, Plainly;
    Texts();
    var names := Names(props);
    var k := |Listed(names, 448)|;
    FittingBound(names, 448, 0);
    assert names[..0] == [];
    ListLengthSnoc([], []);
    FittingMaximal(names, 448, 0, k);
    if k < |names| { FittingMaximal(names, 448, 0, k + 1); }
    if forall n :: n in names ==> Plainly(n) { ResourceListBody(names, 448, 0); }
    var n := ArrayCount(ListText(names[..k])).1;
    assert HEAD + (TOTAL + Decimal(n)) + [0x7D] == COUNTING + Decimal(n) + [0x7D];
  }

  /** A value that is the text of some JSON is sent as it is if it has at most 448
      bytes; with a count if it is an array, of its elements. */
  lemma GetJson(props: seq<Property>, name: bytes, i: nat, e: Element, a: Answer)
    requires AnsweredBy(props, name, a) && FirstNamed(props, name, i)
    requires ValidElement(e) && props[i].value == Some(PrintElement(e)) && |PrintElement(e)| <= 448
    ensures a == Answer(if e.value.Arr? then COUNTING + Decimal(|e.value.elements|) + [0x7D] else OK, PrintElement(e))
  {
    hide ValidElement, PrintElement, ArrayCount, Decimal, Unregistered, ListOf;
    CountMatchesPrint(e);
    var text := PrintElement(e);
    assert text[..|text|] == text;
  }

  /** An inquiry that names no resource. */
  lemma Unnamed(props: seq<Property>, value: bytes)
    ensures GetAnswer(props, None) == Answer(MISSING, []) && SetAnswer(props, None, value) == (MISSING, [])
  {
    hide Ascii;
    Texts();
  }

  // ---- A Set -----------------------------------------------------------------

  /** What a Set of that name is to come to: the setter of the first property of the
      name is called once, if it has one. */
  ghost predicate StoredAs(props: seq<Property>, name: bytes, value: bytes, status: bytes, calls: seq<SetterCall>) {
    && (forall i: nat :: FirstNamed(props, name, i) && props[i].setter.Some? ==>
          && calls == [SetterCall(i, value)]
          && status == if props[i].setter.value(value) then OK else REJECTED)
    && (forall i: nat :: FirstNamed(props, name, i) && props[i].setter.None? ==> calls == [] && status == MISSING)
    && (Unregistered(props, name) ==> calls == [] && status == MISSING)
  }

  lemma SetOutcome(props: seq<Property>, name: bytes, value: bytes)
    ensures var (status, calls) := SetAnswer(props, Some(name), value); StoredAs(props, name, value, status, calls)
  {
    hide Ascii, Lookup, FirstNamed, Unregistered;
    Texts();
    Found(props, name);
  }

  /** The resource and the body of an inquiry of which only the first n bytes arrive. */
  lemma CutShort(h: Header, requestId: byte, header: bytes, numChunks: u14, thisChunk: u14, body: bytes, n: nat)
    requires |header| < 0x4000 && |body| < 0x4000
    requires 16 <= n <= |PeFrame(h, requestId, header, numChunks, thisChunk, body)|
    ensures var d := PeFrame(h, requestId, header, numChunks, thisChunk, body)[..n];
            && Inquiry(d) == (if n >= 16 + |header| then Some(header) else None)
            && SetBody(d) == if n == 22 + |header| + |body| then body[..Min(|body|, 448)] else []
  {
    hide HeaderBytes, Write14, Read14, PeFrame;
    var d := PeFrame(h, requestId, header, numChunks, thisChunk, body);
    var q, e := 16 + |header|, d[..n];
    PeLayout(h, requestId, header, numChunks, thisChunk, body);
    assert e[14..16] == d[14..16];
    Read14Back(e, 14, |header|);
    if n >= q { assert e[16..q] == d[16..q]; }
    if n >= q + 6 {
      assert e[q + 4..q + 6] == d[q + 4..q + 6];
      Read14Back(e, q + 4, |body|);
      if n == |d| { assert e[q + 6..q + 6 + Min(|body|, 448)] == d[q + 6..][..Min(|body|, 448)]; }
    }
  }

  /** A setter sees what is in front of the first NUL. */
  lemma {:induction false} FirstNul(a: bytes, rest: bytes)
    requires NulFree(a)
    ensures CString(a) == a && CString(a + ([0] + rest)) == a
  {
    if a == [] {
      assert a + ([0] + rest) == [0] + rest;
    } else {
      assert (a + ([0] + rest))[1..] == a[1..] + ([0] + rest);
      FirstNul(a[1..], rest);
    }
  }
}
