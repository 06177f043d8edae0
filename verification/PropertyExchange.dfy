/** Answering Property Exchange inquiries (src/midi2_ci.c:459-683). */
module PropertyExchange {
  import opened Words
  import opened Reassembly
  import opened Json

  const PE_BODY_MAX := 448

  /** value is what the getter returns, or the static value if there is none;
      setter says which values it accepts. NULL is None. */
  datatype Property = Property(name: Option<bytes>, value: Option<bytes>, setter: Option<bytes -> bool>, subscribable: bool)

  function Ascii(s: string): (r: bytes)
    requires forall i :: 0 <= i < |s| ==> s[i] as int < 0x80
    ensures |r| == |s| && Is7Bit(r)
  {
    seq(|s|, i requires 0 <= i < |s| => s[i] as int)
  }

  // ---- The resource named in an inquiry header (midi2_ci.c:473-494) ---------

  const KEY: bytes := Ascii("\"resource\"")

  predicate IsSeparator(b: byte) {
    b == 0x20 || b == COLON
  }

  function SkipSeparators(text: bytes): bytes {
    if text != [] && IsSeparator(text[0]) then SkipSeparators(text[1..]) else text
  }

  function UpToQuote(text: bytes): bytes {
    if text == [] || text[0] == QUOTE then [] else [text[0]] + UpToQuote(text[1..])
  }

  /** The text behind the first KEY. */
  function BehindKey(text: bytes): Option<bytes> {
    if |text| < |KEY| then None
    else if text[..|KEY|] == KEY then Some(text[|KEY|..])
    else BehindKey(text[1..])
  }

  /** The quoted string at the start of text, after separators. */
  function Quoted(text: bytes): Option<bytes> {
    var rest := SkipSeparators(text);
    if rest == [] || rest[0] != QUOTE then None else Some(UpToQuote(rest[1..]))
  }

  function Resource(header: Option<bytes>): Option<bytes> {
    if header == None || BehindKey(header.value) == None then None else Quoted(BehindKey(header.value).value)
  }

  /** ci_pe_resource, with its moving index. */
  method FindResource(header: Option<bytes>) returns (res: Option<bytes>)
    ensures res == Resource(header)
  {
    hide Quoted;
    if header == None || |header.value| < |KEY| { return None; }
    var hdr := header.value;
    var i := 0;
    assert hdr[0..] == hdr;
    while i + |KEY| <= |hdr|
      invariant 0 <= i <= |hdr|
      invariant BehindKey(hdr) == BehindKey(hdr[i..])
    {
      assert hdr[i..][..|KEY|] == hdr[i..i + |KEY|];
      if hdr[i..i + |KEY|] != KEY {
        assert hdr[i..][1..] == hdr[i + 1..];
        i := i + 1;
        continue;
      }
      assert hdr[i..][|KEY|..] == hdr[i + |KEY|..];
      res := ReadQuoted(hdr, i + |KEY|);
      return;
    }
    return None;
  }

  method ReadQuoted(hdr: bytes, from: nat) returns (res: Option<bytes>)
    requires from <= |hdr|
    ensures res == Quoted(hdr[from..])
  {
    var i := from;
    while i < |hdr| && IsSeparator(hdr[i])
      invariant from <= i <= |hdr| && SkipSeparators(hdr[from..]) == SkipSeparators(hdr[i..])
    {
      assert hdr[i..][1..] == hdr[i + 1..];
      i := i + 1;
    }
    if i >= |hdr| || hdr[i] != QUOTE { return None; }
    assert hdr[i..][1..] == hdr[i + 1..];
    i := i + 1;
    var name := ReadToQuote(hdr, i);
    return Some(name);
  }

  lemma UpToQuoteNext(text: bytes, start: nat, i: nat)
    requires start <= i <= |text|
    ensures i == |text| || text[i] == QUOTE ==> text[start..i] + UpToQuote(text[i..]) == text[start..i]
    ensures i < |text| && text[i] != QUOTE ==>
              text[start..i] + UpToQuote(text[i..]) == text[start..i + 1] + UpToQuote(text[i + 1..])
  {
    if i < |text| && text[i] != QUOTE {
      assert text[i..][1..] == text[i + 1..];
      assert text[start..i + 1] == text[start..i] + [text[i]];
    }
  }

  method ReadToQuote(hdr: bytes, start: nat) returns (name: bytes)
    requires start <= |hdr|
    ensures name == UpToQuote(hdr[start..])
  {
    hide UpToQuote;
    var i := start;
    assert hdr[start..start] + UpToQuote(hdr[start..]) == UpToQuote(hdr[start..]);
    while i < |hdr| && hdr[i] != QUOTE
      invariant start <= i <= |hdr|
      invariant UpToQuote(hdr[start..]) == hdr[start..i] + UpToQuote(hdr[i..])
    {
      UpToQuoteNext(hdr, start, i);
      i := i + 1;
    }
    UpToQuoteNext(hdr, start, i);
    return hdr[start..i];
  }

  predicate QuoteFree(name: bytes) {
    forall i :: 0 <= i < |name| ==> name[i] != QUOTE
  }

  predicate Separators(seps: bytes) {
    forall i :: 0 <= i < |seps| ==> IsSeparator(seps[i])
  }

  predicate KeyAt(text: bytes, i: nat) {
    i + |KEY| <= |text| && text[i..i + |KEY|] == KEY
  }

  /** KEY does not begin within the first n bytes of text. */
  predicate KeyNotBefore(text: bytes, n: nat) {
    forall i :: 0 <= i < n ==> !KeyAt(text, i)
  }

  lemma {:induction false} BehindFirstKey(before: bytes, rest: bytes)
    requires KeyNotBefore(before + KEY + rest, |before|)
    ensures BehindKey(before + KEY + rest) == Some(rest)
  {
    var text := before + KEY + rest;
    if before == [] {
      assert text[..|KEY|] == KEY && text[|KEY|..] == rest;
    } else {
      assert !KeyAt(text, 0) && text[0..|KEY|] == text[..|KEY|];
      assert text[1..] == before[1..] + KEY + rest;
      forall i | 0 <= i < |before| - 1
        ensures !KeyAt(text[1..], i)
      {
        assert !KeyAt(text, i + 1);
        if i + |KEY| <= |text[1..]| {
          assert text[1..][i..i + |KEY|] == text[i + 1..i + 1 + |KEY|];
        }
      }
      BehindFirstKey(before[1..], rest);
    }
  }

  lemma {:induction false} SkipThem(seps: bytes, rest: bytes)
    requires Separators(seps) && (rest == [] || !IsSeparator(rest[0]))
    ensures SkipSeparators(seps + rest) == rest
  {
    if seps == [] {
      assert seps + rest == rest;
    } else {
      assert (seps + rest)[1..] == seps[1..] + rest;
      SkipThem(seps[1..], rest);
    }
  }

  lemma {:induction false} NameBeforeQuote(name: bytes, after: bytes)
    requires QuoteFree(name)
    ensures UpToQuote(name + ([QUOTE] + after)) == name
  {
    if name == [] {
      assert name + ([QUOTE] + after) == [QUOTE] + after;
    } else {
      assert (name + ([QUOTE] + after))[1..] == name[1..] + ([QUOTE] + after);
      NameBeforeQuote(name[1..], after);
    }
  }

  /** A header that gives "resource" a quote-free string, with any text before
      (in which the key does not occur), any colons (0x3A) and spaces (0x20) between,
      and any text after, names that resource. */
  lemma ResourceNamed(before: bytes, seps: bytes, name: bytes, after: bytes)
    requires (forall i :: 0 <= i < |seps| ==> seps[i] == 0x3A || seps[i] == 0x20) && QuoteFree(name)
    requires KeyNotBefore(before + KEY + (seps + ([QUOTE] + (name + ([QUOTE] + after)))), |before|)
    ensures Resource(Some(before + KEY + (seps + ([QUOTE] + (name + ([QUOTE] + after)))))) == Some(name)
  {
    hide UpToQuote, SkipSeparators, BehindKey;
    var quoted := [QUOTE] + (name + ([QUOTE] + after));
    BehindFirstKey(before, seps + quoted);
    SkipThem(seps, quoted);
    assert quoted[1..] == name + ([QUOTE] + after);
    NameBeforeQuote(name, after);
    assert SkipSeparators(seps + quoted) == quoted;
  }

  lemma {:induction false} NoKey(text: bytes)
    requires KeyNotBefore(text, |text|)
    ensures BehindKey(text) == None
  {
    if |text| >= |KEY| {
      assert !KeyAt(text, 0) && text[0..|KEY|] == text[..|KEY|];
      forall i | 0 <= i < |text| - 1
        ensures !KeyAt(text[1..], i)
      {
        assert !KeyAt(text, i + 1);
        if i + |KEY| <= |text| - 1 { assert text[1..][i..i + |KEY|] == text[i + 1..i + 1 + |KEY|]; }
      }
      NoKey(text[1..]);
    }
  }

  /** A header without the key names no resource. */
  lemma ResourceMissing(text: bytes)
    requires KeyNotBefore(text, |text|)
    ensures Resource(Some(text)) == None && Resource(None) == None
  {
    NoKey(text);
  }

  /** Nor does one with anything but a quote (0x22) behind the key and separators;
      a string that is never closed goes up to the end. */
  lemma ResourceUnquoted(before: bytes, seps: bytes, rest: bytes)
    requires forall i :: 0 <= i < |seps| ==> seps[i] == 0x3A || seps[i] == 0x20
    requires rest == [] || (rest[0] != 0x3A && rest[0] != 0x20)
    requires KeyNotBefore(before + KEY + (seps + rest), |before|)
    ensures var r := Resource(Some(before + KEY + (seps + rest)));
            && (rest == [] || rest[0] != 0x22 ==> r == None)
            && (rest != [] && rest[0] == 0x22 && QuoteFree(rest[1..]) ==> r == Some(rest[1..]))
  {
    hide UpToQuote, SkipSeparators, BehindKey;
    BehindFirstKey(before, seps + rest);
    SkipThem(seps, rest);
    if rest != [] && QuoteFree(rest[1..]) { NoQuote(rest[1..]); }
  }

  lemma {:induction false} NoQuote(text: bytes)
    requires QuoteFree(text)
    ensures UpToQuote(text) == text
  {
    if text != [] { NoQuote(text[1..]); }
  }

  lemma {:induction false} UpToQuoteFree(text: bytes)
    ensures QuoteFree(UpToQuote(text))
  {
    if text != [] && text[0] != QUOTE {
      UpToQuoteFree(text[1..]);
    }
  }

  /** No header names a resource with a quote in it. */
  lemma ResourceQuoteFree(header: Option<bytes>)
    ensures Resource(header).Some? ==> QuoteFree(Resource(header).value)
  {
    if header.Some? && BehindKey(header.value).Some? {
      var rest := SkipSeparators(BehindKey(header.value).value);
      if rest != [] {
        UpToQuoteFree(rest[1..]);
      }
    }
  }

  /** The inquiry header of a plain Get or Set. */
  function InquiryHeader(name: bytes): bytes {
    Ascii("{\"resource\":\"") + name + Ascii("\"}")
  }

  /** It names its resource if and only if the name has no quote in it. */
  lemma InquiryNames(name: bytes)
    ensures Resource(Some(InquiryHeader(name))) == Some(name) <==> QuoteFree(name)
  {
    hide Resource;
    ResourceQuoteFree(Some(InquiryHeader(name)));
    if QuoteFree(name) {
      PlainInquiry(name);
    }
  }

  lemma PlainInquiry(name: bytes)
    requires QuoteFree(name)
    ensures Resource(Some(InquiryHeader(name))) == Some(name)
  {
    var before, seps, after: bytes := [OPEN_BRACE], [COLON], [CLOSE_BRACE];
    var tail := seps + ([QUOTE] + (name + ([QUOTE] + after)));
    assert InquiryHeader(name) == before + KEY + tail;
    assert (before + KEY + tail)[0..|KEY|][0] != KEY[0];
    ResourceNamed(before, seps, name, after);
  }

  // ---- The built-in ResourceList (midi2_ci.c:511-541) -----------------------

  /** The names of the registered properties that have one. */
  function Names(props: seq<Property>): seq<bytes> {
    if props == [] then []
    else Names(props[..|props| - 1]) + (if props[|props| - 1].name == None then [] else [props[|props| - 1].name.value])
  }

  function PlainChars(text: bytes): (r: seq<Char>)
    ensures |r| == |text|
  {
    seq(|text|, i requires 0 <= i < |text| => Plain(text[i]))
  }

  /** {"resource":"name"} as a JSON value. */
  function Entry(name: bytes): Element {
    Element([], Obj([], [(Element([], Str(PlainChars(Ascii("resource"))), []), Element([], Str(PlainChars(name)), []))]), [])
  }

  function Entries(names: seq<bytes>): (r: seq<Element>)
    ensures |r| == |names|
  {
    seq(|names|, i requires 0 <= i < |names| => Entry(names[i]))
  }

  /** The list of the named resources as JSON text. */
  function ListText(names: seq<bytes>): bytes {
    Print(Arr([], Entries(names)))
  }

  const PRE: bytes := Ascii("{\"resource\":\"")

  lemma {:induction false} PlainText(text: bytes)
    ensures PrintChars(PlainChars(text)) == text
  {
    if text != [] {
      assert PlainChars(text)[1..] == PlainChars(text[1..]);
      PlainText(text[1..]);
    }
  }

  lemma StringText(text: bytes)
    ensures PrintElement(Element([], Str(PlainChars(text)), [])) == [QUOTE] + (text + [QUOTE])
  {
    hide PrintChars, PlainChars;
    PlainText(text);
  }

  lemma ObjectText(key: Element, value: Element)
    ensures PrintElement(Element([], Obj([], [(key, value)]), []))
            == [OPEN_BRACE] + (PrintElement(key) + ([COLON] + PrintElement(value)) + [CLOSE_BRACE])
  {
    hide PrintElement;
    var m := (key, value);
    var v := Obj([], [m]);
    assert PrintMembers([m]) == PrintMember(m);
    assert Print(v) == [OPEN_BRACE] + (PrintMember(m) + [CLOSE_BRACE]);
    ElementAlone(v);
  }

  lemma EntryText(name: bytes)
    ensures PrintElement(Entry(name)) == PRE + name + [QUOTE, CLOSE_BRACE]
  {
    hide PrintElement, PlainChars;
    StringText(Ascii("resource"));
    StringText(name);
    ObjectText(Element([], Str(PlainChars(Ascii("resource"))), []), Element([], Str(PlainChars(name)), []));
    assert PRE == [OPEN_BRACE] + ([QUOTE] + (Ascii("resource") + [QUOTE])) + [COLON] + [QUOTE];
    assert PRE + name + [QUOTE, CLOSE_BRACE]
        == [OPEN_BRACE] + (([QUOTE] + (Ascii("resource") + [QUOTE])) + ([COLON] + ([QUOTE] + (name + [QUOTE]))) + [CLOSE_BRACE]);
  }

  lemma {:induction false} PrintSnoc(es: seq<Element>, e: Element)
    ensures PrintElements(es + [e])
            == if es == [] then PrintElement(e) else PrintElements(es) + ([COMMA] + PrintElement(e))
  {
    hide PrintElement;
    if |es| > 0 {
      assert (es + [e])[1..] == es[1..] + [e];
      PrintSnoc(es[1..], e);
    }
  }

  /** One entry more: a comma unless it is the first, and the entry. */
  lemma ListSnoc(names: seq<bytes>, name: bytes)
    ensures PrintElements(Entries(names + [name]))
            == PrintElements(Entries(names)) + ((if names == [] then [] else [COMMA]) + (PRE + name + [QUOTE, CLOSE_BRACE]))
  {
    hide PrintElements, Entry, PrintElement;
    assert Entries(names + [name]) == Entries(names) + [Entry(name)];
    PrintSnoc(Entries(names), Entry(name));
    EntryText(name);
    NoElements();
  }

  function ListLength(names: seq<bytes>): nat {
    |ListText(names)|
  }

  lemma ListLengthSnoc(names: seq<bytes>, name: bytes)
    ensures ListLength([]) == 2
    ensures ListLength(names + [name]) == ListLength(names) + (if names == [] then 0 else 1) + 15 + |name|
  {
    hide PrintElements, Entry;
    ListSnoc(names, name);
    NoElements();
  }

  /** The longest run of names from the first on whose list fits max bytes. */
  function Fitting(names: seq<bytes>, max: nat, k: nat): nat
    requires k <= |names|
    decreases |names| - k
  {
    if k < |names| && ListLength(names[..k + 1]) <= max then Fitting(names, max, k + 1) else k
  }

  function Listed(names: seq<bytes>, max: nat): (r: seq<bytes>) {
    FittingBound(names, max, 0);
    names[..Fitting(names, max, 0)]
  }

  lemma {:induction false} FittingBound(names: seq<bytes>, max: nat, k: nat)
    requires k <= |names|
    ensures k <= Fitting(names, max, k) <= |names|
    decreases |names| - k
  {
    hide ListLength;
    if k < |names| && ListLength(names[..k + 1]) <= max {
      FittingBound(names, max, k + 1);
    }
  }

  lemma {:induction false} LongerLists(names: seq<bytes>, i: nat, j: nat)
    requires i <= j <= |names|
    ensures ListLength(names[..i]) <= ListLength(names[..j])
    decreases j
  {
    hide ListLength;
    if i < j {
      LongerLists(names, i, j - 1);
      assert names[..j] == names[..j - 1] + [names[j - 1]];
      ListLengthSnoc(names[..j - 1], names[j - 1]);
    }
  }

  lemma {:induction false} FittingMaximal(names: seq<bytes>, max: nat, k: nat, j: nat)
    requires k <= |names| && j <= |names| && ListLength(names[..k]) <= max
    ensures ListLength(names[..j]) <= max <==> j <= Fitting(names, max, k)
    decreases |names| - k
  {
    hide ListLength;
    if k < |names| && ListLength(names[..k + 1]) <= max {
      FittingMaximal(names, max, k + 1, j);
    } else if j <= k {
      LongerLists(names, j, k);
    } else {
      LongerLists(names, k + 1, j);
    }
  }

  predicate Plainly(name: bytes) {
    forall i :: 0 <= i < |name| ==> name[i] != QUOTE && name[i] != BACKSLASH
  }

  lemma EntryValid(name: bytes)
    requires Plainly(name)
    ensures ValidElement(Entry(name))
  {
    var m := Entry(name).value.members[0];
    assert Valid(m.0.value) && Valid(m.1.value);
  }

  /** The ResourceList body is the text of the longest prefix of the named
      properties whose closed array fits; and the array counter finds in it
      exactly the entries it has. */
  lemma ResourceListBody(names: seq<bytes>, max: nat, j: nat)
    requires max >= 2 && j <= |names|
    requires forall n :: n in names ==> Plainly(n)
    ensures var listed := Listed(names, max);
            && listed <= names && ListLength(listed) <= max
            && (ListLength(names[..j]) <= max <==> j <= |listed|)
            && ArrayCount(ListText(listed)) == (true, |listed|)
  {
    hide ListLength, ArrayCount;
    var listed := Listed(names, max);
    FittingBound(names, max, 0);
    assert names[..0] == [];
    ListLengthSnoc([], []);
    FittingMaximal(names, max, 0, j);
    FittingMaximal(names, max, 0, |listed|);
    CountListed(listed);
  }

  lemma CountListed(listed: seq<bytes>)
    requires forall n :: n in listed ==> Plainly(n)
    ensures ArrayCount(ListText(listed)) == (true, |listed|)
  {
    hide ArrayCount, Entry, Print, ValidElement, Plainly;
    var e := Element([], Arr([], Entries(listed)), []);
    forall i | 0 <= i < |listed|
      ensures ValidElement(Entries(listed)[i])
    {
      EntryValid(listed[i]);
    }
    ElementAlone(Arr([], Entries(listed)));
    CountMatchesPrint(e);
  }

  lemma ElementAlone(v: Json)
    ensures PrintElement(Element([], v, [])) == Print(v)
    ensures ValidElement(Element([], v, [])) <==> Valid(v)
  {
  }
}
