/** Counting the elements of a JSON array (src/midi2_ci.c:547-574), against the
    text of every JSON value. */
module Json {
  import opened Words

  const QUOTE: byte := 0x22
  const BACKSLASH: byte := 0x5C
  const OPEN_BRACE: byte := 0x7B
  const CLOSE_BRACE: byte := 0x7D
  const OPEN_BRACKET: byte := 0x5B
  const CLOSE_BRACKET: byte := 0x5D
  const COMMA: byte := 0x2C
  const COLON: byte := 0x3A

  predicate IsSpace(b: byte) {
    b == 0x20 || b == 0x09 || b == 0x0D || b == 0x0A
  }

  // ---- JSON values and their text ------------------------------------------

  /** A character of a string: itself, or a backslash and the byte it escapes.
      (The hex digits of a \\u escape are characters after it.) */
  datatype Char = Plain(b: byte) | Escaped(b: byte)

  /** A value with the white space around it. */
  datatype Element = Element(before: bytes, value: Json, after: bytes)

  /** Scalars are numbers, true, false and null. blank is the white space after
      the opening bracket. */
  datatype Json =
    | Scalar(text: bytes)
    | Str(chars: seq<Char>)
    | Arr(blank: bytes, elements: seq<Element>)
    | Obj(blank: bytes, members: seq<(Element, Element)>)

  predicate Blank(b: bytes) {
    forall i :: 0 <= i < |b| ==> IsSpace(b[i])
  }

  /** A byte with a meaning to the scanner outside strings. */
  predicate IsSpecial(b: byte) {
    b == QUOTE || b == OPEN_BRACE || b == CLOSE_BRACE || b == OPEN_BRACKET || b == CLOSE_BRACKET || b == COMMA
  }

  /** White space is blank, tab, line feed and carriage return; what the scanner looks
      for outside strings is " [ ] { } and the comma. */
  lemma Characters(b: byte)
    ensures Blank([b]) <==> b in {0x20, 0x09, 0x0A, 0x0D}
    ensures IsSpecial(b) <==> b in {0x22, 0x5B, 0x5D, 0x7B, 0x7D, 0x2C}
  {
    assert Blank([b]) ==> IsSpace([b][0]);
  }

  predicate Valid(v: Json)
    decreases v, 1
  {
    match v
    case Scalar(text) => text != [] && forall i :: 0 <= i < |text| ==> !IsSpecial(text[i]) && !IsSpace(text[i])
    case Str(chars) => forall i :: 0 <= i < |chars| ==> chars[i].Plain? ==> chars[i].b != QUOTE && chars[i].b != BACKSLASH
    case Arr(blank, elements) => Blank(blank) && forall e :: e in elements ==> ValidElement(e)
    case Obj(blank, members) => Blank(blank) && forall m :: m in members ==> ValidElement(m.0) && ValidElement(m.1) && m.0.value.Str?
  }

  predicate ValidElement(e: Element)
    decreases e, 0
  {
    Blank(e.before) && Blank(e.after) && Valid(e.value)
  }

  function PrintChars(chars: seq<Char>): bytes {
    if chars == [] then []
    else (if chars[0].Plain? then [chars[0].b] else [BACKSLASH, chars[0].b]) + PrintChars(chars[1..])
  }

  function Print(v: Json): bytes
    decreases v, 1
  {
    match v
    case Scalar(text) => text
    case Str(chars) => [QUOTE] + (PrintChars(chars) + [QUOTE])
    case Arr(blank, elements) => [OPEN_BRACKET] + (blank + (PrintElements(elements) + [CLOSE_BRACKET]))
    case Obj(blank, members) => [OPEN_BRACE] + (blank + (PrintMembers(members) + [CLOSE_BRACE]))
  }

  function PrintElement(e: Element): bytes
    decreases e, 0
  {
    e.before + (Print(e.value) + e.after)
  }

  function PrintElements(es: seq<Element>): bytes
    decreases es, 1
  {
    if es == [] then []
    else if |es| == 1 then PrintElement(es[0])
    else PrintElement(es[0]) + ([COMMA] + PrintElements(es[1..]))
  }

  function PrintMember(m: (Element, Element)): bytes
    decreases m, 0
  {
    PrintElement(m.0) + ([COLON] + PrintElement(m.1))
  }

  function PrintMembers(ms: seq<(Element, Element)>): bytes
    decreases ms, 1
  {
    if ms == [] then []
    else if |ms| == 1 then PrintMember(ms[0])
    else PrintMember(ms[0]) + ([COMMA] + PrintMembers(ms[1..]))
  }

  /** [x,x] and {"\x":x} for any x. */
  lemma PrintedInBytes(x: byte)
    ensures var e := Element([], Scalar([x]), []);
            var key := Element([], Str([Escaped(x)]), []);
            && Print(Arr([], [e, e])) == [0x5B, x, 0x2C, x, 0x5D]
            && Print(Obj([], [(key, e)])) == [0x7B, 0x22, 0x5C, x, 0x22, 0x3A, x, 0x7D]
  {
    var e := Element([], Scalar([x]), []);
    var key := Element([], Str([Escaped(x)]), []);
    assert [e, e][1..] == [e] && [Escaped(x)][1..] == [];
    assert PrintElement(e) == [x];
    assert PrintElements([e, e]) == [x, 0x2C, x];
    assert PrintChars([Escaped(x)]) == [0x5C, x];
    assert PrintElement(key) == [0x22, 0x5C, x, 0x22];
    assert PrintMembers([(key, e)]) == [0x22, 0x5C, x, 0x22, 0x3A, x];
  }

  // ---- The scanner ---------------------------------------------------------

  /** The count at the end of the array, from text rest on: depth nested
      containers and maybe a string are open, and n elements were counted. */
  function Scan(rest: bytes, depth: int, inStr: bool, n: nat): nat
    decreases |rest|
  {
    if rest == [] then n
    else
      var c := rest[0];
      if inStr then
        if c == BACKSLASH then (if |rest| == 1 then n else Scan(rest[2..], depth, true, n))
        else Scan(rest[1..], depth, c != QUOTE, n)
      else if c == QUOTE then Scan(rest[1..], depth, true, n)
      else if c == OPEN_BRACE || c == OPEN_BRACKET then Scan(rest[1..], depth + 1, false, n)
      else if c == CLOSE_BRACE then Scan(rest[1..], depth - 1, false, n)
      else if c == CLOSE_BRACKET then (if depth == 0 then n else Scan(rest[1..], depth - 1, false, n))
      else Scan(rest[1..], depth, false, if c == COMMA && depth == 0 then n + 1 else n)
  }

  function SkipSpace(text: bytes): bytes {
    if text != [] && IsSpace(text[0]) then SkipSpace(text[1..]) else text
  }

  /** Whether body is an array, and its number of top-level elements. */
  function ArrayCount(body: bytes): (bool, nat) {
    var b := SkipSpace(body);
    if b == [] || b[0] != OPEN_BRACKET then (false, 0)
    else
      var c := SkipSpace(b[1..]);
      if c != [] && c[0] == CLOSE_BRACKET then (true, 0) else (true, Scan(c, 0, false, 1))
  }

  /** The scan of rest runs into a backslash in a string with nothing behind it. */
  predicate Pending(rest: bytes, depth: int, inStr: bool)
    decreases |rest|
  {
    if rest == [] then false
    else
      var c := rest[0];
      if inStr then
        if c == BACKSLASH then |rest| == 1 || Pending(rest[2..], depth, true)
        else Pending(rest[1..], depth, c != QUOTE)
      else if c == QUOTE then Pending(rest[1..], depth, true)
      else if c == OPEN_BRACE || c == OPEN_BRACKET then Pending(rest[1..], depth + 1, false)
      else if c == CLOSE_BRACE then Pending(rest[1..], depth - 1, false)
      else if c == CLOSE_BRACKET then depth != 0 && Pending(rest[1..], depth - 1, false)
      else Pending(rest[1..], depth, false)
  }

  /** Only a body of 65535 bytes that ends in the middle of an escape takes the
      16-bit index past its range. */
  predicate IndexFits(body: bytes) {
    |body| < 0xFFFF
    || (|body| == 0xFFFF
        && var b := SkipSpace(body);
           b != [] && b[0] == OPEN_BRACKET ==> !Pending(SkipSpace(b[1..]), 0, false))
  }

  lemma SkipNext(body: bytes, i: nat)
    requires i <= |body|
    ensures i == |body| || !IsSpace(body[i]) ==> SkipSpace(body[i..]) == body[i..]
    ensures i < |body| && IsSpace(body[i]) ==> SkipSpace(body[i..]) == SkipSpace(body[i + 1..])
  {
    if i < |body| {
      assert body[i..][1..] == body[i + 1..];
    }
  }

  /** Past the white space from start on. */
  method PassSpace(body: bytes, start: nat) returns (i: nat)
    requires start <= |body|
    ensures start <= i <= |body| && SkipSpace(body[start..]) == body[i..]
  {
    hide SkipSpace;
    i := start;
    while i < |body| && IsSpace(body[i])
      invariant start <= i <= |body| && SkipSpace(body[start..]) == SkipSpace(body[i..])
    {
      SkipNext(body, i);
      i := i + 1;
    }
    SkipNext(body, i);
  }

  /** ci_pe_array_count. */
  method CountArray(body: bytes) returns (isArray: bool, count: nat)
    requires IndexFits(body)
    ensures (isArray, count) == ArrayCount(body)
  {
    hide SkipSpace, Scan, Pending;
    assert body[0..] == body;
    var i := PassSpace(body, 0);
    if i >= |body| || body[i] != OPEN_BRACKET { return false, 0; }
    assert body[i..][1..] == body[i + 1..];
    i := PassSpace(body, i + 1);
    if i < |body| && body[i] == CLOSE_BRACKET { return true, 0; }
    var n := CountElements(body, i);
    return true, n;
  }

  /** The rest of body from the i-th byte on; nothing if the index passed the end. */
  function Tail(body: bytes, i: nat): bytes {
    if i <= |body| then body[i..] else []
  }

  /** One turn of the scan, as the source takes it. */
  lemma ScanNext(body: bytes, i: nat, depth: int, inStr: bool, n: nat)
    requires i < |body|
    ensures var c, rest, next := body[i], Tail(body, i), Tail(body, i + 1);
            if inStr then
              if c == BACKSLASH then
                && Scan(rest, depth, true, n) == Scan(Tail(body, i + 2), depth, true, n)
                && (Pending(rest, depth, true) <==> i + 1 == |body| || Pending(Tail(body, i + 2), depth, true))
              else
                && Scan(rest, depth, true, n) == Scan(next, depth, c != QUOTE, n)
                && (Pending(rest, depth, true) <==> Pending(next, depth, c != QUOTE))
            else if c == CLOSE_BRACKET && depth == 0 then Scan(rest, depth, false, n) == n
            else
              var deeper := if c == OPEN_BRACE || c == OPEN_BRACKET then 1
                            else if c == CLOSE_BRACE || c == CLOSE_BRACKET then -1 else 0;
              var m := if c == COMMA && depth == 0 then n + 1 else n;
              && Scan(rest, depth, false, n) == Scan(next, depth + deeper, c == QUOTE, m)
              && (Pending(rest, depth, false) <==> Pending(next, depth + deeper, c == QUOTE))
  {
    var rest := body[i..];
    assert Tail(body, i) == rest && rest[0] == body[i];
    assert Tail(body, i + 1) == rest[1..];
    NothingToScan(depth, true, n);
    assert Tail(body, i + 2) == if |rest| == 1 then [] else rest[2..];
  }

  method CountElements(body: bytes, start: nat) returns (n: nat)
    requires start <= |body| <= 0xFFFF
    requires |body| == 0xFFFF ==> !Pending(body[start..], 0, false)
    ensures n == Scan(body[start..], 0, false, 1)
  {
    hide Scan, Pending, Tail;
    n := 1;
    var i, depth, inStr := start, 0, false;
    assert Tail(body, start) == body[start..] by { Tails(body, start); }
    while i < |body|
      invariant start <= i <= |body| + 1 && i <= 0xFFFF
      invariant |body| == 0xFFFF ==> !Pending(Tail(body, i), depth, inStr)
      invariant Scan(body[start..], 0, false, 1) == Scan(Tail(body, i), depth, inStr, n)
      decreases |body| + 1 - i
    {
      var ch := body[i];
      ScanNext(body, i, depth, inStr, n);
      if inStr {
        if ch == BACKSLASH {
          i := i + 2;
          continue;
        }
        if ch == QUOTE { inStr := false; }
        i := i + 1;
        continue;
      }
      if ch == QUOTE { inStr := true; }
      else if ch == OPEN_BRACE || ch == OPEN_BRACKET { depth := depth + 1; }
      else if ch == CLOSE_BRACE { depth := depth - 1; }
      else if ch == CLOSE_BRACKET {
        if depth == 0 { return; }
        depth := depth - 1;
      }
      else if ch == COMMA && depth == 0 { n := n + 1; }
      i := i + 1;
    }
    Tails(body, i);
    NothingToScan(depth, inStr, n);
  }

  lemma Tails(body: bytes, i: nat)
    ensures Tail(body, i) == if i < |body| then body[i..] else []
  {
  }

  lemma NothingToScan(depth: int, inStr: bool, n: nat)
    ensures Scan([], depth, inStr, n) == n
  {
  }

  // ---- Scanner against printer ---------------------------------------------

  lemma {:induction false} ScanPlain(text: bytes, rest: bytes, depth: int, n: nat)
    requires forall i :: 0 <= i < |text| ==> !IsSpecial(text[i])
    ensures Scan(text + rest, depth, false, n) == Scan(rest, depth, false, n)
  {
    if text == [] {
      assert text + rest == rest;
    } else {
      assert (text + rest)[1..] == text[1..] + rest;
      ScanPlain(text[1..], rest, depth, n);
    }
  }

  lemma {:induction false} ScanChars(chars: seq<Char>, rest: bytes, depth: int, n: nat)
    requires Valid(Str(chars))
    ensures Scan(PrintChars(chars) + ([QUOTE] + rest), depth, true, n) == Scan(rest, depth, false, n)
  {
    var tail := [QUOTE] + rest;
    if chars == [] {
      assert PrintChars(chars) + tail == tail && tail[1..] == rest;
    } else {
      var text := PrintChars(chars) + tail;
      var more := PrintChars(chars[1..]) + tail;
      assert text == (if chars[0].Plain? then [chars[0].b] else [BACKSLASH, chars[0].b]) + more;
      assert text[if chars[0].Plain? then 1 else 2..] == more;
      ScanChars(chars[1..], rest, depth, n);
    }
  }

  /** One byte outside a string. */
  lemma ScanOne(c: byte, rest: bytes, depth: int, n: nat)
    ensures Scan([c] + rest, depth, false, n)
            == if c == QUOTE then Scan(rest, depth, true, n)
               else if c == OPEN_BRACE || c == OPEN_BRACKET then Scan(rest, depth + 1, false, n)
               else if c == CLOSE_BRACE then Scan(rest, depth - 1, false, n)
               else if c == CLOSE_BRACKET then (if depth == 0 then n else Scan(rest, depth - 1, false, n))
               else Scan(rest, depth, false, if c == COMMA && depth == 0 then n + 1 else n)
  {
    assert ([c] + rest)[1..] == rest;
  }

  lemma Assoc(a: bytes, b: bytes, c: bytes)
    ensures (a + b) + c == a + (b + c)
  {
  }

  /** A container's text, and what follows it. */
  lemma ContainerText(v: Json, rest: bytes)
    requires v.Arr? || v.Obj?
    ensures Print(v) + rest
            == if v.Arr? then [OPEN_BRACKET] + (v.blank + (PrintElements(v.elements) + ([CLOSE_BRACKET] + rest)))
               else [OPEN_BRACE] + (v.blank + (PrintMembers(v.members) + ([CLOSE_BRACE] + rest)))
  {
    hide PrintElements, PrintMembers;
  }

  /** A value leaves the scanner as it found it, at any depth. */
  lemma {:induction false} ScanValue(v: Json, rest: bytes, depth: nat, n: nat)
    requires Valid(v)
    ensures Scan(Print(v) + rest, depth, false, n) == Scan(rest, depth, false, n)
    decreases v, 1
  {
    hide Scan, PrintElements, PrintMembers, PrintChars, ValidElement;
    if v.Arr? || v.Obj? { ContainerText(v, rest); }
    match v
    case Scalar(text) =>
      ScanPlain(text, rest, depth, n);
    case Str(chars) =>
      Assoc([QUOTE], PrintChars(chars) + [QUOTE], rest);
      Assoc(PrintChars(chars), [QUOTE], rest);
      ScanOne(QUOTE, PrintChars(chars) + ([QUOTE] + rest), depth, n);
      ScanChars(chars, rest, depth, n);
    case Arr(blank, elements) =>
      var inside := PrintElements(elements) + ([CLOSE_BRACKET] + rest);
      ScanOne(OPEN_BRACKET, blank + inside, depth, n);
      ScanPlain(blank, inside, depth + 1, n);
      ScanElements(elements, [CLOSE_BRACKET] + rest, depth + 1, n);
      ScanOne(CLOSE_BRACKET, rest, depth + 1, n);
    case Obj(blank, members) =>
      var inside := PrintMembers(members) + ([CLOSE_BRACE] + rest);
      ScanOne(OPEN_BRACE, blank + inside, depth, n);
      ScanPlain(blank, inside, depth + 1, n);
      ScanMembers(members, [CLOSE_BRACE] + rest, depth + 1, n);
      ScanOne(CLOSE_BRACE, rest, depth + 1, n);
  }

  lemma {:induction false} ScanElement(e: Element, rest: bytes, depth: nat, n: nat)
    requires ValidElement(e)
    ensures Scan(PrintElement(e) + rest, depth, false, n) == Scan(rest, depth, false, n)
    decreases e, 0
  {
    hide Scan;
    assert PrintElement(e) + rest == e.before + (Print(e.value) + (e.after + rest));
    ScanPlain(e.before, Print(e.value) + (e.after + rest), depth, n);
    ScanValue(e.value, e.after + rest, depth, n);
    ScanPlain(e.after, rest, depth, n);
  }

  /** Elements side by side: only their own commas count, and only at depth 0. */
  lemma {:induction false} ScanElements(es: seq<Element>, rest: bytes, depth: nat, n: nat)
    requires forall e :: e in es ==> ValidElement(e)
    ensures Scan(PrintElements(es) + rest, depth, false, n)
            == Scan(rest, depth, false, if depth == 0 && |es| > 0 then n + |es| - 1 else n)
    decreases es, 1
  {
    hide Scan, ValidElement, PrintElement;
    if es == [] {
      assert PrintElements(es) + rest == rest;
    } else if |es| == 1 {
      ScanElement(es[0], rest, depth, n);
    } else {
      var more := PrintElements(es[1..]) + rest;
      assert PrintElements(es) + rest == PrintElement(es[0]) + ([COMMA] + more);
      ScanElement(es[0], [COMMA] + more, depth, n);
      ScanOne(COMMA, more, depth, n);
      ScanElements(es[1..], rest, depth, if depth == 0 then n + 1 else n);
    }
  }

  lemma {:induction false} ScanMember(m: (Element, Element), rest: bytes, depth: nat, n: nat)
    requires ValidElement(m.0) && ValidElement(m.1)
    ensures Scan(PrintMember(m) + rest, depth, false, n) == Scan(rest, depth, false, n)
    decreases m, 0
  {
    hide Scan;
    assert PrintMember(m) + rest == PrintElement(m.0) + ([COLON] + (PrintElement(m.1) + rest));
    ScanElement(m.0, [COLON] + (PrintElement(m.1) + rest), depth, n);
    ScanOne(COLON, PrintElement(m.1) + rest, depth, n);
    ScanElement(m.1, rest, depth, n);
  }

  lemma {:induction false} ScanMembers(ms: seq<(Element, Element)>, rest: bytes, depth: nat, n: nat)
    requires depth > 0 && forall m :: m in ms ==> ValidElement(m.0) && ValidElement(m.1)
    ensures Scan(PrintMembers(ms) + rest, depth, false, n) == Scan(rest, depth, false, n)
    decreases ms, 1
  {
    hide Scan, ValidElement, PrintMember;
    if ms == [] {
      assert PrintMembers(ms) + rest == rest;
    } else if |ms| == 1 {
      ScanMember(ms[0], rest, depth, n);
    } else {
      var more := PrintMembers(ms[1..]) + rest;
      assert PrintMembers(ms) + rest == PrintMember(ms[0]) + ([COMMA] + more);
      ScanMember(ms[0], [COMMA] + more, depth, n);
      ScanOne(COMMA, more, depth, n);
      ScanMembers(ms[1..], rest, depth, n);
    }
  }

  lemma {:induction false} SkipBlank(blank: bytes, text: bytes)
    requires Blank(blank)
    ensures SkipSpace(blank + text) == SkipSpace(text)
  {
    if blank == [] {
      assert blank + text == text;
    } else {
      assert (blank + text)[1..] == blank[1..] + text;
      SkipBlank(blank[1..], text);
    }
  }

  lemma {:induction false} ScanSkipped(text: bytes, depth: int, n: nat)
    ensures Scan(SkipSpace(text), depth, false, n) == Scan(text, depth, false, n)
  {
    if text != [] && IsSpace(text[0]) {
      ScanSkipped(text[1..], depth, n);
    }
  }

  /** A value's text begins with a byte that tells what it is. */
  lemma FirstByte(v: Json)
    requires Valid(v)
    ensures Print(v) != [] && !IsSpace(Print(v)[0])
    ensures Print(v)[0] == OPEN_BRACKET <==> v.Arr?
    ensures Print(v)[0] != CLOSE_BRACKET && Print(v)[0] != COMMA
  {
  }

  lemma FirstOfElements(es: seq<Element>, rest: bytes)
    requires es != [] && forall e :: e in es ==> ValidElement(e)
    ensures var c := SkipSpace(PrintElements(es) + rest); c != [] && c[0] != CLOSE_BRACKET
  {
    hide Print;
    var e := es[0];
    assert e in es;
    var more := if |es| == 1 then rest else [COMMA] + PrintElements(es[1..]) + rest;
    assert PrintElements(es) + rest == e.before + (Print(e.value) + (e.after + more));
    FirstByte(e.value);
    SkipBlank(e.before, Print(e.value) + (e.after + more));
  }

  /** On the text of any JSON value, with any nesting, strings, escapes and white
      space, the scanner reports an array exactly when it is one, and then its
      number of top-level elements. */
  lemma CountMatchesPrint(e: Element)
    requires ValidElement(e)
    ensures ArrayCount(PrintElement(e)) == if e.value.Arr? then (true, |e.value.elements|) else (false, 0)
  {
    hide Scan, PrintElements, PrintMembers, PrintChars;
    var text := Print(e.value) + e.after;
    SkipBlank(e.before, text);
    FirstByte(e.value);
    assert SkipSpace(text) == text;
    if e.value.Arr? {
      var es := e.value.elements;
      var tail := [CLOSE_BRACKET] + e.after;
      var inside := PrintElements(es) + tail;
      assert text[1..] == e.value.blank + inside;
      SkipBlank(e.value.blank, inside);
      if es == [] {
        assert inside == tail by { NoElements(); }
      } else {
        FirstOfElements(es, tail);
        ScanSkipped(inside, 0, 1);
        ScanElements(es, tail, 0, 1);
        ScanOne(CLOSE_BRACKET, e.after, 0, |es|);
      }
    }
  }

  lemma NoElements()
    ensures PrintElements([]) == []
  {
  }
}
