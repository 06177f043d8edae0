/** The transmit path of the FreeRTOS device (examples/rp2350-device-freertos/
    src/pipeline.c:55-134): midi_task splits word runs into messages and queues
    them, usb_task drains the queue into the endpoint through one held packet. */
module Pipeline {
  import opened Words
  import opened Ump
  import opened Reassembly
  import opened WireFormat

  const DEPTH := 64

  /** n words in w[4]. */
  datatype Msg = Msg(n: nat, w: seq<word>) {
    predicate Valid() {
      1 <= n <= 4 && |w| == 4
    }
  }

  function Content(m: Msg): seq<word>
    requires m.Valid()
  {
    m.w[..m.n]
  }

  // ---- Splitting a run of words (pipeline.c:59-71) ---------------------------

  function Zeroes(n: nat): (r: seq<word>)
    ensures |r| == n
  {
    seq(n, i => 0)
  }

  /** The first message of words, cut short if they are. */
  function First(words: seq<word>): (m: Msg)
    requires words != []
    ensures m.Valid() && m.n <= |words|
  {
    var n := Min(WordCount(Mt(words[0])), |words|);
    Msg(n, words[..n] + Zeroes(4 - n))
  }

  function Split(words: seq<word>): (ms: seq<Msg>)
    ensures forall m :: m in ms ==> m.Valid()
    decreases |words|
  {
    if words == [] then [] else [First(words)] + Split(words[First(words).n..])
  }

  function Contents(ms: seq<Msg>): seq<word>
    requires forall m :: m in ms ==> m.Valid()
  {
    if ms == [] then [] else Content(ms[0]) + Contents(ms[1..])
  }

  /** The messages put end to end are the words; each has the length its type
      calls for, but that the last may be cut short. */
  lemma {:induction false} SplitIsExact(words: seq<word>)
    ensures var ms := Split(words);
            && Contents(ms) == words
            && forall i :: 0 <= i < |ms| ==>
                 ms[i].Valid() && ms[i].n <= WordCount(Mt(ms[i].w[0])) && (i < |ms| - 1 ==> ms[i].n == WordCount(Mt(ms[i].w[0])))
    decreases |words|
  {
    hide WordCount, Mt;
    if words != [] {
      var m := First(words);
      var rest := words[m.n..];
      SplitIsExact(rest);
      assert Split(words)[1..] == Split(rest);
      assert Content(m) == words[..m.n] && words == words[..m.n] + rest;
      assert m.w[0] == words[0];
      assert Split(rest) != [] ==> rest != [];
    }
  }

  /** In numbers: a message of types 0, 1, 2, 6 and 7 has one word, of 3, 4, 8, 9 and
      10 two, of 11 and 12 three, of the others four; the last of a run may have
      fewer. Behind its words w is zero. */
  lemma FirstLength(words: seq<word>)
    requires words != []
    ensures var m, mt := First(words), words[0] / 0x1000_0000;
            && (mt in {0, 1, 2, 6, 7} ==> m.n == 1)
            && (mt in {3, 4, 8, 9, 10} && |words| >= 2 ==> m.n == 2)
            && (mt in {11, 12} && |words| >= 3 ==> m.n == 3)
            && (mt in {5, 13, 14, 15} && |words| >= 4 ==> m.n == 4)
            && (mt in {3, 4, 8, 9, 10} && |words| < 2 ==> m.n == |words|)
            && (mt in {11, 12} && |words| < 3 ==> m.n == |words|)
            && (mt in {5, 13, 14, 15} && |words| < 4 ==> m.n == |words|)
            && m.w[..m.n] == words[..m.n] && forall i :: m.n <= i < 4 ==> m.w[i] == 0
  {
    hide WordCount, Mt;
    TypeAndGroup(words[0]);
    Lengths(words[0] / 0x1000_0000);
  }

  /** Split takes the first message and goes on behind it. */
  lemma SplitNext(words: seq<word>)
    ensures words == [] ==> Split(words) == []
    ensures words != [] ==> Split(words) == [First(words)] + Split(words[First(words).n..])
  {
  }

  // ---- The queue (pipeline.c:55-57) --------------------------------------------

  /** A message offered to the queue, and whether there was room for it. */
  datatype Offered = Offered(m: Msg, taken: bool)

  /** The queue, every offer so far, and the 32-bit drop counter. */
  datatype Tx = Tx(queue: seq<Msg>, offers: seq<Offered>, drops: word)

  /** pipeline_tx. */
  function Offer(x: Tx, m: Msg): Tx {
    if |x.queue| < DEPTH then Tx(x.queue + [m], x.offers + [Offered(m, true)], x.drops)
    else Tx(x.queue, x.offers + [Offered(m, false)], (x.drops + 1) % 0x1_0000_0000)
  }

  function OfferAll(x: Tx, ms: seq<Msg>): Tx
    decreases |ms|
  {
    if ms == [] then x else OfferAll(Offer(x, ms[0]), ms[1..])
  }

  function Taken(offers: seq<Offered>): seq<Msg> {
    if offers == [] then []
    else
      var last := offers[|offers| - 1];
      Taken(offers[..|offers| - 1]) + (if last.taken then [last.m] else [])
  }

  function Dropped(offers: seq<Offered>): nat {
    if offers == [] then 0
    else Dropped(offers[..|offers| - 1]) + (if offers[|offers| - 1].taken then 0 else 1)
  }

  /** The static queue and counter, with nobody draining. */
  class Producer {
    var queue: seq<Msg>
    var drops: word
    ghost var offers: seq<Offered>

    ghost function Now(): Tx
      reads this
    {
      Tx(queue, offers, drops)
    }

    /** pipeline_tx. */
    method Send(m: Msg)
      modifies this
      ensures Now() == Offer(old(Now()), m)
    {
      if |queue| < DEPTH {
        queue := queue + [m];
        offers := offers + [Offered(m, true)];
      } else {
        drops := (drops + 1) % 0x1_0000_0000;
        offers := offers + [Offered(m, false)];
      }
    }

    /** pipeline_tx_words: exactly the messages of Split are offered, in order. */
    method SendWords(words: seq<word>)
      modifies this
      ensures Now() == OfferAll(old(Now()), Split(words))
    {
      hide WordCount, Mt, Offer, OfferAll, Split, First;
      var i := 0;
      assert words[0..] == words;
      while i < |words|
        invariant 0 <= i <= |words|
        invariant OfferAll(Now(), Split(words[i..])) == OfferAll(old(Now()), Split(words))
      {
        var n := WordCount(Mt(words[i]));
        if i + n > |words| { n := |words| - i; }
        FirstAt(words, i);
        var w := CopyWords(words[i..i + n]);
        OfferFirst(Now(), words, i);
        Send(Msg(n, w));
        i := i + n;
      }
      NoneLeft(Now(), words[i..]);
    }
  }

  lemma FirstAt(words: seq<word>, i: nat)
    requires i < |words|
    ensures var n := Min(WordCount(Mt(words[i])), |words| - i);
            1 <= n <= 4 && First(words[i..]) == Msg(n, words[i..i + n] + Zeroes(4 - n))
  {
    var n := Min(WordCount(Mt(words[i])), |words| - i);
    assert words[i..][..n] == words[i..i + n];
  }

  lemma OfferFirst(x: Tx, words: seq<word>, i: nat)
    requires i < |words|
    ensures var m := First(words[i..]);
            OfferAll(x, Split(words[i..])) == OfferAll(Offer(x, m), Split(words[i + m.n..]))
  {
    hide First, Offer;
    var m := First(words[i..]);
    assert words[i..][m.n..] == words[i + m.n..];
    assert Split(words[i..])[1..] == Split(words[i + m.n..]);
  }

  lemma NoneLeft(x: Tx, words: seq<word>)
    requires words == []
    ensures OfferAll(x, Split(words)) == x
  {
  }

  /** The words, and zeroes behind them. */
  method CopyWords(words: seq<word>) returns (w: seq<word>)
    requires |words| <= 4
    ensures w == words + Zeroes(4 - |words|)
  {
    var buf := new word[4];
    buf[0], buf[1], buf[2], buf[3] := 0, 0, 0, 0;
    var k := 0;
    while k < |words|
      invariant 0 <= k <= |words| && buf[..k] == words[..k]
      invariant forall j :: k <= j < 4 ==> buf[j] == 0
    {
      buf[k] := words[k];
      k := k + 1;
    }
    w := buf[..];
  }

  // ---- The two tasks (pipeline.c:107-134) -----------------------------------------

  /** Where usb_task is: between steps, with a message received but not yet marked
      held, or with the held message written but not yet unmarked. */
  datatype Phase = Ready | Received | Accepted

  /** What midi_task sets out to send: words, through pipeline_tx_words, or one
      message, through pipeline_tx itself (the catalog and the heartbeat). */
  datatype Request = Words(words: seq<word>) | One(m: Msg)

  predicate Proper(r: Request) {
    r.One? ==> r.m.Valid()
  }

  function Requested(r: Request): seq<Msg> {
    if r.One? then [r.m] else Split(r.words)
  }

  /** s_tx_held is held, s_tx_held_valid is valid. endpoint is what the USB
      endpoint has accepted. midi_task still has unsent to offer, of all that it
      was asked for. */
  datatype State = State(tx: Tx, phase: Phase, held: Msg, valid: bool, endpoint: seq<Msg>,
                         unsent: seq<Msg>, asked: seq<Request>)

  datatype Action = Ask(r: Request) | OfferNext | Receive | Mark | Write(accepted: bool) | Unmark

  /** One step of either task; None if it cannot be taken now. The endpoint takes a
      packet whole or not at all. */
  function Step(s: State, a: Action): Option<State> {
    match a
    case Ask(r) =>
      if s.unsent == [] && Proper(r) then Some(s.(unsent := Requested(r), asked := s.asked + [r])) else None
    case OfferNext => if s.unsent != [] then Some(s.(tx := Offer(s.tx, s.unsent[0]), unsent := s.unsent[1..])) else None
    case Receive =>
      if s.phase == Ready && !s.valid && s.tx.queue != []
      then Some(s.(tx := s.tx.(queue := s.tx.queue[1..]), held := s.tx.queue[0], phase := Received)) else None
    case Mark => if s.phase == Received then Some(s.(valid := true, phase := Ready)) else None
    case Write(accepted) =>
      if s.phase != Ready || !s.valid then None
      else if accepted then Some(s.(endpoint := s.endpoint + [s.held], phase := Accepted)) else Some(s)
    case Unmark => if s.phase == Accepted then Some(s.(valid := false, phase := Ready)) else None
  }

  const NO_MSG := Msg(1, [0, 0, 0, 0])
  const INIT := State(Tx([], [], 0), Ready, NO_MSG, false, [], [], [])

  function Run(s: State, run: seq<Action>): Option<State>
    decreases |run|
  {
    if run == [] then Some(s) else if Step(s, run[0]) == None then None else Run(Step(s, run[0]).value, run[1..])
  }

  /** The packet out of the queue but not yet at the endpoint. */
  function InHand(s: State): seq<Msg> {
    if s.phase == Received || (s.phase == Ready && s.valid) then [s.held] else []
  }

  function Messages(offers: seq<Offered>): seq<Msg> {
    seq(|offers|, i requires 0 <= i < |offers| => offers[i].m)
  }

  function AskedFor(asked: seq<Request>): seq<Msg> {
    if asked == [] then [] else AskedFor(asked[..|asked| - 1]) + Requested(asked[|asked| - 1])
  }

  ghost predicate Conserved(s: State) {
    && s.endpoint + InHand(s) + s.tx.queue == Taken(s.tx.offers)
    && |s.tx.queue| <= DEPTH
    && s.tx.drops == Dropped(s.tx.offers) % 0x1_0000_0000
    && |s.tx.offers| == |Taken(s.tx.offers)| + Dropped(s.tx.offers)
    && Messages(s.tx.offers) + s.unsent == AskedFor(s.asked)
    && (s.phase == Received ==> !s.valid) && (s.phase == Accepted ==> s.valid)
  }

  /** The queue holds 64 messages; what comes when it is full is dropped. */
  lemma OfferNumbers(x: Tx, m: Msg)
    ensures Offer(x, m).queue == if |x.queue| < 64 then x.queue + [m] else x.queue
    ensures Offer(x, m).drops == if |x.queue| < 64 then x.drops else (x.drops + 1) % 4294967296
  {
  }

  lemma OfferKeeps(x: Tx, m: Msg)
    ensures Taken(Offer(x, m).offers) == if |x.queue| < DEPTH then Taken(x.offers) + [m] else Taken(x.offers)
    ensures Dropped(Offer(x, m).offers) == if |x.queue| < DEPTH then Dropped(x.offers) else Dropped(x.offers) + 1
    ensures Messages(Offer(x, m).offers) == Messages(x.offers) + [m]
  {
    var last := Offered(m, |x.queue| < DEPTH);
    assert (x.offers + [last])[..|x.offers|] == x.offers;
  }

  lemma AskMore(asked: seq<Request>, r: Request)
    ensures AskedFor(asked + [r]) == AskedFor(asked) + Requested(r)
  {
    assert (asked + [r])[..|asked|] == asked;
  }

  lemma StepConserves(s: State, a: Action)
    requires Conserved(s) && Step(s, a).Some?
    ensures Conserved(Step(s, a).value)
  {
    hide Taken, Dropped, Messages, AskedFor, Requested, Offer;
    match a
    case Ask(r) =>
      AskMore(s.asked, r);
    case OfferNext =>
      OfferConserves(s);
    case Receive =>
      assert s.endpoint + [] + s.tx.queue == s.endpoint + [s.tx.queue[0]] + s.tx.queue[1..];
    case Write(accepted) =>
      assert s.endpoint + [s.held] + s.tx.queue == (s.endpoint + [s.held]) + [] + s.tx.queue;
    case _ =>
  }

  lemma OfferConserves(s: State)
    requires Conserved(s) && s.unsent != []
    ensures Conserved(Step(s, OfferNext).value)
  {
    hide Taken, Dropped, Messages, AskedFor;
    OfferKeeps(s.tx, s.unsent[0]);
    assert s.unsent == [s.unsent[0]] + s.unsent[1..];
    assert Messages(s.tx.offers) + [s.unsent[0]] + s.unsent[1..] == Messages(s.tx.offers) + s.unsent;
    assert s.endpoint + InHand(s) + (s.tx.queue + [s.unsent[0]]) == s.endpoint + InHand(s) + s.tx.queue + [s.unsent[0]];
  }

  /** In every interleaving of the two tasks: what the endpoint accepted, then the
      packet in hand, then the queue, are the messages that found room, in order;
      the others are counted as drops, and are all that is missing of what midi_task
      was asked to send. */
  lemma {:induction false} PipelineConserves(s: State, run: seq<Action>)
    requires Conserved(s) && Run(s, run).Some?
    ensures Conserved(Run(s, run).value)
    decreases |run|
  {
    hide Conserved, Step;
    if run != [] {
      StepConserves(s, run[0]);
      PipelineConserves(Step(s, run[0]).value, run[1..]);
    }
  }

  lemma FromTheStart(run: seq<Action>)
    requires Run(INIT, run).Some?
    ensures var s := Run(INIT, run).value;
            && s.endpoint + InHand(s) + s.tx.queue == Taken(s.tx.offers)
            && |s.tx.offers| == |Taken(s.tx.offers)| + Dropped(s.tx.offers)
            && s.tx.drops == Dropped(s.tx.offers) % 0x1_0000_0000
            && Messages(s.tx.offers) + s.unsent == AskedFor(s.asked)
            && s.endpoint <= Taken(s.tx.offers)
  {
    hide Run, Step, Taken, Dropped, Messages, AskedFor;
    assert Conserved(INIT) by { StartConserved(); }
    PipelineConserves(INIT, run);
    var s := Run(INIT, run).value;
    assert s.endpoint + InHand(s) + s.tx.queue == s.endpoint + (InHand(s) + s.tx.queue);
  }

  lemma StartConserved()
    ensures Conserved(INIT)
  {
  }

  // ---- A catalog run in one pass (pipeline.c:77-102) -------------------------------

  predicate Catalog(entries: seq<Msg>) {
    entries != [] && forall m :: m in entries ==> m.Valid()
  }

  /** The index k entries on, going round. */
  function Place(entries: seq<Msg>, idx: nat, k: nat): (i: nat)
    requires idx < |entries|
    ensures i < |entries|
  {
    if k == 0 then idx
    else if Place(entries, idx, k - 1) == |entries| - 1 then 0
    else Place(entries, idx, k - 1) + 1
  }

  lemma GoRound(i: nat, n: nat)
    requires i < n
    ensures (i + 1) % n == if i == n - 1 then 0 else i + 1
  {
    if i == n - 1 {
      assert n % n == 0;
    }
  }

  function Entry(entries: seq<Msg>, idx: nat, k: nat): (m: Msg)
    requires Catalog(entries) && idx < |entries|
    ensures m.Valid()
  {
    entries[Place(entries, idx, k)]
  }

  /** Whether a SysEx7 run is open once k + 1 entries from idx on are out. */
  predicate RunOpen(entries: seq<Msg>, idx: nat, k: nat)
    requires Catalog(entries) && idx < |entries|
  {
    var w := Entry(entries, idx, k).w[0];
    if Mt(w) == MT_SYSEX7 && Form(w) == START then true
    else if Mt(w) == MT_SYSEX7 && Form(w) == END then false
    else k > 0 && RunOpen(entries, idx, k - 1)
  }

  /** The k-th entry from idx on is a SysEx7 packet of that form. */
  predicate IsForm(entries: seq<Msg>, idx: nat, k: nat, form: nat)
    requires Catalog(entries) && idx < |entries|
  {
    var w := Entry(entries, idx, k).w[0];
    w / 0x1000_0000 == 3 && w / 0x10_0000 % 16 == form
  }

  /** No entry behind the j-th, up to the k-th, is an End (3). */
  predicate NoEnd(entries: seq<Msg>, idx: nat, j: nat, k: nat)
    requires Catalog(entries) && idx < |entries|
  {
    forall l :: j < l <= k ==> !IsForm(entries, idx, l, 3)
  }

  /** A run is open exactly if some Start (1) was not followed by an End. */
  lemma {:induction false} RunOpenIff(entries: seq<Msg>, idx: nat, k: nat)
    requires Catalog(entries) && idx < |entries|
    ensures RunOpen(entries, idx, k) <==> exists j :: 0 <= j <= k && IsForm(entries, idx, j, 1) && NoEnd(entries, idx, j, k)
  {
    hide Mt, Form, Entry;
    TypeAndGroup(Entry(entries, idx, k).w[0]);
    if k > 0 {
      RunOpenIff(entries, idx, k - 1);
      if RunOpen(entries, idx, k - 1) {
        var j :| 0 <= j <= k - 1 && IsForm(entries, idx, j, 1) && NoEnd(entries, idx, j, k - 1);
        assert !IsForm(entries, idx, k, 3) ==> NoEnd(entries, idx, j, k);
      }
    }
    if IsForm(entries, idx, k, 1) {
      assert NoEnd(entries, idx, k, k);
    }
    forall j | 0 <= j < k && NoEnd(entries, idx, j, k)
      ensures NoEnd(entries, idx, j, k - 1) && !IsForm(entries, idx, k, 3)
    {
    }
  }

  function Slice(entries: seq<Msg>, idx: nat, n: nat): (ms: seq<Msg>)
    requires Catalog(entries) && idx < |entries|
    ensures |ms| == n
  {
    seq(n, i requires 0 <= i < n => Entry(entries, idx, i))
  }

  lemma {:induction false} OfferAllSnoc(x: Tx, ms: seq<Msg>, m: Msg)
    ensures OfferAll(x, ms + [m]) == Offer(OfferAll(x, ms), m)
    decreases |ms|
  {
    hide Offer;
    if ms == [] {
      assert [m][1..] == [] && ms + [m] == [m];
    } else {
      assert (ms + [m])[1..] == ms[1..] + [m];
      OfferAllSnoc(Offer(x, ms[0]), ms[1..], m);
    }
  }

  /** run_open after a message. */
  method FollowRun(runOpen: bool, m: Msg) returns (now: bool)
    requires m.Valid()
    ensures now == if Mt(m.w[0]) == MT_SYSEX7 && Form(m.w[0]) == START then true
                   else if Mt(m.w[0]) == MT_SYSEX7 && Form(m.w[0]) == END then false
                   else runOpen
  {
    hide Mt, Form;
    now := runOpen;
    if Mt(m.w[0]) == MT_SYSEX7 {
      if Form(m.w[0]) == START { now := true; }
      else if Form(m.w[0]) == END { now := false; }
    }
  }

  /** emit_catalog, cut off after a number of rounds if it is still running then:
      it offers entries from idx on and ends at the first that leaves no run open. */
  method EmitCatalog(entries: seq<Msg>, idx: nat, p: Producer, rounds: nat) returns (last: nat, ended: bool, k: nat)
    requires Catalog(entries)
    modifies p
    ensures idx >= |entries| ==> ended && last == idx && p.Now() == old(p.Now())
    ensures idx < |entries| ==>
              && k <= rounds && p.Now() == OfferAll(old(p.Now()), Slice(entries, idx, if ended then k + 1 else rounds))
              && (forall j :: 0 <= j < k ==> RunOpen(entries, idx, j))
              && if ended then k < rounds && last == Place(entries, idx, k) && !RunOpen(entries, idx, k) else k == rounds
  {
    hide Mt, Form, Offer, OfferAll, Slice;
    last, ended, k := idx, true, 0;
    if idx >= |entries| { return; }
    var runOpen := false;
    assert OfferAll(p.Now(), Slice(entries, idx, 0)) == p.Now() by { NothingOffered(p.Now(), Slice(entries, idx, 0)); }
    while k < rounds
      invariant last == Place(entries, idx, k) && k <= rounds && runOpen == (k > 0 && RunOpen(entries, idx, k - 1))
      invariant p.Now() == OfferAll(old(p.Now()), Slice(entries, idx, k))
      invariant forall j :: 0 <= j < k ==> RunOpen(entries, idx, j)
    {
      var m := entries[last];
      assert m == Entry(entries, idx, k);
      OfferAllSnoc(old(p.Now()), Slice(entries, idx, k), m);
      SliceSnoc(entries, idx, k);
      p.Send(m);
      runOpen := FollowRun(runOpen, m);
      assert runOpen == RunOpen(entries, idx, k);
      if !runOpen { return; }
      GoRound(last, |entries|);
      last := (last + 1) % |entries|;
      k := k + 1;
    }
    ended := false;
  }

  lemma SliceSnoc(entries: seq<Msg>, idx: nat, k: nat)
    requires Catalog(entries) && idx < |entries|
    ensures Slice(entries, idx, k + 1) == Slice(entries, idx, k) + [Entry(entries, idx, k)]
  {
    hide Entry;
  }

  lemma NothingOffered(x: Tx, ms: seq<Msg>)
    requires ms == []
    ensures OfferAll(x, ms) == x
  {
  }

  /** An entry that ends a SysEx7 run. */
  predicate EndsRun(m: Msg)
    requires m.Valid()
  {
    m.w[0] / 0x1000_0000 == 3 && m.w[0] / 0x10_0000 % 16 == 3
  }

  lemma PlaceNext(entries: seq<Msg>, idx: nat, k: nat)
    requires idx < |entries|
    ensures Place(entries, idx, 0) == idx
    ensures Place(entries, idx, k + 1) == if Place(entries, idx, k) == |entries| - 1 then 0 else Place(entries, idx, k) + 1
  {
  }

  /** The k-th place from idx on is idx + k, less the catalog's size for each round. */
  lemma {:induction false} PlaceIs(entries: seq<Msg>, idx: nat, k: nat) returns (rounds: nat)
    requires idx < |entries|
    ensures idx + k == rounds * |entries| + Place(entries, idx, k)
  {
    hide Place;
    var n := |entries|;
    PlaceNext(entries, idx, if k == 0 then 0 else k - 1);
    rounds := 0;
    if k > 0 {
      var before := PlaceIs(entries, idx, k - 1);
      rounds := if Place(entries, idx, k) == 0 then before + 1 else before;
      assert (before + 1) * n == before * n + n;
    }
  }

  lemma {:induction false} PlaceAhead(entries: seq<Msg>, idx: nat, k: nat, j: nat)
    requires idx < |entries| && Place(entries, idx, k) + j < |entries|
    ensures Place(entries, idx, k + j) == Place(entries, idx, k) + j
    decreases j
  {
    hide Place;
    if j > 0 {
      PlaceAhead(entries, idx, k, j - 1);
      PlaceNext(entries, idx, k + j - 1);
    }
  }

  /** A pass goes through all entries in time. */
  lemma PlaceMeets(entries: seq<Msg>, idx: nat, i: nat) returns (k: nat)
    requires idx < |entries| && i < |entries|
    ensures Place(entries, idx, k) == i
  {
    hide Place;
    var n := |entries|;
    PlaceNext(entries, idx, 0);
    if i >= idx {
      k := i - idx;
      PlaceAhead(entries, idx, 0, k);
    } else {
      var last := n - 1 - idx;
      PlaceAhead(entries, idx, 0, last);
      PlaceNext(entries, idx, last);
      PlaceAhead(entries, idx, last + 1, i);
      k := last + 1 + i;
    }
  }

  /** After some entry no run is open. */
  ghost predicate PassEnds(entries: seq<Msg>, idx: nat)
    requires Catalog(entries) && idx < |entries|
  {
    exists k: nat :: !RunOpen(entries, idx, k)
  }

  predicate SomeEnd(entries: seq<Msg>)
    requires Catalog(entries)
  {
    exists i :: 0 <= i < |entries| && EndsRun(entries[i])
  }

  /** A pass ends if and only if its first entry opens no run, or some entry of the
      catalog ends one; else emit_catalog runs for ever. */
  lemma PassEndsIff(entries: seq<Msg>, idx: nat)
    requires Catalog(entries) && idx < |entries|
    ensures PassEnds(entries, idx) <==> !RunOpen(entries, idx, 0) || SomeEnd(entries)
  {
    hide RunOpen;
    if SomeEnd(entries) {
      var i :| 0 <= i < |entries| && EndsRun(entries[i]);
      var k := EndMet(entries, idx, i);
    } else {
      forall k: nat | RunOpen(entries, idx, 0)
        ensures RunOpen(entries, idx, k)
      {
        StaysOpen(entries, idx, k);
      }
    }
  }

  lemma EndMet(entries: seq<Msg>, idx: nat, i: nat) returns (k: nat)
    requires Catalog(entries) && idx < |entries| && i < |entries| && EndsRun(entries[i])
    ensures !RunOpen(entries, idx, k)
  {
    hide Mt, Form, Place;
    k := PlaceMeets(entries, idx, i);
    assert Entry(entries, idx, k) == entries[i];
    TypeAndGroup(entries[i].w[0]);
  }

  lemma {:induction false} StaysOpen(entries: seq<Msg>, idx: nat, k: nat)
    requires Catalog(entries) && idx < |entries| && RunOpen(entries, idx, 0)
    requires !SomeEnd(entries)
    ensures RunOpen(entries, idx, k)
  {
    hide Mt, Form, Place;
    if k > 0 {
      StaysOpen(entries, idx, k - 1);
      TypeAndGroup(Entry(entries, idx, k).w[0]);
      assert !EndsRun(entries[Place(entries, idx, k)]);
    }
  }

  /** A pass that opens a SysEx7 run offers all of it: its last entry is the End,
      and only the last leaves no run open. */
  lemma PassEndsRun(entries: seq<Msg>, idx: nat, k: nat)
    requires Catalog(entries) && idx < |entries| && RunOpen(entries, idx, 0)
    requires !RunOpen(entries, idx, k) && forall j :: 0 <= j < k ==> RunOpen(entries, idx, j)
    ensures k > 0 && IsForm(entries, idx, k, 3)
  {
    hide Mt, Form, Entry;
    TypeAndGroup(Entry(entries, idx, k).w[0]);
    assert k > 0 ==> RunOpen(entries, idx, k - 1);
  }
}
