/** What a reassembler delivers for any packets at all, said of the packets
    themselves (src/midi2_proc.c:79-113, 145-182). */
module PacketRuns {
  import opened Words
  import opened Ump
  import opened Reassembly
  import opened Processor

  /** No message in progress. */
  function Idle<K>(): Assembler<K> {
    Assembler(None, [])
  }

  /** The packets that go through the buffer: all but the one-packet messages. */
  function Buffered<K>(fs: seq<Fragment<K>>): seq<Fragment<K>> {
    if fs == [] then []
    else Buffered(fs[..|fs| - 1]) + (if fs[|fs| - 1].form == 0 then [] else [fs[|fs| - 1]])
  }

  /** The message that the last packet of bs belongs to begins with the i-th: from
      there on all have its key, no START comes after it and no END before the last;
      and it is a START, or behind an END or a packet of another key. */
  ghost predicate Begins<K>(bs: seq<Fragment<K>>, i: nat) {
    && i < |bs|
    && (forall j :: i <= j < |bs| ==> bs[j].key == bs[|bs| - 1].key)
    && (forall j :: i < j < |bs| ==> bs[j].form != 1)
    && (forall j :: i <= j < |bs| - 1 ==> bs[j].form != 3)
    && (bs[i].form == 1 || i == 0 || bs[i - 1].form == 3 || bs[i - 1].key != bs[i].key)
  }

  function Bytes<K>(fs: seq<Fragment<K>>): bytes {
    if fs == [] then [] else Bytes(fs[..|fs| - 1]) + fs[|fs| - 1].data
  }

  /** The bytes of the packets from the i-th on, but of a CONTINUE with nothing to
      continue. */
  function Gathered<K>(bs: seq<Fragment<K>>, i: nat): bytes
    requires i < |bs|
  {
    (if bs[i].form == 2 then [] else bs[i].data) + Bytes(bs[i + 1..])
  }

  lemma NotLater<K>(bs: seq<Fragment<K>>, i: nat, j: nat)
    requires Begins(bs, i) && i < j < |bs|
    ensures !Begins(bs, j)
  {
    var before := j - 1;
    assert bs[before].key == bs[j].key && bs[before].form != 3;
  }

  /** There is just one beginning. */
  lemma BeginsOnce<K>(bs: seq<Fragment<K>>, i: nat, j: nat)
    requires Begins(bs, i) && Begins(bs, j)
    ensures i == j
  {
    hide Begins;
    assert i < |bs| && j < |bs| by { Within(bs, i); Within(bs, j); }
    if i != j {
      NotLater(bs, Min(i, j), if i < j then j else i);
    }
  }

  lemma Within<K>(bs: seq<Fragment<K>>, i: nat)
    requires Begins(bs, i)
    ensures i < |bs|
  {
  }

  /** One packet more goes on with the message before it, or begins another. */
  function Onward<K(==)>(bs: seq<Fragment<K>>, i: nat, f: Fragment<K>): nat {
    if bs == [] || f.form == 1 || bs[|bs| - 1].form == 3 || bs[|bs| - 1].key != f.key then |bs| else i
  }

  lemma BeginsNext<K>(bs: seq<Fragment<K>>, i: nat, f: Fragment<K>)
    requires bs == [] || Begins(bs, i)
    ensures Begins(bs + [f], Onward(bs, i, f))
    ensures var k := Onward(bs, i, f);
            Gathered(bs + [f], k) == if k < |bs| then Gathered(bs, i) + f.data else if f.form == 2 then [] else f.data
  {
    var more, k := bs + [f], Onward(bs, i, f);
    if k < |bs| {
      assert forall j :: 0 <= j < |bs| ==> more[j] == bs[j];
    } else if bs != [] {
      assert more[|bs| - 1] == bs[|bs| - 1];
    }
    GatheredNext(bs, k, f);
  }

  lemma GatheredNext<K>(bs: seq<Fragment<K>>, k: nat, f: Fragment<K>)
    requires k <= |bs|
    ensures Gathered(bs + [f], k) == if k < |bs| then Gathered(bs, k) + f.data else if f.form == 2 then [] else f.data
  {
    var more := bs + [f];
    if k < |bs| {
      assert more[k + 1..] == bs[k + 1..] + [f];
      assert more[k + 1..][..|bs| - k - 1] == bs[k + 1..];
    } else {
      assert more[k + 1..] == [];
    }
  }

  lemma {:induction false} WhereBegins<K>(bs: seq<Fragment<K>>) returns (i: nat)
    requires bs != []
    ensures Begins(bs, i)
  {
    hide Begins;
    var n := |bs| - 1;
    assert bs == bs[..n] + [bs[n]];
    var j := 0;
    if n > 0 { j := WhereBegins(bs[..n]); }
    BeginsNext(bs[..n], j, bs[n]);
    i := Onward(bs[..n], j, bs[n]);
  }

  /** The reassembler after packets of which bs went through the buffer. */
  ghost predicate Holds<K>(limit: Limit, bs: seq<Fragment<K>>, a: Assembler<K>) {
    if bs == [] || bs[|bs| - 1].form == 3 then a == Idle()
    else exists i: nat :: Begins(bs, i) && a == Assembler(Some(bs[|bs| - 1].key), Clip(limit, Gathered(bs, i)))
  }

  lemma OneMore<K>(limit: Limit, bs: seq<Fragment<K>>, i: nat, a: Assembler<K>, f: Fragment<K>)
    requires f.form != 0 && (bs == [] || Begins(bs, i))
    requires if bs == [] || bs[|bs| - 1].form == 3 then a == Idle()
             else a == Assembler(Some(bs[|bs| - 1].key), Clip(limit, Gathered(bs, i)))
    ensures var data := Clip(limit, Gathered(bs + [f], Onward(bs, i, f)));
            Step(limit, a, f) == if f.form == 3 then (Idle(), [Delivery(f.key, data)]) else (Assembler(Some(f.key), data), [])
  {
    hide Begins, Gathered, Step, Clip;
    BeginsNext(bs, i, f);
    if Onward(bs, i, f) < |bs| {
      ClipTwice(limit, Gathered(bs, i), f.data);
      GoesOn(limit, a, f);
    } else {
      StartsAnew(limit, a, f);
    }
  }

  lemma GoesOn<K>(limit: Limit, a: Assembler<K>, f: Fragment<K>)
    requires f.form > 1 && a.key == Some(f.key)
    ensures var data := Clip(limit, a.data + f.data);
            Step(limit, a, f) == if f.form == 3 then (Idle(), [Delivery(f.key, data)]) else (Assembler(Some(f.key), data), [])
  {
  }

  lemma StartsAnew<K>(limit: Limit, a: Assembler<K>, f: Fragment<K>)
    requires f.form == 1 || (f.form > 1 && a.key != Some(f.key))
    ensures var data := Clip(limit, if f.form == 2 then [] else f.data);
            Step(limit, a, f) == if f.form == 3 then (Idle(), [Delivery(f.key, data)]) else (Assembler(Some(f.key), data), [])
  {
    assert [] + f.data == f.data;
  }

  lemma AfterSnoc<K>(limit: Limit, a: Assembler<K>, fs: seq<Fragment<K>>, f: Fragment<K>)
    ensures After(limit, a, fs + [f]) == Step(limit, After(limit, a, fs), f).0
    ensures Delivered(limit, a, fs + [f]) == Delivered(limit, a, fs) + Step(limit, After(limit, a, fs), f).1
  {
    hide Step;
    RunAppend(limit, a, fs, [f]);
    var b := After(limit, a, fs);
    assert [f][1..] == [];
    assert Delivered(limit, b, [f]) == Step(limit, b, f).1 + [];
  }

  lemma BufferedSnoc<K>(fs: seq<Fragment<K>>, f: Fragment<K>)
    ensures Buffered(fs + [f]) == if f.form == 0 then Buffered(fs) else Buffered(fs) + [f]
  {
    assert (fs + [f])[..|fs|] == fs;
  }

  lemma HoldsNext<K>(limit: Limit, bs: seq<Fragment<K>>, a: Assembler<K>, f: Fragment<K>)
    requires Holds(limit, bs, a)
    ensures f.form == 0 ==> Step(limit, a, f).0 == a
    ensures f.form != 0 ==> Holds(limit, bs + [f], Step(limit, a, f).0)
  {
    hide Step, Begins, Gathered, Onward, Clip;
    if f.form == 0 {
      OnePacketStep(limit, a, f);
    } else {
      var i := BeginningOf(limit, bs, a);
      OneMore(limit, bs, i, a, f);
      BeginsNext(bs, i, f);
    }
  }

  lemma {:induction false} HoldsAfter<K>(limit: Limit, fs: seq<Fragment<K>>)
    ensures Holds(limit, Buffered(fs), After(limit, Idle(), fs))
    decreases |fs|
  {
    if fs != [] {
      hide Step, Buffered, After, Holds;
      var n := |fs| - 1;
      assert fs == fs[..n] + [fs[n]];
      HoldsAfter(limit, fs[..n]);
      AfterSnoc(limit, Idle(), fs[..n], fs[n]);
      BufferedSnoc(fs[..n], fs[n]);
      HoldsNext(limit, Buffered(fs[..n]), After(limit, Idle(), fs[..n]), fs[n]);
    }
  }

  lemma OnePacketStep<K>(limit: Limit, a: Assembler<K>, f: Fragment<K>)
    requires f.form == 0
    ensures Step(limit, a, f) == (a, [Delivery(f.key, f.data)])
  {
  }

  lemma BeginningOf<K>(limit: Limit, bs: seq<Fragment<K>>, a: Assembler<K>) returns (i: nat)
    requires Holds(limit, bs, a)
    ensures bs == [] || Begins(bs, i)
    ensures bs != [] && bs[|bs| - 1].form != 3 ==> a == Assembler(Some(bs[|bs| - 1].key), Clip(limit, Gathered(bs, i)))
  {
    hide Gathered;
    i := 0;
    if bs != [] {
      if bs[|bs| - 1].form == 3 {
        i := WhereBegins(bs);
      } else {
        i :| Begins(bs, i) && a == Assembler(Some(bs[|bs| - 1].key), Clip(limit, Gathered(bs, i)));
      }
    }
  }

  /** The first n bytes, where a buffer has room for n. */
  function Prefix(data: bytes, room: nat): bytes {
    if |data| <= room then data else data[..room]
  }

  /** For any packets, of any forms, keys and order: a one-packet message is
      delivered as it is; an END delivers, once, as much as the buffer has room for
      of the bytes gathered since the beginning of its message; and no other packet
      delivers anything. */
  lemma PacketMeaning<K>(room: nat, fs: seq<Fragment<K>>, f: Fragment<K>, i: nat)
    requires f.form != 0 ==> Begins(Buffered(fs) + [f], i)
    ensures var got := Delivered(Capacity(room), Idle(), fs);
            Delivered(Capacity(room), Idle(), fs + [f])
            == if f.form == 0 then got + [Delivery(f.key, f.data)]
               else if f.form == 3 then got + [Delivery(f.key, Prefix(Gathered(Buffered(fs) + [f], i), room))]
               else got
  {
    hide Step, Begins, Gathered, Buffered, After, Delivered, Onward;
    var limit, bs := Capacity(room), Buffered(fs);
    var a := After(limit, Idle(), fs);
    AfterSnoc(limit, Idle(), fs, f);
    if f.form == 0 {
      OnePacketStep(limit, a, f);
    } else {
      HoldsAfter(limit, fs);
      var j := BeginningOf(limit, bs, a);
      OneMore(limit, bs, j, a, f);
      BeginsNext(bs, j, f);
      BeginsOnce(bs + [f], i, Onward(bs, j, f));
    }
  }

  /** No payload has a byte of a packet of another group or stream: all it is
      gathered from have the key it is delivered for. */
  lemma OneKeyOnly<K>(fs: seq<Fragment<K>>, f: Fragment<K>, i: nat, j: nat)
    requires f.form != 0 && Begins(Buffered(fs) + [f], i) && i <= j <= |Buffered(fs)|
    ensures (Buffered(fs) + [f])[j].key == f.key
  {
    hide Buffered;
  }

  /** A START of another group in progress: its bytes are dropped. */
  lemma OtherKeyDiscards<K>(room: nat, k: K, l: K, x: bytes, y: bytes)
    requires k != l
    ensures Delivered(Capacity(room), Idle(), [Fragment(k, 1, x), Fragment(l, 3, y)]) == [Delivery(l, Prefix(y, room))]
    ensures Delivered(Capacity(room), Idle(), [Fragment(k, 1, x), Fragment(l, 2, y), Fragment(l, 3, y)])
            == [Delivery(l, Prefix(y, room))]
  {
    hide Step, Delivered, Begins, Gathered, Buffered, After;
    var a, b, c := Fragment(k, 1, x), Fragment(l, 3, y), Fragment(l, 2, y);
    var none: seq<Fragment<K>> := [];
    assert Delivered(Capacity(room), Idle(), none) == [] by { DeliveredNone<K>(Capacity(room), Idle()); }
    assert Buffered(none) == [] by { NoneBuffered<K>(); }
    BufferedSnoc(none, a);
    BufferedSnoc([a], c);
    assert none + [a] == [a] && [a] + [b] == [a, b] && [a] + [c] == [a, c] && [a, c] + [b] == [a, c, b];
    BeginsNext(none, 0, a);
    PacketMeaning(room, none, a, 0);
    BeginsNext([a], 0, b);
    PacketMeaning(room, [a], b, 1);
    BeginsNext([a], 0, c);
    PacketMeaning(room, [a], c, 1);
    BeginsNext([a, c], 1, b);
    PacketMeaning(room, [a, c], b, 1);
    assert [] + y == y;
  }

  lemma NoneBuffered<K>()
    ensures Buffered<K>([]) == []
  {
  }

  // ---- On the words ------------------------------------------------------------

  /** The SysEx7 packets among msgs. */
  function Packets7(msgs: seq<seq<word>>): seq<Fragment<nibble>>
    requires forall m :: m in msgs ==> |m| >= 1
  {
    if msgs == [] then []
    else (if msgs[0][0] / 0x1000_0000 == 3 && |msgs[0]| >= 2 then [Fragment7(msgs[0])] else []) + Packets7(msgs[1..])
  }

  function Packets8(msgs: seq<seq<word>>): seq<Fragment<StreamKey>>
    requires forall m :: m in msgs ==> |m| >= 1
  {
    if msgs == [] then []
    else (if msgs[0][0] / 0x1000_0000 == 5 && |msgs[0]| >= 4 then [Fragment8(msgs[0])] else []) + Packets8(msgs[1..])
  }

  function Only7(es: seq<Event>): seq<Event> {
    if es == [] then [] else (if es[0].OnSysEx7? then [es[0]] else []) + Only7(es[1..])
  }

  function Only8(es: seq<Event>): seq<Event> {
    if es == [] then [] else (if es[0].OnSysEx8? then [es[0]] else []) + Only8(es[1..])
  }

  lemma Only7Next(xs: seq<Event>, x: Event)
    ensures Only7([]) == [] && Only7([x] + xs) == if x.OnSysEx7? then [x] + Only7(xs) else Only7(xs)
  {
    assert ([x] + xs)[1..] == xs;
  }

  lemma {:induction false} Only7Append(xs: seq<Event>, ys: seq<Event>)
    ensures Only7(xs + ys) == Only7(xs) + Only7(ys)
  {
    hide Only7;
    if xs == [] {
      if ys != [] { Only7Next(ys[1..], ys[0]); } else { Only7Next(ys, OnUmp([])); }
      assert xs + ys == ys;
    } else {
      var x, more := xs[0], xs[1..];
      assert xs == [x] + more && xs + ys == [x] + (more + ys);
      Only7Next(more, x);
      Only7Next(more + ys, x);
      Only7Append(more, ys);
    }
  }

  lemma Only8Next(xs: seq<Event>, x: Event)
    ensures Only8([]) == [] && Only8([x] + xs) == if x.OnSysEx8? then [x] + Only8(xs) else Only8(xs)
  {
    assert ([x] + xs)[1..] == xs;
  }

  lemma {:induction false} Only8Append(xs: seq<Event>, ys: seq<Event>)
    ensures Only8(xs + ys) == Only8(xs) + Only8(ys)
  {
    hide Only8;
    if xs == [] {
      if ys != [] { Only8Next(ys[1..], ys[0]); } else { Only8Next(ys, OnUmp([])); }
      assert xs + ys == ys;
    } else {
      var x, more := xs[0], xs[1..];
      assert xs == [x] + more && xs + ys == [x] + (more + ys);
      Only8Next(more, x);
      Only8Next(more + ys, x);
      Only8Append(more, ys);
    }
  }

  lemma AtMostOne<K>(limit: Limit, a: Assembler<K>, f: Fragment<K>)
    ensures |Step(limit, a, f).1| <= 1
  {
  }

  lemma OnlyTheirs(es: seq<Event>)
    requires |es| <= 1
    ensures es != [] ==> Only7(es) == (if es[0].OnSysEx7? then es else []) && Only8(es) == (if es[0].OnSysEx8? then es else [])
    ensures es == [] ==> Only7(es) == [] && Only8(es) == []
  {
    if es != [] {
      assert es == [es[0]] && es[1..] == [];
      assert Only7([]) == [] && Only8([]) == [];
    }
  }

  lemma ProcessOne(cfg: Config, p: Proc, w: seq<word>)
    requires |w| >= 1 && cfg.limit7.Some? && cfg.limit8.Some?
    ensures var (q, es) := Process(cfg, p, w);
            && (if w[0] / 0x1000_0000 == 3 && |w| >= 2 then
                  Only7(es) == Events7(Step(cfg.limit7.value, p.sysex7, Fragment7(w)).1) && q.sysex7 == Step(cfg.limit7.value, p.sysex7, Fragment7(w)).0
                else Only7(es) == [] && q.sysex7 == p.sysex7)
            && (if w[0] / 0x1000_0000 == 5 && |w| >= 4 then
                  Only8(es) == Events8(Step(cfg.limit8.value, p.sysex8, Fragment8(w)).1) && q.sysex8 == Step(cfg.limit8.value, p.sysex8, Fragment8(w)).0
                else Only8(es) == [] && q.sysex8 == p.sysex8)
  {
    hide SysEx7Data, SysEx8Data, Form, SysEx8Stream, Step, Only7, Only8;
    if |w| >= 2 { AtMostOne(cfg.limit7.value, p.sysex7, Fragment7(w)); }
    if |w| >= 4 { AtMostOne(cfg.limit8.value, p.sysex8, Fragment8(w)); }
    OnlyTheirs(Process(cfg, p, w).1);
    assert Mt(w[0]) == w[0] / 0x1000_0000;
  }

  lemma EventsAppend(xs: seq<Delivery<nibble>>, ys: seq<Delivery<nibble>>, us: seq<Delivery<StreamKey>>, vs: seq<Delivery<StreamKey>>)
    ensures Events7(xs + ys) == Events7(xs) + Events7(ys) && Events8(us + vs) == Events8(us) + Events8(vs)
  {
  }

  lemma {:induction false} Deliveries7(cfg: Config, p: Proc, msgs: seq<seq<word>>)
    requires cfg.limit7.Some? && cfg.limit8.Some? && forall m :: m in msgs ==> |m| >= 1
    ensures Only7(ProcessAll(cfg, p, msgs).1) == Events7(Delivered(cfg.limit7.value, p.sysex7, Packets7(msgs)))
    decreases |msgs|
  {
    hide Process, ProcessAll, Packets7, Packets8, Step, Fragment7, Fragment8, Events7, Events8, Only7, Only8, Delivered;
    if msgs == [] {
      NoMessages(cfg, p);
      DeliveredNone(cfg.limit7.value, p.sysex7);
      assert Only7([]) == [] == Events7([]) by { NoEvents(); }
    } else {
      var (q, es) := Process(cfg, p, msgs[0]);
      ProcessOne(cfg, p, msgs[0]);
      FirstMessage(cfg, p, msgs);
      Deliveries7(cfg, q, msgs[1..]);
      Only7Append(es, ProcessAll(cfg, q, msgs[1..]).1);
      if msgs[0][0] / 0x1000_0000 == 3 && |msgs[0]| >= 2 {
        var f := Fragment7(msgs[0]);
        DeliveredCons(cfg.limit7.value, p.sysex7, f, Packets7(msgs[1..]));
        EventsAppend(Step(cfg.limit7.value, p.sysex7, f).1, Delivered(cfg.limit7.value, q.sysex7, Packets7(msgs[1..])), [], []);
      }
    }
  }

  lemma {:induction false} Deliveries8(cfg: Config, p: Proc, msgs: seq<seq<word>>)
    requires cfg.limit7.Some? && cfg.limit8.Some? && forall m :: m in msgs ==> |m| >= 1
    ensures Only8(ProcessAll(cfg, p, msgs).1) == Events8(Delivered(cfg.limit8.value, p.sysex8, Packets8(msgs)))
    decreases |msgs|
  {
    hide Process, ProcessAll, Packets7, Packets8, Step, Fragment7, Fragment8, Events7, Events8, Only7, Only8, Delivered;
    if msgs == [] {
      NoMessages(cfg, p);
      DeliveredNone(cfg.limit8.value, p.sysex8);
      assert Only8([]) == [] == Events8([]) by { NoEvents(); }
    } else {
      var (q, es) := Process(cfg, p, msgs[0]);
      ProcessOne(cfg, p, msgs[0]);
      FirstMessage(cfg, p, msgs);
      Deliveries8(cfg, q, msgs[1..]);
      Only8Append(es, ProcessAll(cfg, q, msgs[1..]).1);
      if msgs[0][0] / 0x1000_0000 == 5 && |msgs[0]| >= 4 {
        var f := Fragment8(msgs[0]);
        DeliveredCons(cfg.limit8.value, p.sysex8, f, Packets8(msgs[1..]));
        EventsAppend([], [], Step(cfg.limit8.value, p.sysex8, f).1, Delivered(cfg.limit8.value, q.sysex8, Packets8(msgs[1..])));
      }
    }
  }

  lemma NoMessages(cfg: Config, p: Proc)
    ensures ProcessAll(cfg, p, []) == (p, []) && Packets7([]) == [] && Packets8([]) == []
  {
  }

  lemma FirstMessage(cfg: Config, p: Proc, msgs: seq<seq<word>>)
    requires msgs != [] && forall m :: m in msgs ==> |m| >= 1
    ensures var (q, es) := Process(cfg, p, msgs[0]);
            ProcessAll(cfg, p, msgs).1 == es + ProcessAll(cfg, q, msgs[1..]).1
    ensures Packets7(msgs) == if msgs[0][0] / 0x1000_0000 == 3 && |msgs[0]| >= 2 then [Fragment7(msgs[0])] + Packets7(msgs[1..])
                              else Packets7(msgs[1..])
    ensures Packets8(msgs) == if msgs[0][0] / 0x1000_0000 == 5 && |msgs[0]| >= 4 then [Fragment8(msgs[0])] + Packets8(msgs[1..])
                              else Packets8(msgs[1..])
  {
    hide Process, Fragment7, Fragment8;
  }

  lemma NoEvents()
    ensures Only7([]) == [] == Events7([]) && Only8([]) == [] == Events8([])
  {
  }

  /** Whatever messages are processed, the SysEx callbacks are the deliveries for the
      packets of their type, each type for itself. */
  lemma CallbacksAreDeliveries(cfg: Config, p: Proc, msgs: seq<seq<word>>)
    requires cfg.limit7.Some? && cfg.limit8.Some? && forall m :: m in msgs ==> |m| >= 1
    ensures Only7(ProcessAll(cfg, p, msgs).1) == Events7(Delivered(cfg.limit7.value, p.sysex7, Packets7(msgs)))
    ensures Only8(ProcessAll(cfg, p, msgs).1) == Events8(Delivered(cfg.limit8.value, p.sysex8, Packets8(msgs)))
  {
    hide ProcessAll, Delivered, Packets7, Packets8;
    Deliveries7(cfg, p, msgs);
    Deliveries8(cfg, p, msgs);
  }
}
