/** SysEx fragments and their reassembly (src/midi2_proc.c), for any stream key:
    the group for SysEx7, the group and stream id for SysEx8. */
module Reassembly {
  import opened Words
  import opened Ump

  datatype Option<T> = None | Some(value: T)

  datatype Fragment<K> = Fragment(key: K, form: nibble, data: bytes)
  datatype Delivery<K> = Delivery(key: K, data: bytes)

  /** The message in progress: whose it is, and the bytes stored so far. */
  datatype Assembler<K> = Assembler(key: Option<K>, data: bytes)

  datatype Limit = Unbounded | Capacity(size: nat)

  function Clip(limit: Limit, data: bytes): bytes {
    if limit.Capacity? && |data| > limit.size then data[..limit.size] else data
  }

  // ---- The receiver (midi2_proc.c:79-113, 145-182) -------------------------

  /** One fragment. Forms above END occur on the wire (Mixed Data Set packets);
      like CONTINUE they append, but they also open a message of another key. */
  function Step<K(==)>(limit: Limit, a: Assembler<K>, f: Fragment<K>): (Assembler<K>, seq<Delivery<K>>) {
    if f.form == COMPLETE then (a, [Delivery(f.key, f.data)])
    else if f.form == CONTINUE && a.key != Some(f.key) then (Assembler(Some(f.key), []), [])
    else
      var kept := if f.form == START || a.key != Some(f.key) then [] else a.data;
      var data := Clip(limit, kept + f.data);
      if f.form == END then (Assembler(None, []), [Delivery(f.key, data)])
      else (Assembler(Some(f.key), data), [])
  }

  function After<K(==)>(limit: Limit, a: Assembler<K>, fs: seq<Fragment<K>>): Assembler<K>
    decreases |fs|
  {
    if fs == [] then a else After(limit, Step(limit, a, fs[0]).0, fs[1..])
  }

  function Delivered<K(==)>(limit: Limit, a: Assembler<K>, fs: seq<Fragment<K>>): seq<Delivery<K>>
    decreases |fs|
  {
    if fs == [] then [] else Step(limit, a, fs[0]).1 + Delivered(limit, Step(limit, a, fs[0]).0, fs[1..])
  }

  lemma DeliveredNone<K>(limit: Limit, a: Assembler<K>)
    ensures Delivered(limit, a, []) == []
  {
  }

  lemma DeliveredCons<K>(limit: Limit, a: Assembler<K>, f: Fragment<K>, fs: seq<Fragment<K>>)
    ensures Delivered(limit, a, [f] + fs) == Step(limit, a, f).1 + Delivered(limit, Step(limit, a, f).0, fs)
  {
    assert ([f] + fs)[1..] == fs;
  }

  lemma {:induction false} RunAppend<K>(limit: Limit, a: Assembler<K>, xs: seq<Fragment<K>>, ys: seq<Fragment<K>>)
    ensures After(limit, a, xs + ys) == After(limit, After(limit, a, xs), ys)
    ensures Delivered(limit, a, xs + ys) == Delivered(limit, a, xs) + Delivered(limit, After(limit, a, xs), ys)
    decreases |xs|
  {
    if xs == [] {
      assert xs + ys == ys;
    } else {
      RunAppend(limit, Step(limit, a, xs[0]).0, xs[1..], ys);
      assert (xs + ys)[1..] == xs[1..] + ys;
    }
  }

  // ---- A bounded buffer against an unbounded one ---------------------------

  function Bound<K>(limit: Limit, a: Assembler<K>): Assembler<K> {
    a.(data := Clip(limit, a.data))
  }

  function ClipAll<K>(limit: Limit, ds: seq<Delivery<K>>): (r: seq<Delivery<K>>)
    ensures |r| == |ds|
  {
    seq(|ds|, i requires 0 <= i < |ds| => Delivery(ds[i].key, Clip(limit, ds[i].data)))
  }

  lemma ClipTwice(limit: Limit, x: bytes, y: bytes)
    ensures Clip(limit, Clip(limit, x) + y) == Clip(limit, x + y)
  {
    if limit.Capacity? && |x| > limit.size {
      assert (x[..limit.size] + y)[..limit.size] == (x + y)[..limit.size];
    }
  }

  lemma BoundedStep<K>(limit: Limit, a: Assembler<K>, f: Fragment<K>)
    ensures Step(limit, Bound(limit, a), f).0 == Bound(limit, Step(Unbounded, a, f).0)
    ensures Step(limit, Bound(limit, a), f).1
            == if f.form == COMPLETE then Step(Unbounded, a, f).1 else ClipAll(limit, Step(Unbounded, a, f).1)
  {
    var ds := Step(Unbounded, a, f).1;
    assert ClipAll(limit, ds) == if ds == [] then [] else [Delivery(ds[0].key, Clip(limit, ds[0].data))];
    ClipTwice(limit, a.data, f.data);
  }

  lemma {:induction false} BoundedAfter<K>(limit: Limit, a: Assembler<K>, fs: seq<Fragment<K>>)
    ensures After(limit, Bound(limit, a), fs) == Bound(limit, After(Unbounded, a, fs))
    decreases |fs|
  {
    if fs != [] {
      BoundedStep(limit, a, fs[0]);
      BoundedAfter(limit, Step(Unbounded, a, fs[0]).0, fs[1..]);
    }
  }

  /** At every step of every run, from any state, the bounded receiver holds the
      prefix of what the unbounded one holds that fits, and delivers the same
      messages, cut to that prefix unless they came in one packet. */
  lemma BoundedRefinesUnbounded<K>(size: nat, start: Assembler<K>, fs: seq<Fragment<K>>, i: nat)
    requires i < |fs|
    ensures var limit := Capacity(size);
            var a := After(Unbounded, start, fs[..i]);
            var b := After(limit, Bound(limit, start), fs[..i]);
            && b == Bound(limit, a) && |b.data| <= size
            && Step(limit, b, fs[i]).1
               == if fs[i].form == COMPLETE then Step(Unbounded, a, fs[i]).1
                  else ClipAll(limit, Step(Unbounded, a, fs[i]).1)
  {
    BoundedAfter(Capacity(size), start, fs[..i]);
    BoundedStep(Capacity(size), After(Unbounded, start, fs[..i]), fs[i]);
  }

  // ---- The senders (midi2_proc.c:252-311, 438-462) -------------------------

  /** midi2_proc_stream_form. */
  function FormOf(isFirst: bool, isLast: bool): nibble {
    if isFirst then (if isLast then COMPLETE else START) else if isLast then END else CONTINUE
  }

  function FragmentsFrom<K>(key: K, data: bytes, size: nat, offset: nat): (fs: seq<Fragment<K>>)
    requires size > 0 && offset <= |data|
    decreases |data| - offset
  {
    if offset == |data| then []
    else
      var n := Min(size, |data| - offset);
      [Fragment(key, FormOf(offset == 0, |data| - offset <= size), data[offset..offset + n])]
      + FragmentsFrom(key, data, size, offset + n)
  }

  lemma NextFragment<K>(key: K, data: bytes, size: nat, offset: nat)
    requires size > 0 && offset <= |data|
    ensures offset == |data| ==> FragmentsFrom(key, data, size, offset) == []
    ensures offset < |data| ==>
              var next := offset + Min(size, |data| - offset);
              FragmentsFrom(key, data, size, offset)
              == [Fragment(key, FormOf(offset == 0, next == |data|), data[offset..next])] + FragmentsFrom(key, data, size, next)
  {
  }

  /** The packets of one message of up to size bytes each. */
  function Fragments<K>(key: K, data: bytes, size: nat): seq<Fragment<K>>
    requires size > 0
  {
    FragmentsFrom(key, data, size, 0)
  }

  lemma {:induction false} FragmentCount<K>(key: K, data: bytes, size: nat, offset: nat)
    requires size > 0 && offset <= |data|
    ensures var n := |FragmentsFrom(key, data, size, offset)|; var rest := |data| - offset;
            rest <= n * size < rest + size
    decreases |data| - offset
  {
    if offset < |data| {
      var n := Min(size, |data| - offset);
      FragmentCount(key, data, size, offset + n);
      var m := |FragmentsFrom(key, data, size, offset + n)|;
      assert (m + 1) * size == m * size + size;
      assert n < size ==> m == 0;
    }
  }

  lemma {:induction false} FragmentsFit<K>(key: K, data: bytes, size: nat, offset: nat)
    requires size > 0 && offset <= |data|
    ensures forall f :: f in FragmentsFrom(key, data, size, offset) ==>
              f.key == key && f.form <= END && 0 < |f.data| <= size && (Is7Bit(data) ==> Is7Bit(f.data))
    decreases |data| - offset
  {
    if offset < |data| {
      FragmentsFit(key, data, size, offset + Min(size, |data| - offset));
    }
  }

  predicate Fits(limit: Limit, data: bytes) {
    limit.Capacity? ==> |data| <= limit.size
  }

  /** Mid-message: the remaining fragments deliver the message once, on the last. */
  lemma {:induction false} Finish<K>(limit: Limit, key: K, data: bytes, size: nat, offset: nat, k: nat)
    requires size > 0 && 0 < offset < |data| && Fits(limit, data)
    requires k <= |FragmentsFrom(key, data, size, offset)|
    ensures var fs := FragmentsFrom(key, data, size, offset);
            Delivered(limit, Assembler(Some(key), data[..offset]), fs[..k])
            == if k == |fs| then [Delivery(key, data)] else []
    decreases |data| - offset
  {
    hide FragmentsFrom, Delivered;
    NextFragment(key, data, size, offset);
    var next := offset + Min(size, |data| - offset);
    var f := Fragment(key, FormOf(false, next == |data|), data[offset..next]);
    var more := FragmentsFrom(key, data, size, next);
    DeliveredNone(limit, Assembler(Some(key), data[..offset]));
    if k > 0 {
      assert ([f] + more)[..k] == [f] + more[..k - 1];
      DeliveredCons(limit, Assembler(Some(key), data[..offset]), f, more[..k - 1]);
      assert data[..offset] + data[offset..next] == data[..next];
      if next < |data| {
        Finish(limit, key, data, size, next, k - 1);
      } else {
        NextFragment(key, data, size, next);
        DeliveredNone<K>(limit, Assembler(None, []));
        assert data[..next] == data;
      }
    }
  }

  /** Whatever state the receiver is in, the first k packets of a message deliver
      the message if they are all of them, and nothing otherwise. */
  lemma Prefix<K>(limit: Limit, a: Assembler<K>, key: K, data: bytes, size: nat, k: nat)
    requires size > 0 && Fits(limit, data)
    requires k <= |Fragments(key, data, size)|
    ensures var fs := Fragments(key, data, size);
            Delivered(limit, a, fs[..k]) == if k == |fs| && data != [] then [Delivery(key, data)] else []
  {
    var fs := Fragments(key, data, size);
    if k > 0 {
      var next := Min(size, |data|);
      assert fs[..k][1..] == FragmentsFrom(key, data, size, next)[..k - 1];
      if next < |data| {
        assert [] + data[0..next] == data[..next];
        Finish(limit, key, data, size, next, k - 1);
      } else {
        assert data[0..next] == data;
      }
    }
  }

  /** Sending a message to a receiver in any state, with room for it, causes
      exactly one delivery, of that message, in the least number of packets that
      can hold it. */
  lemma RoundTrip<K>(limit: Limit, a: Assembler<K>, key: K, data: bytes, size: nat)
    requires size > 0 && data != [] && Fits(limit, data)
    ensures Delivered(limit, a, Fragments(key, data, size)) == [Delivery(key, data)]
    ensures var n := |Fragments(key, data, size)|; (n - 1) * size < |data| <= n * size
  {
    var fs := Fragments(key, data, size);
    Prefix(limit, a, key, data, size, |fs|);
    assert fs[..|fs|] == fs;
    FragmentCount(key, data, size, 0);
    assert (|fs| - 1) * size == |fs| * size - size;
  }

  // ---- A sink that may refuse any write ------------------------------------

  datatype Send<K> = Send(key: K, data: bytes)

  /** What the sink answers to its i-th write: accepted whole, or refused. */
  type Sink = nat -> bool

  /** The packets the sink takes when a sender stops at the first refusal, the
      next write being the sink's t-th. */
  function Accepted<P>(packets: seq<P>, sink: Sink, t: nat): (r: seq<P>)
    ensures r <= packets
  {
    if packets == [] || !sink(t) then [] else [packets[0]] + Accepted(packets[1..], sink, t + 1)
  }

  /** The number of writes attempted. */
  function Writes<P>(packets: seq<P>, sink: Sink, t: nat): nat {
    if packets == [] then 0 else if sink(t) then 1 + Writes(packets[1..], sink, t + 1) else 1
  }

  /** Everything the sink takes over a whole sequence of sends. */
  function Wire<K>(sends: seq<Send<K>>, size: nat, sink: Sink, t: nat): seq<Fragment<K>>
    requires size > 0
  {
    if sends == [] then []
    else
      var fs := Fragments(sends[0].key, sends[0].data, size);
      Accepted(fs, sink, t) + Wire(sends[1..], size, sink, t + Writes(fs, sink, t))
  }

  predicate AllAccepted(n: nat, sink: Sink, t: nat) {
    forall i :: t <= i < t + n ==> sink(i)
  }

  /** The messages that have bytes and whose every packet was accepted, in order. */
  function Survivors<K>(sends: seq<Send<K>>, size: nat, sink: Sink, t: nat): seq<Delivery<K>>
    requires size > 0
  {
    if sends == [] then []
    else
      var fs := Fragments(sends[0].key, sends[0].data, size);
      (if sends[0].data != [] && AllAccepted(|fs|, sink, t)
       then [Delivery(sends[0].key, sends[0].data)] else [])
      + Survivors(sends[1..], size, sink, t + Writes(fs, sink, t))
  }

  lemma {:induction false} AcceptedAll<P>(packets: seq<P>, sink: Sink, t: nat)
    ensures Accepted(packets, sink, t) == packets <==> AllAccepted(|packets|, sink, t)
  {
    if packets != [] {
      AcceptedAll(packets[1..], sink, t + 1);
      if sink(t) {
        assert packets == [packets[0]] + packets[1..];
        assert AllAccepted(|packets|, sink, t) <==> AllAccepted(|packets[1..]|, sink, t + 1);
      }
    }
  }

  lemma OneSend<K>(limit: Limit, a: Assembler<K>, send: Send<K>, size: nat, sink: Sink, t: nat)
    requires size > 0 && Fits(limit, send.data)
    ensures var fs := Fragments(send.key, send.data, size);
            Delivered(limit, a, Accepted(fs, sink, t))
            == if send.data != [] && AllAccepted(|fs|, sink, t) then [Delivery(send.key, send.data)] else []
  {
    var fs := Fragments(send.key, send.data, size);
    var got := Accepted(fs, sink, t);
    AcceptedAll(fs, sink, t);
    assert got == fs[..|got|];
    Prefix(limit, a, send.key, send.data, size, |got|);
  }

  /** Through a sink that refuses any writes it likes, the receiver gets exactly
      the surviving messages, once each, in order, and nothing of the others. */
  lemma {:induction false} LossySink<K>(limit: Limit, a: Assembler<K>, sends: seq<Send<K>>, size: nat, sink: Sink, t: nat)
    requires size > 0 && forall i :: 0 <= i < |sends| ==> Fits(limit, sends[i].data)
    ensures Delivered(limit, a, Wire(sends, size, sink, t)) == Survivors(sends, size, sink, t)
    decreases |sends|
  {
    if sends != [] {
      var fs := Fragments(sends[0].key, sends[0].data, size);
      var got := Accepted(fs, sink, t);
      var t' := t + Writes(fs, sink, t);
      OneSend(limit, a, sends[0], size, sink, t);
      RunAppend(limit, a, got, Wire(sends[1..], size, sink, t'));
      LossySink(limit, After(limit, a, got), sends[1..], size, sink, t');
    }
  }
}
