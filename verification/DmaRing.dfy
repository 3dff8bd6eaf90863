/**
 * The DMA descriptor ring shared by driver and hardware. The driver enqueues
 * at one position and dequeues at another; the hardware completes the
 * descriptors it owns (init bit set) in order at a position of its own.
 */
module DmaRing {
  import opened Common

  const DESC_CNT: nat := 256
  const MAX_LEN: nat := 0x7ff

  /** A buffer as it is enqueued: length and management field (ports, flags). */
  datatype Frame = Frame(buf: nat, len: nat, mgmt: nat)

  /** What the hardware writes back on completion; length and management field on reception only. */
  datatype Mark = Mark(lerr: bool, err: bool, len: nat, mgmt: nat)

  datatype Desc = Desc(init: bool, lerr: bool, err: bool, len: nat, mgmt: nat, buf: nat)

  datatype Got = Sent(buf: nat) | Received(buf: nat, len: nat, mgmt: nat)

  // ---------------------------------------------------------------- the ring as an unbounded queue

  /** All frames that ever entered, all completions, how many buffers left, and the error count. */
  datatype Ring = Ring(entered: seq<Frame>, done: seq<Mark>, out: nat, errors: nat)

  predicate RingOk(r: Ring) {
    r.out <= |r.done| <= |r.entered| <= r.out + DESC_CNT - 1
  }

  /** Driver and hardware steps; an enqueue says whether its buffer can be mapped. */
  datatype Event = Enq(frame: Frame, mapped: bool) | Complete(mark: Mark) | Deq

  datatype Result = Queued(st: Status) | Processed(seen: Option<Frame>) | Taken(got: Option<Got>)

  function Errors(m: Mark): nat {
    (if m.lerr then 1 else 0) + (if m.err then 1 else 0)
  }

  function GotOf(rx: bool, f: Frame, m: Mark): Got {
    if rx then Received(f.buf, m.len, m.mgmt) else Sent(f.buf)
  }

  function OnWire(f: Frame): Frame {
    f.(len := f.len % (MAX_LEN + 1))
  }

  function Reply(r: Ring, rx: bool, e: Event): Result
    requires RingOk(r)
  {
    match e
    case Enq(f, mapped) =>
      var cnt := |r.entered| - r.out;
      Queued(if cnt >= DESC_CNT - 1 || !mapped then ENoMem else if cnt + 1 < DESC_CNT - 1 then Ok else ENoSpc)
    case Complete(m) =>
      Processed(if |r.done| < |r.entered| then Some(OnWire(r.entered[|r.done|])) else None)
    case Deq =>
      Taken(if r.out < |r.done| then Some(GotOf(rx, r.entered[r.out], r.done[r.out])) else None)
  }

  function Next(r: Ring, rx: bool, e: Event): (n: Ring)
    requires RingOk(r)
    ensures RingOk(n)
  {
    match e
    case Enq(f, _) => if Reply(r, rx, e) == Queued(ENoMem) then r else r.(entered := r.entered + [f])
    case Complete(m) => if |r.done| < |r.entered| then r.(done := r.done + [m]) else r
    case Deq => if r.out < |r.done| then r.(out := r.out + 1, errors := r.errors + Errors(r.done[r.out])) else r
  }

  const EMPTY := Ring([], [], 0, 0)

  function After(rx: bool, es: seq<Event>): (r: Ring)
    ensures RingOk(r)
  {
    if es == [] then EMPTY else Next(After(rx, es[..|es| - 1]), rx, es[|es| - 1])
  }

  function Replies(rx: bool, es: seq<Event>): (rs: seq<Result>)
    ensures |rs| == |es|
  {
    if es == [] then [] else Replies(rx, es[..|es| - 1]) + [Reply(After(rx, es[..|es| - 1]), rx, es[|es| - 1])]
  }

  /** The buffers of the frames that were accepted, in order. */
  function Accepted(es: seq<Event>, rs: seq<Result>): seq<nat>
    requires |es| == |rs|
  {
    if es == [] then []
    else
      var n := |es| - 1;
      Accepted(es[..n], rs[..n]) + (if es[n].Enq? && rs[n] != Queued(ENoMem) then [es[n].frame.buf] else [])
  }

  /** The buffers that were handed back, in order. */
  function Returned(rs: seq<Result>): seq<nat> {
    if rs == [] then []
    else
      var n := |rs| - 1;
      Returned(rs[..n]) + (if rs[n].Taken? && rs[n].got.Some? then [rs[n].got.value.buf] else [])
  }

  function Bufs(fs: seq<Frame>): (bs: seq<nat>)
    ensures |bs| == |fs| && forall i :: 0 <= i < |bs| ==> bs[i] == fs[i].buf
  {
    seq(|fs|, i requires 0 <= i < |fs| => fs[i].buf)
  }

  /** Buffers leave once and in the order they entered: what was handed back is a prefix of what was
      accepted, and at most 255 buffers are missing. */
  lemma {:induction false} FirstInFirstOut(rx: bool, es: seq<Event>)
    ensures var rs := Replies(rx, es);
            && Returned(rs) <= Accepted(es, rs)
            && |Accepted(es, rs)| - |Returned(rs)| <= DESC_CNT - 1
            && Accepted(es, rs) == Bufs(After(rx, es).entered)
            && Returned(rs) == Bufs(After(rx, es).entered)[..After(rx, es).out]
  {
    if es != [] {
      var n := |es| - 1;
      FirstInFirstOut(rx, es[..n]);
      assert Replies(rx, es)[..n] == Replies(rx, es[..n]);
      OneStep(rx, After(rx, es[..n]), es[n]);
    }
  }

  /** What one step adds to the buffers that entered and left. */
  lemma OneStep(rx: bool, r: Ring, e: Event)
    requires RingOk(r)
    ensures var n, a := Next(r, rx, e), Reply(r, rx, e);
            && Bufs(n.entered) == Bufs(r.entered) + (if e.Enq? && a != Queued(ENoMem) then [e.frame.buf] else [])
            && Bufs(n.entered)[..n.out] ==
               Bufs(r.entered)[..r.out] + (if a.Taken? && a.got.Some? then [a.got.value.buf] else [])
  {
  }

  // ---------------------------------------------------------------- what goes in and what comes out

  /** The frames that were accepted, in order. */
  function Entered(es: seq<Event>, rs: seq<Result>): seq<Frame>
    requires |es| == |rs|
  {
    if es == [] then []
    else
      var n := |es| - 1;
      Entered(es[..n], rs[..n]) + (if es[n].Enq? && rs[n] != Queued(ENoMem) then [es[n].frame] else [])
  }

  /** The frames that the hardware has processed, in order, as it saw them. */
  function Seen(rs: seq<Result>): seq<Frame> {
    if rs == [] then []
    else
      var n := |rs| - 1;
      Seen(rs[..n]) + (if rs[n].Processed? && rs[n].seen.Some? then [rs[n].seen.value] else [])
  }

  /** What it wrote back, in order. */
  function Marks(es: seq<Event>, rs: seq<Result>): seq<Mark>
    requires |es| == |rs|
  {
    if es == [] then []
    else
      var n := |es| - 1;
      Marks(es[..n], rs[..n]) + (if es[n].Complete? && rs[n] != Processed(None) then [es[n].mark] else [])
  }

  /** What was handed back to the driver's users, in order. */
  function Gots(rs: seq<Result>): seq<Got> {
    if rs == [] then []
    else
      var n := |rs| - 1;
      Gots(rs[..n]) + (if rs[n].Taken? && rs[n].got.Some? then [rs[n].got.value] else [])
  }

  /** Number of error flags in the first n completions. */
  function ErrorFlags(ms: seq<Mark>, n: nat): nat
    requires n <= |ms|
  {
    if n == 0 then 0
    else ErrorFlags(ms, n - 1) + (if ms[n - 1].lerr then 1 else 0) + (if ms[n - 1].err then 1 else 0)
  }

  /** The hardware processes the accepted frames in order, with their buffers, their management fields and their
      lengths, as far as 11 bits express them; what is handed back is, in the same order, their buffers, on
      reception with the length and the management field that the hardware wrote. */
  ghost predicate Carries(rx: bool, fs: seq<Frame>, seen: seq<Frame>, ms: seq<Mark>, gots: seq<Got>) {
    && |gots| <= |ms| == |seen| <= |fs| <= |gots| + 255
    && (forall i :: 0 <= i < |seen| ==> seen[i].buf == fs[i].buf && seen[i].mgmt == fs[i].mgmt && seen[i].len < 2048)
    && (forall i :: 0 <= i < |seen| ==> (seen[i].len == fs[i].len <==> fs[i].len <= 2047) && (fs[i].len - seen[i].len) % 2048 == 0)
    && (forall i :: 0 <= i < |gots| ==>
          gots[i] == if rx then Received(fs[i].buf, ms[i].len, ms[i].mgmt) else Sent(fs[i].buf))
  }

  /** The lists of what was seen and handed back are those of the ring. */
  ghost predicate RingShows(rx: bool, r: Ring, seen: seq<Frame>, gots: seq<Got>)
    requires RingOk(r)
  {
    && |seen| == |r.done| && (forall i :: 0 <= i < |r.done| ==> seen[i] == OnWire(r.entered[i]))
    && |gots| == r.out && (forall i :: 0 <= i < r.out ==> gots[i] == GotOf(rx, r.entered[i], r.done[i]))
    && r.errors == ErrorFlags(r.done, r.out)
  }

  lemma RingShowsStep(rx: bool, r: Ring, e: Event, seen: seq<Frame>, gots: seq<Got>)
    requires RingOk(r) && RingShows(rx, r, seen, gots)
    ensures var a := Reply(r, rx, e);
            RingShows(rx, Next(r, rx, e), seen + (if a.Processed? && a.seen.Some? then [a.seen.value] else []),
                      gots + (if a.Taken? && a.got.Some? then [a.got.value] else []))
  {
    hide OnWire, GotOf;
    FlagsOfMore(r.done, Next(r, rx, e).done, r.out);
  }

  /** The lists of a history are the ring's. */
  lemma {:induction false} RingLists(rx: bool, es: seq<Event>)
    ensures var rs, r := Replies(rx, es), After(rx, es);
            Entered(es, rs) == r.entered && Marks(es, rs) == r.done && RingShows(rx, r, Seen(rs), Gots(rs))
  {
    hide OnWire, GotOf;
    if es != [] {
      hide RingShows;
      var n := |es| - 1;
      RingLists(rx, es[..n]);
      assert Replies(rx, es)[..n] == Replies(rx, es[..n]);
      RingShowsStep(rx, After(rx, es[..n]), es[n], Seen(Replies(rx, es[..n])), Gots(Replies(rx, es[..n])));
    }
  }

  lemma {:induction false} FlagsOfMore(a: seq<Mark>, b: seq<Mark>, n: nat)
    requires a <= b && n <= |a|
    ensures ErrorFlags(a, n) == ErrorFlags(b, n)
  {
    if n > 0 {
      FlagsOfMore(a, b, n - 1);
    }
  }

  /** In every interleaving frames and completions are carried in order and undamaged, and the error count is
      the number of error flags of what was handed back. */
  lemma CarriedInOrder(rx: bool, es: seq<Event>)
    ensures var rs := Replies(rx, es);
            && Carries(rx, Entered(es, rs), Seen(rs), Marks(es, rs), Gots(rs))
            && |Gots(rs)| <= |Marks(es, rs)| && After(rx, es).errors == ErrorFlags(Marks(es, rs), |Gots(rs)|)
  {
    hide Replies, Entered, Seen, Marks, Gots, After;
    RingLists(rx, es);
    LowElevenBits();
  }

  lemma LowElevenBits()
    ensures forall f: Frame {:trigger OnWire(f)} ::
              && OnWire(f).buf == f.buf && OnWire(f).mgmt == f.mgmt && OnWire(f).len < 2048
              && (OnWire(f).len == f.len <==> f.len <= 2047) && (f.len - OnWire(f).len) % 2048 == 0
  {
  }

  // ---------------------------------------------------------------- positions

  /** The one number in [base, base + 256) that lies at a ring position. */
  function Idx(base: nat, p: nat): (i: nat)
    requires p < DESC_CNT
    ensures base <= i < base + DESC_CNT && i % DESC_CNT == p
  {
    base + (p - base) % DESC_CNT
  }

  lemma IdxUnique(base: nat, i: nat)
    requires base <= i < base + DESC_CNT
    ensures Idx(base, i % DESC_CNT) == i
  {
  }

  lemma IdxStep(base: nat, p: nat)
    requires p < DESC_CNT
    ensures Idx(base + 1, p) == if p == base % DESC_CNT then base + DESC_CNT else Idx(base, p)
  {
  }

  function Pos(n: nat): (p: nat)
    ensures p < DESC_CNT
  {
    n % DESC_CNT
  }

  lemma PosNext(n: nat)
    ensures (Pos(n) + 1) % DESC_CNT == Pos(n + 1)
  {
  }

  /** Slot contents for the i-th frame ever: the window of frames inside the ring, empty otherwise. */
  predicate SlotOk(r: Ring, rx: bool, i: nat, skb: Option<nat>, d: Desc)
  {
    if i < |r.entered| then
      var f := r.entered[i];
      && skb == Some(f.buf) && d.buf == f.buf
      && (d.init <==> i >= |r.done|)
      && (if i < |r.done| then
            var m := r.done[i];
            d.lerr == m.lerr && d.err == m.err && (rx ==> d.len == m.len && d.mgmt == m.mgmt)
          else !d.lerr && !d.err && d.len == OnWire(f).len && d.mgmt == f.mgmt)
    else
      skb == None && !d.init && !d.lerr && !d.err
  }

  predicate SlotsOk(r: Ring, rx: bool, skb: seq<Option<nat>>, desc: seq<Desc>) {
    && |skb| == |desc| == DESC_CNT
    && forall p :: 0 <= p < DESC_CNT ==> SlotOk(r, rx, Idx(r.out, p), skb[p], desc[p])
  }

  lemma SlotAt(r: Ring, rx: bool, skb: seq<Option<nat>>, desc: seq<Desc>, i: nat)
    requires SlotsOk(r, rx, skb, desc) && r.out <= i < r.out + DESC_CNT
    ensures |skb| == |desc| == DESC_CNT && SlotOk(r, rx, i, skb[Pos(i)], desc[Pos(i)])
  {
    IdxUnique(r.out, i);
    assert SlotOk(r, rx, Idx(r.out, Pos(i)), skb[Pos(i)], desc[Pos(i)]);
  }

  /** A step that writes the slot of the i-th frame keeps all slots in order. */
  lemma SlotStep(r: Ring, rx: bool, skb: seq<Option<nat>>, desc: seq<Desc>, i: nat, e: Event, s: Option<nat>, d: Desc)
    requires RingOk(r) && SlotsOk(r, rx, skb, desc)
    requires match e
             case Enq(_, _) => i == |r.entered| && Reply(r, rx, e) != Queued(ENoMem)
             case Complete(_) => i == |r.done| < |r.entered|
             case Deq => i == r.out < |r.done|
    requires SlotOk(Next(r, rx, e), rx, if e.Deq? then i + DESC_CNT else i, s, d)
    ensures SlotsOk(Next(r, rx, e), rx, skb[Pos(i) := s], desc[Pos(i) := d])
  {
    hide OnWire;
    var n := Next(r, rx, e);
    forall p | 0 <= p < DESC_CNT
      ensures SlotOk(n, rx, Idx(n.out, p), skb[Pos(i) := s][p], desc[Pos(i) := d][p])
    {
      IdxUnique(r.out, i);
      IdxStep(r.out, p);
      assert SlotOk(r, rx, Idx(r.out, p), skb[p], desc[p]);
    }
  }

  /** The descriptor after the hardware has completed it. */
  function Marked(d: Desc, rx: bool, m: Mark): Desc {
    Desc(false, m.lerr, m.err, if rx then m.len else d.len, if rx then m.mgmt else d.mgmt, d.buf)
  }

  /** The hardware owns the descriptor at its position exactly if a frame waits for it. */
  lemma Completion(r: Ring, rx: bool, skb: seq<Option<nat>>, desc: seq<Desc>, m: Mark)
    requires RingOk(r) && SlotsOk(r, rx, skb, desc)
    ensures var p := Pos(|r.done|);
            && (desc[p].init <==> |r.done| < |r.entered|)
            && (desc[p].init ==>
                  && Frame(desc[p].buf, desc[p].len, desc[p].mgmt) == OnWire(r.entered[|r.done|])
                  && SlotsOk(Next(r, rx, Complete(m)), rx, skb, desc[p := Marked(desc[p], rx, m)]))
  {
    hide OnWire, SlotsOk, Pos;
    SlotAt(r, rx, skb, desc, |r.done|);
    FrameOnWire(r, |r.done|);
    var p := Pos(|r.done|);
    if desc[p].init {
      SlotStep(r, rx, skb, desc, |r.done|, Complete(m), skb[p], Marked(desc[p], rx, m));
      assert skb[p := skb[p]] == skb;
    }
  }

  lemma FrameOnWire(r: Ring, i: nat)
    ensures i < |r.entered| ==> OnWire(r.entered[i]).buf == r.entered[i].buf && OnWire(r.entered[i]).mgmt == r.entered[i].mgmt
  {
  }

  /** A buffer can be taken exactly if the ring is not empty and the hardware has released its slot. */
  lemma Departure(r: Ring, rx: bool, skb: seq<Option<nat>>, desc: seq<Desc>)
    requires RingOk(r) && SlotsOk(r, rx, skb, desc)
    ensures var p := Pos(r.out);
            var d := desc[p];
            && (|r.entered| > r.out && !d.init <==> r.out < |r.done|)
            && (r.out < |r.done| ==>
                  && skb[p].Some?
                  && GotOf(rx, r.entered[r.out], r.done[r.out]) ==
                     (if rx then Received(skb[p].value, d.len, d.mgmt) else Sent(skb[p].value))
                  && d.lerr == r.done[r.out].lerr && d.err == r.done[r.out].err
                  && SlotsOk(Next(r, rx, Deq), rx, skb[p := None], desc[p := d.(lerr := false, err := false)]))
  {
    hide OnWire, SlotsOk, Pos;
    SlotAt(r, rx, skb, desc, r.out);
    if r.out < |r.done| {
      SlotStep(r, rx, skb, desc, r.out, Deq, None, desc[Pos(r.out)].(lerr := false, err := false));
    }
  }

  // ---------------------------------------------------------------- the ring in place

  class Queue {
    const rx: bool
    const desc: array<Desc>
    const skb: array<Option<nat>>
    var enqPos: nat
    var deqPos: nat
    var cnt: nat
    var errorCnt: nat

    /** The hardware's own position. */
    var hwPos: nat

    ghost var ring: Ring

    ghost predicate Valid()
      reads this, desc, skb
    {
      && desc.Length == DESC_CNT && skb.Length == DESC_CNT
      && RingOk(ring)
      && enqPos == Pos(|ring.entered|) && deqPos == Pos(ring.out) && hwPos == Pos(|ring.done|)
      && cnt == |ring.entered| - ring.out && errorCnt == ring.errors
      && SlotsOk(ring, rx, skb[..], desc[..])
    }

    constructor (rx: bool)
      ensures Valid() && fresh(desc) && fresh(skb) && this.rx == rx && ring == EMPTY
    {
      this.rx := rx;
      desc := new Desc[DESC_CNT](_ => Desc(false, false, false, 0, 0, 0));
      skb := new Option<nat>[DESC_CNT](_ => None);
      enqPos, deqPos, cnt, errorCnt, hwPos := 0, 0, 0, 0, 0;
      ring := EMPTY;
    }

    /** edgx_dma_enq */
    method Enqueue(f: Frame, mapped: bool) returns (st: Status)
      requires Valid()
      modifies this`enqPos, this`cnt, this`ring, desc, skb
      ensures Valid() && Queued(st) == Reply(old(ring), rx, Enq(f, mapped)) && ring == Next(old(ring), rx, Enq(f, mapped))
    {
      hide SlotsOk, Pos;
      if cnt < DESC_CNT - 1 {
        ghost var i := |ring.entered|;
        SlotAt(ring, rx, skb[..], desc[..], i);
        if desc[enqPos].init {
          assert false; // the queuing error
        }
        if !mapped {
          return ENoMem;
        }
        ghost var d := desc[enqPos].(len := f.len % (MAX_LEN + 1), mgmt := f.mgmt, buf := f.buf, init := true);
        SlotStep(ring, rx, skb[..], desc[..], i, Enq(f, mapped), Some(f.buf), d);
        ghost var skbs, descs := skb[..], desc[..];
        skb[enqPos] := Some(f.buf);
        var pos := enqPos;
        PosNext(|ring.entered|);
        enqPos := (enqPos + 1) % DESC_CNT;
        cnt := cnt + 1;
        desc[pos] := desc[pos].(len := f.len % (MAX_LEN + 1), mgmt := f.mgmt, buf := f.buf);
        desc[pos] := desc[pos].(init := true);
        assert skb[..] == skbs[pos := Some(f.buf)] && desc[..] == descs[pos := d];
        ring := Next(ring, rx, Enq(f, mapped));
        st := if cnt < DESC_CNT - 1 then Ok else ENoSpc;
      } else {
        st := ENoMem;
      }
    }

    /** The hardware completes the descriptor at its position if it owns it. */
    method HwComplete(m: Mark) returns (seen: Option<Frame>)
      requires Valid()
      modifies this`hwPos, this`ring, desc
      ensures Valid() && Processed(seen) == Reply(old(ring), rx, Complete(m)) && ring == Next(old(ring), rx, Complete(m))
    {
      hide SlotsOk, SlotOk, OnWire, Pos;
      Completion(ring, rx, skb[..], desc[..], m);
      if !desc[hwPos].init {
        return None;
      }
      var d := desc[hwPos];
      seen := Some(Frame(d.buf, d.len, d.mgmt));
      ghost var descs := desc[..];
      desc[hwPos] := Marked(d, rx, m);
      assert desc[..] == descs[hwPos := Marked(d, rx, m)];
      PosNext(|ring.done|);
      hwPos := (hwPos + 1) % DESC_CNT;
      ring := Next(ring, rx, Complete(m));
    }

    /** edgx_dma_deq */
    method Dequeue() returns (got: Option<Got>)
      requires Valid()
      modifies this`deqPos, this`cnt, this`errorCnt, this`ring, desc, skb
      ensures Valid() && Taken(got) == Reply(old(ring), rx, Deq) && ring == Next(old(ring), rx, Deq)
    {
      hide SlotsOk, SlotOk, Pos;
      ghost var skbs, descs := skb[..], desc[..];
      Departure(ring, rx, skbs, descs);
      if cnt == 0 || desc[deqPos].init {
        return None;
      }
      if desc[deqPos].lerr {
        errorCnt := errorCnt + 1;
        desc[deqPos] := desc[deqPos].(lerr := false);
      }
      if desc[deqPos].err {
        errorCnt := errorCnt + 1;
        desc[deqPos] := desc[deqPos].(err := false);
      }
      var buf := skb[deqPos].value;
      got := Some(if rx then Received(buf, desc[deqPos].len, desc[deqPos].mgmt) else Sent(buf));
      skb[deqPos] := None;
      assert skb[..] == skbs[deqPos := None];
      assert desc[..] == descs[deqPos := descs[deqPos].(lerr := false, err := false)];
      PosNext(ring.out);
      deqPos := (deqPos + 1) % DESC_CNT;
      cnt := cnt - 1;
      ring := Next(ring, rx, Deq);
    }

    /** edgx_dma_enq_rx: post a receive buffer, if one can be allocated. */
    method EnqueueRx(buf: Option<nat>, mapped: bool) returns (st: Status)
      requires Valid()
      modifies this`enqPos, this`cnt, this`ring, desc, skb
      ensures Valid() && st == if buf.None? then ENoMem else Reply(old(ring), rx, Enq(RxFrame(buf.value), mapped)).st
      ensures ring == if buf.None? then old(ring) else Next(old(ring), rx, Enq(RxFrame(buf.value), mapped))
    {
      if buf.None? {
        return ENoMem;
      }
      st := Enqueue(RxFrame(buf.value), mapped);
    }

    /** Fill a fresh receive ring. The loop ends: it fills all descriptors but one and reports ENoSpc,
        unless a buffer cannot be allocated or mapped before that. */
    method FillRx(buf: nat -> Option<nat>, mapped: nat -> bool) returns (st: Status)
      requires Valid() && ring == EMPTY
      modifies this`enqPos, this`cnt, this`ring, desc, skb
      ensures Valid() && ring.done == [] && ring.out == 0
      ensures st == ENoSpc <==> forall i :: 0 <= i < DESC_CNT - 1 ==> Posted(buf, mapped, i)
      ensures st == ENoSpc ==> cnt == DESC_CNT - 1
      ensures st != ENoSpc ==> st == ENoMem && !Posted(buf, mapped, cnt) && cnt < DESC_CNT - 1
      ensures forall i :: 0 <= i < cnt ==> buf(i).Some? && ring.entered[i] == RxFrame(buf(i).value)
    {
      hide SlotsOk, Pos;
      st := Ok;
      while st == Ok
        invariant Valid() && ring.done == [] && ring.out == 0
        invariant forall j :: 0 <= j < cnt ==> Posted(buf, mapped, j) && ring.entered[j] == RxFrame(buf(j).value)
        invariant st == Ok ==> cnt < DESC_CNT - 1
        invariant st != Ok ==> st == (if cnt == DESC_CNT - 1 then ENoSpc else ENoMem)
        invariant st == ENoMem ==> !Posted(buf, mapped, cnt)
        decreases DESC_CNT - cnt, st == Ok
      {
        st := EnqueueRx(buf(cnt), mapped(cnt));
      }
    }

    /** edgx_dma_process_rx: hand up to `budget` received frames over and post a new buffer for each. */
    method ProcessRx(budget: nat, buf: nat -> Option<nat>, mapped: nat -> bool) returns (got: seq<Got>)
      requires Valid() && rx
      modifies this`enqPos, this`deqPos, this`cnt, this`errorCnt, this`ring, desc, skb
      ensures Valid() && ring.done == old(ring).done && ring.out == old(ring).out + |got|
      ensures |got| == var ready := |old(ring).done| - old(ring).out; if ready < budget then ready else budget
      ensures forall i :: 0 <= i < |got| ==>
                got[i] == var m := ring.done[old(ring).out + i]; Received(old(ring).entered[old(ring).out + i].buf, m.len, m.mgmt)
      ensures old(ring).entered <= ring.entered && cnt <= old(cnt)
      ensures cnt == old(cnt) <==> forall i :: 0 <= i < |got| ==> Posted(buf, mapped, i)
    {
      hide SlotsOk, SlotOk, Idx, OnWire, Pos;
      got := [];
      ghost var r := ring;
      while |got| < budget
        invariant Valid() && ring.done == r.done && ring.out == r.out + |got| <= |r.done| && |got| <= budget
        invariant forall i :: 0 <= i < |got| ==>
                    got[i] == var m := r.done[r.out + i]; Received(r.entered[r.out + i].buf, m.len, m.mgmt)
        invariant r.entered <= ring.entered && cnt <= old(cnt)
        invariant cnt == old(cnt) <==> forall i :: 0 <= i < |got| ==> Posted(buf, mapped, i)
        decreases budget - |got|
      {
        var one := Dequeue();
        if one.None? {
          break;
        }
        var st := EnqueueRx(buf(|got|), mapped(|got|));
        assert st == ENoMem <==> !Posted(buf, mapped, |got|);
        got := got + [one.value];
      }
    }

    method Handle(e: Event) returns (r: Result)
      requires Valid()
      modifies this`enqPos, this`deqPos, this`cnt, this`errorCnt, this`hwPos, this`ring, desc, skb
      ensures Valid() && r == Reply(old(ring), rx, e) && ring == Next(old(ring), rx, e)
    {
      hide SlotsOk, Pos;
      match e
      case Enq(f, mapped) =>
        var st := Enqueue(f, mapped);
        r := Queued(st);
      case Complete(m) =>
        var seen := HwComplete(m);
        r := Processed(seen);
      case Deq =>
        var got := Dequeue();
        r := Taken(got);
    }
  }

  function RxFrame(buf: nat): Frame {
    Frame(buf, MAX_LEN, 0)
  }

  predicate Posted(buf: nat -> Option<nat>, mapped: nat -> bool, i: nat) {
    buf(i).Some? && mapped(i)
  }

  // ---------------------------------------------------------------- runs

  /** Every interleaving of driver and hardware steps behaves as the unbounded queue does. */
  method Run(rx: bool, es: seq<Event>) returns (q: Queue, rs: seq<Result>)
    ensures q.Valid() && q.rx == rx && q.ring == After(rx, es) && rs == Replies(rx, es)
  {
    hide SlotsOk, Next, Reply;
    q := new Queue(rx);
    rs := [];
    for i := 0 to |es|
      invariant q.Valid() && q.rx == rx && fresh(q) && fresh(q.desc) && fresh(q.skb)
      invariant q.ring == After(rx, es[..i]) && rs == Replies(rx, es[..i])
    {
      var r := q.Handle(es[i]);
      assert es[..i + 1][..i] == es[..i];
      rs := rs + [r];
    }
    assert es[..|es|] == es;
  }

  /** In every interleaving buffers leave once and in the order they entered, and the counter tells how
      many of the accepted buffers have not been handed back. */
  method CountAfter(rx: bool, es: seq<Event>) returns (rs: seq<Result>, cnt: nat)
    ensures |rs| == |es|
    ensures Returned(rs) <= Accepted(es, rs)
    ensures cnt == |Accepted(es, rs)| - |Returned(rs)| <= DESC_CNT - 1
    ensures forall i :: 0 <= i < |es| && es[i].Enq? ==> RefusedWhenFull(es, rs, i)
  {
    var q;
    q, rs := Run(rx, es);
    hide RefusedWhenFull, Replies, Accepted, Returned;
    FirstInFirstOut(rx, es);
    cnt := q.cnt;
    forall i | 0 <= i < |es| && es[i].Enq?
      ensures RefusedWhenFull(es, rs, i)
    {
      OnlyWhenFull(rx, es, i);
    }
  }

  /** The same of the ring in place. */
  method CarriedAfter(rx: bool, es: seq<Event>) returns (rs: seq<Result>, errors: nat)
    ensures |rs| == |es| && Carries(rx, Entered(es, rs), Seen(rs), Marks(es, rs), Gots(rs))
    ensures |Gots(rs)| <= |Marks(es, rs)| && errors == ErrorFlags(Marks(es, rs), |Gots(rs)|)
  {
    hide Replies, After, Entered, Seen, Marks, Gots, Carries, SlotsOk;
    var q;
    q, rs := Run(rx, es);
    CarriedInOrder(rx, es);
    errors := q.errorCnt;
  }

  /** An enqueue is refused exactly if its buffer cannot be mapped or 255 buffers are in the ring; one that
      fills the ring is accepted and says so. */
  predicate RefusedWhenFull(es: seq<Event>, rs: seq<Result>, i: nat)
    requires |rs| == |es| && i < |es| && es[i].Enq?
  {
    && rs[i].Queued?
    && (rs[i].st == ENoMem <==>
          !es[i].mapped || |Accepted(es[..i], rs[..i])| - |Returned(rs[..i])| == DESC_CNT - 1)
    && (rs[i].st == ENoSpc <==>
          es[i].mapped && |Accepted(es[..i], rs[..i])| - |Returned(rs[..i])| == DESC_CNT - 2)
    && (rs[i].st == Ok <==> rs[i].st != ENoMem && rs[i].st != ENoSpc)
  }

  lemma OnlyWhenFull(rx: bool, es: seq<Event>, i: nat)
    requires i < |es| && es[i].Enq?
    ensures RefusedWhenFull(es, Replies(rx, es), i)
  {
    hide Replies, Accepted, Returned;
    RepliesAt(rx, es, i);
    FirstInFirstOut(rx, es[..i]);
  }

  lemma {:induction false} RepliesAt(rx: bool, es: seq<Event>, i: nat)
    requires i < |es|
    ensures Replies(rx, es)[i] == Reply(After(rx, es[..i]), rx, es[i]) && Replies(rx, es)[..i] == Replies(rx, es[..i])
  {
    hide Reply, After;
    var n := |es| - 1;
    if i < n {
      RepliesAt(rx, es[..n], i);
      assert es[..n][..i] == es[..i];
      assert Replies(rx, es)[..i] == Replies(rx, es[..n])[..i];
    }
  }
}
