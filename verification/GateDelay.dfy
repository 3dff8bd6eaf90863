/**
 * Stream gate delays. Frames reach the stream gate of a bridge through ports
 * of different latency. The driver delays the faster ports, so that one
 * retard of the gate schedule is right for all of them. All values are 64 bits
 * wide and wrap, as in the driver.
 */
module GateDelay {
  import opened Common

  const MAX_PORTS: nat := 16
  const GRANUL: nat := 320
  const REG_MAX: nat := 7
  const S64_MAX: int := 0x7FFF_FFFF_FFFF_FFFF

  function U64(x: int): (r: nat)
    ensures r < TWO64
  {
    x % TWO64
  }

  /** The value of an s64 expression. */
  function S64(x: int): (r: int)
    ensures -S64_MAX - 1 <= r <= S64_MAX
  {
    var u := U64(x);
    if u > S64_MAX then u - TWO64 else u
  }

  lemma U64Exact(x: int)
    requires 0 <= x < TWO64
    ensures U64(x) == x
  {
  }

  lemma S64Exact(x: int)
    requires -S64_MAX - 1 <= x <= S64_MAX
    ensures S64(x) == x
  {
  }

  lemma S64Minus(a: int, b: int)
    ensures S64(a - S64(b)) == S64(a - b)
  {
    assert U64(a - S64(b)) == U64(a - b);
  }

  /** A minimum and a maximum latency in ns. */
  datatype Range = Range(min: int, max: int)

  /** A port: speed of its link, if known; latency of link and bridge up to the stream gate, for the
      highest speed (each may be unavailable) and for the current one. */
  datatype PortIn = PortIn(speed: Option<nat>, linkHi: Option<Range>, portHi: Option<Range>, link: Range, port: Range)

  /** The driver's record of a port: usable if its speed is known. */
  datatype Dly = Dly(speed: Option<nat>, w2sg: nat, delay: int)

  /** Mean latency from the wire to the stream gate, rounded up. */
  function Mid(a: Range, b: Range): nat {
    U64(U64(a.min + b.min) + U64(a.max + b.max) + 1) / 2
  }

  predicate Usable(ports: seq<Option<PortIn>>, i: nat) {
    i < |ports| && ports[i].Some? && ports[i].value.speed.Some? && ports[i].value.linkHi.Some? && ports[i].value.portHi.Some?
  }

  function MidHi(p: PortIn): nat
    requires p.linkHi.Some? && p.portHi.Some?
  {
    Mid(p.linkHi.value, p.portHi.value)
  }

  function MidNow(p: PortIn): nat {
    Mid(p.link, p.port)
  }

  /** The retard that a port asks for at its highest speed. */
  function RetardHi(p: PortIn, s2sg: nat): int
    requires p.linkHi.Some? && p.portHi.Some?
  {
    S64(MidHi(p) - s2sg)
  }

  /** A port that can be the reference: usable, with a retard that the initial S64_MAX does not hide. */
  predicate Candidate(ports: seq<Option<PortIn>>, s2sg: nat, i: nat) {
    Usable(ports, i) && RetardHi(ports[i].value, s2sg) < S64_MAX
  }

  /** Port i asks for the least retard among the usable ones. */
  predicate IsRef(ports: seq<Option<PortIn>>, s2sg: nat, i: nat) {
    && Candidate(ports, s2sg, i)
    && forall j :: 0 <= j < |ports| && Usable(ports, j) ==> RetardHi(ports[i].value, s2sg) <= RetardHi(ports[j].value, s2sg)
  }

  // ---------------------------------------------------------------- latencies of real ports

  /** Latencies far below 2^60 ns, more than thirty years: nothing wraps. */
  predicate Physical(r: Range) {
    0 <= r.min < 0x1000_0000_0000_0000 && 0 <= r.max < 0x1000_0000_0000_0000
  }

  predicate PhysicalPort(p: PortIn) {
    && Physical(p.link) && Physical(p.port)
    && (p.linkHi.Some? ==> Physical(p.linkHi.value)) && (p.portHi.Some? ==> Physical(p.portHi.value))
  }

  predicate AllPhysical(ports: seq<Option<PortIn>>, s2sg: nat) {
    s2sg < 0x1000_0000_0000_0000 && forall i :: 0 <= i < |ports| && ports[i].Some? ==> PhysicalPort(ports[i].value)
  }

  lemma MidPhysical(a: Range, b: Range)
    requires Physical(a) && Physical(b)
    ensures Mid(a, b) == (a.min + b.min + (a.max + b.max) + 1) / 2 < 0x4000_0000_0000_0000
  {
    hide U64;
    U64Exact(a.min + b.min);
    U64Exact(a.max + b.max);
    U64Exact(a.min + b.min + (a.max + b.max) + 1);
  }

  /** With physical latencies every usable port is a candidate, and the least retard is that of the least
      mean latency. */
  lemma RetardPhysical(ports: seq<Option<PortIn>>, s2sg: nat, i: nat)
    requires AllPhysical(ports, s2sg) && Usable(ports, i)
    ensures RetardHi(ports[i].value, s2sg) == MidHi(ports[i].value) - s2sg < S64_MAX
    ensures MidHi(ports[i].value) < 0x4000_0000_0000_0000 && MidNow(ports[i].value) < 0x4000_0000_0000_0000
  {
    hide Mid, S64;
    var p := ports[i].value;
    MidPhysical(p.linkHi.value, p.portHi.value);
    MidPhysical(p.link, p.port);
    S64Exact(MidHi(p) - s2sg);
  }

  /** At every usable port the current speed is not faster than the highest. */
  predicate NotFaster(ports: seq<Option<PortIn>>) {
    forall j :: 0 <= j < |ports| && Usable(ports, j) ==> MidHi(ports[j].value) <= MidNow(ports[j].value)
  }

  // ---------------------------------------------------------------- the delay register

  /** edgx_pt_set_sg_delay: the register value for a delay. */
  function DelayReg(ns: int): (reg: nat)
    requires ns >= 0
    ensures reg <= REG_MAX
  {
    var reg := (ns + GRANUL / 2) / GRANUL;
    if reg > REG_MAX then REG_MAX else reg
  }

  /** A delay within the register's range is met to within half a granule, and exactly if it is a multiple. */
  lemma DelayRegNearest(ns: int)
    requires ns >= 0
    ensures ns < REG_MAX * GRANUL + GRANUL / 2 ==> -(GRANUL / 2) <= DelayReg(ns) * GRANUL - ns <= GRANUL / 2
    ensures ns < REG_MAX * GRANUL + GRANUL / 2 && ns % GRANUL == 0 ==> DelayReg(ns) * GRANUL == ns
    ensures ns >= REG_MAX * GRANUL + GRANUL / 2 ==> DelayReg(ns) == REG_MAX && DelayReg(ns) * GRANUL <= ns
  {
  }

  class Gate {
    /** Time from the schedule to the stream gate. */
    var s2sg: nat
    var retard: int
    const dly: array<Dly>
    var ref: Dly

    /** The delay register of each port. */
    const reg: array<nat>

    ghost predicate Valid() {
      dly.Length == MAX_PORTS && reg.Length == MAX_PORTS
    }

    constructor ()
      ensures Valid() && fresh(dly) && fresh(reg)
    {
      s2sg, retard, ref := 0, S64_MAX, Dly(None, 0, 0);
      dly := new Dly[MAX_PORTS](_ => Dly(None, 0, 0));
      reg := new nat[MAX_PORTS](_ => 0);
    }

    /** edgx_psfp_gt_calc_retard. The time from schedule to gate cancels out of the delay. */
    method CalcRetard(i: nat, link: Range, port: Range, from: Option<Dly>, s2g: nat) returns (r: int)
      requires Valid() && i < MAX_PORTS
      modifies dly
      ensures forall j :: 0 <= j < MAX_PORTS && j != i ==> dly[j] == old(dly[j])
      ensures dly[i].speed == old(dly[i]).speed && dly[i].w2sg == Mid(link, port)
      ensures dly[i].delay == if from.Some? then S64(Mid(link, port) - (from.value.w2sg - from.value.delay)) else 0
      ensures r == S64(dly[i].w2sg - s2sg - dly[i].delay)
    {
      hide S64;
      var min := U64(link.min + port.min);
      var max := U64(link.max + port.max);
      var w2sg := U64(min + max + 1) / 2;
      var delay := if from.Some? then S64(w2sg - s2g - (from.value.w2sg - s2g - from.value.delay)) else 0;
      dly[i] := dly[i].(w2sg := w2sg, delay := delay);
      r := S64(w2sg - s2sg - delay);
    }

    /** First pass: speeds are recorded, the reference is a port with the least retard. */
    method FindReference(ports: seq<Option<PortIn>>, s2g: nat)
      requires Valid() && |ports| == MAX_PORTS
      modifies this`retard, this`ref, dly
      ensures forall i :: 0 <= i < MAX_PORTS && ports[i].Some? ==> (dly[i].speed.Some? <==> Usable(ports, i))
      ensures retard == S64_MAX <==> forall i :: 0 <= i < MAX_PORTS ==> !Candidate(ports, s2sg, i)
      ensures retard != S64_MAX ==> ref.delay == 0 && retard == S64(ref.w2sg - s2sg)
      ensures retard != S64_MAX ==> exists i: nat :: IsRef(ports, s2sg, i) && ref.w2sg == MidHi(ports[i].value)
    {
      hide S64, Mid;
      ref := ref.(speed := None);
      retard := S64_MAX;
      ghost var best: Option<nat> := None;
      for i := 0 to MAX_PORTS
        invariant forall j :: 0 <= j < i && ports[j].Some? ==> (dly[j].speed.Some? <==> Usable(ports, j))
        invariant retard == S64_MAX <==> best.None?
        invariant best.None? ==> forall j :: 0 <= j < i ==> !Candidate(ports, s2sg, j)
        invariant best.Some? ==> best.value < i && Candidate(ports, s2sg, best.value) && ref.w2sg == MidHi(ports[best.value].value)
        invariant best.Some? ==> ref.delay == 0 && retard == S64(ref.w2sg - s2sg)
        invariant forall j :: 0 <= j < i && Usable(ports, j) ==> retard <= RetardHi(ports[j].value, s2sg)
      {
        if ports[i].None? {
          continue;
        }
        var p := ports[i].value;
        dly[i] := dly[i].(speed := None);
        if p.speed.None? || p.linkHi.None? || p.portHi.None? {
          continue;
        }
        dly[i] := dly[i].(speed := p.speed);
        var r := CalcRetard(i, p.linkHi.value, p.portHi.value, None, s2g);
        if r < retard {
          ref := dly[i];
          retard := r;
          best := Some(i);
        }
      }
      if best.Some? {
        assert IsRef(ports, s2sg, best.value);
      }
    }

    /** Second pass: every usable port is delayed to the reference. The retard computed again for the
        port is the one of the first pass (the driver warns when it is not). */
    method SetDelays(ports: seq<Option<PortIn>>, s2g: nat)
      requires Valid() && |ports| == MAX_PORTS && ref.delay == 0 && retard == S64(ref.w2sg - s2sg)
      requires forall i :: 0 <= i < MAX_PORTS && ports[i].Some? ==> (dly[i].speed.Some? <==> Usable(ports, i))
      modifies dly, reg
      ensures forall i :: 0 <= i < MAX_PORTS && Usable(ports, i) ==> Delayed(ports, i)
      ensures forall i :: 0 <= i < MAX_PORTS && !Usable(ports, i) ==> reg[i] == old(reg[i])
    {
      hide S64, Mid;
      for i := 0 to MAX_PORTS
        invariant forall j :: i <= j < MAX_PORTS ==> dly[j] == old(dly[j])
        invariant forall j :: 0 <= j < i && Usable(ports, j) ==> Delayed(ports, j)
        invariant forall j :: 0 <= j < MAX_PORTS && (j >= i || !Usable(ports, j)) ==> reg[j] == old(reg[j])
      {
        if ports[i].None? || dly[i].speed.None? {
          continue;
        }
        var p := ports[i].value;
        var r := CalcRetard(i, p.link, p.port, Some(ref), s2g);
        reg[i] := DelayReg(if dly[i].delay >= 0 then dly[i].delay else 0);
        S64Minus(MidNow(p) - s2sg, MidNow(p) - ref.w2sg);
        assert r == retard;
      }
    }

    /** A port whose delay, against the reference, leads to the common retard, and its register. */
    ghost predicate Delayed(ports: seq<Option<PortIn>>, i: nat)
      requires Valid() && i < |ports| == MAX_PORTS && Usable(ports, i)
      reads this, dly, reg
    {
      && dly[i].w2sg == MidNow(ports[i].value) && dly[i].delay == S64(MidNow(ports[i].value) - ref.w2sg)
      && S64(dly[i].w2sg - s2sg - dly[i].delay) == retard
      && reg[i] == DelayReg(if dly[i].delay >= 0 then dly[i].delay else 0)
    }

    /** edgx_psfp_gt_calc_delays */
    method CalcDelays(idx: nat, clk: nat, s2g: Option<Range>, ports: seq<Option<PortIn>>) returns (st: Status)
      requires Valid() && |ports| == MAX_PORTS
      modifies this, dly, reg
      ensures clk != 0 && s2g.Some? ==> s2sg == ScheduleToGate(idx, clk, s2g.value)
      ensures st == if clk == 0 || s2g.None? || forall i :: 0 <= i < MAX_PORTS ==> !Candidate(ports, s2sg, i) then EInval else Ok
      ensures st == Ok ==> exists i: nat :: IsRef(ports, s2sg, i) && ref.w2sg == MidHi(ports[i].value) && retard == RetardHi(ports[i].value, s2sg)
      ensures st == Ok ==> forall i :: 0 <= i < MAX_PORTS && Usable(ports, i) ==> Delayed(ports, i)
      ensures forall i :: 0 <= i < MAX_PORTS && (st != Ok || !Usable(ports, i)) ==> reg[i] == old(reg[i])
    {
      hide S64, U64, Mid;
      ref := ref.(speed := None);
      retard := S64_MAX;
      if clk == 0 {
        return EInval;
      }
      if s2g.None? {
        return EInval;
      }
      var mid := U64(s2g.value.min + s2g.value.max + 1) / 2;
      s2sg := U64(mid + U64(idx * clk));
      FindReference(ports, mid);
      if retard == S64_MAX {
        return EInval;
      }
      ghost var i: nat :| IsRef(ports, s2sg, i) && ref.w2sg == MidHi(ports[i].value);
      SetDelays(ports, mid);
      st := Ok;
    }
  }

  /** Time from the schedule, whose index adds whole clock cycles, to the stream gate. */
  function ScheduleToGate(idx: nat, clk: nat, s2g: Range): nat {
    U64(U64(s2g.min + s2g.max + 1) / 2 + U64(idx * clk))
  }

  /** Without wrap-around the time of schedule 0 is the mean of the bounds, rounded up, and every further index
      adds one clock period. */
  lemma ScheduleTimes(idx: nat, jdx: nat, clk: nat, s2g: Range)
    requires Physical(s2g) && jdx <= idx && idx * clk < 0x1000_0000_0000_0000
    ensures 2 * ScheduleToGate(0, clk, s2g) - (s2g.min + s2g.max) in {0, 1}
    ensures ScheduleToGate(idx, clk, s2g) - ScheduleToGate(jdx, clk, s2g) == (idx - jdx) * clk
  {
    var mean := (s2g.min + s2g.max + 1) / 2;
    Products(idx, jdx, clk);
    hide U64;
    U64Exact(s2g.min + s2g.max + 1);
    U64Exact(0);
    U64Exact(idx * clk);
    U64Exact(jdx * clk);
    U64Exact(mean);
    U64Exact(mean + idx * clk);
    U64Exact(mean + jdx * clk);
  }

  lemma Products(idx: nat, jdx: nat, clk: nat)
    requires jdx <= idx
    ensures 0 * clk == 0 <= jdx * clk <= idx * clk && idx * clk - jdx * clk == (idx - jdx) * clk
  {
  }

  /** What the calculation is for. Whatever the latencies are, all usable ports get one retard, the least
      that one of them asks for, modulo 2^64. With physical latencies a frame is at the gate at the same
      time, s2sg + retard after the wire, whichever usable port it came through, and a delay is negative
      exactly at a port that is now faster than the reference. */
  method Align(idx: nat, clk: nat, s2g: Option<Range>, ports: seq<Option<PortIn>>)
    returns (st: Status, retard: int, s2sg: nat, delays: seq<int>, regs: seq<nat>)
    requires |ports| == MAX_PORTS
    ensures |delays| == |regs| == MAX_PORTS
    ensures clk != 0 && s2g.Some? ==> s2sg == ScheduleToGate(idx, clk, s2g.value)
    ensures st == if clk == 0 || s2g.None? || forall i :: 0 <= i < MAX_PORTS ==> !Candidate(ports, s2sg, i) then EInval else Ok
    ensures st == Ok ==> exists i: nat :: IsRef(ports, s2sg, i) && Aligned(ports, i, retard, s2sg, delays, regs)
                                          && (AllPhysical(ports, s2sg) ==> Meet(ports, i, retard, s2sg, delays, regs))
    ensures clk != 0 && s2g.Some? && AllPhysical(ports, s2sg) ==> (st == Ok <==> exists i :: 0 <= i < MAX_PORTS && Usable(ports, i))
  {
    hide S64, U64, Mid, Aligned, Meet, AllPhysical;
    var g := new Gate();
    st := g.CalcDelays(idx, clk, s2g, ports);
    retard, s2sg, regs := g.retard, g.s2sg, g.reg[..];
    delays := seq(MAX_PORTS, i requires 0 <= i < MAX_PORTS && g.dly.Length == MAX_PORTS reads g, g.dly => g.dly[i].delay);
    if st == Ok {
      ghost var i: nat :| IsRef(ports, s2sg, i) && g.ref.w2sg == MidHi(ports[i].value) && retard == RetardHi(ports[i].value, s2sg);
      GateAligned(g, ports, i, delays, regs);
      if AllPhysical(ports, s2sg) {
        FramesMeet(ports, i, retard, s2sg, delays, regs);
      }
    }
    if AllPhysical(ports, s2sg) {
      forall i | 0 <= i < MAX_PORTS
        ensures Candidate(ports, s2sg, i) <==> Usable(ports, i)
      {
        UsableIsCandidate(ports, s2sg, i);
      }
    }
  }

  lemma GateAligned(g: Gate, ports: seq<Option<PortIn>>, i: nat, delays: seq<int>, regs: seq<nat>)
    requires g.Valid() && |ports| == |delays| == |regs| == MAX_PORTS && Usable(ports, i)
    requires g.ref.w2sg == MidHi(ports[i].value) && g.retard == RetardHi(ports[i].value, g.s2sg)
    requires forall j :: 0 <= j < MAX_PORTS ==> delays[j] == g.dly[j].delay && regs[j] == g.reg[j]
    requires forall j :: 0 <= j < MAX_PORTS && Usable(ports, j) ==> g.Delayed(ports, j)
    ensures Aligned(ports, i, g.retard, g.s2sg, delays, regs)
  {
    hide Mid, S64;
    forall j | 0 <= j < MAX_PORTS && Usable(ports, j)
      ensures AlignedPort(ports, i, j, g.retard, g.s2sg, delays, regs)
    {
      assert g.Delayed(ports, j);
    }
  }

  predicate Aligned(ports: seq<Option<PortIn>>, r: nat, retard: int, s2sg: nat, delays: seq<int>, regs: seq<nat>)
    requires |ports| == |delays| == |regs| == MAX_PORTS && Usable(ports, r)
  {
    && retard == RetardHi(ports[r].value, s2sg)
    && forall i :: 0 <= i < MAX_PORTS && Usable(ports, i) ==> AlignedPort(ports, r, i, retard, s2sg, delays, regs)
  }

  /** Port i against reference port r. */
  predicate AlignedPort(ports: seq<Option<PortIn>>, r: nat, i: nat, retard: int, s2sg: nat, delays: seq<int>, regs: seq<nat>)
    requires |ports| == |delays| == |regs| == MAX_PORTS && Usable(ports, r) && Usable(ports, i)
  {
    && S64(MidNow(ports[i].value) - s2sg - delays[i]) == retard
    && delays[i] == S64(MidNow(ports[i].value) - MidHi(ports[r].value))
    && regs[i] == DelayReg(if delays[i] >= 0 then delays[i] else 0)
  }

  /** In plain integers: a frame is at the gate s2sg + retard after the wire, whichever usable port it came
      through, which is the latency of the fastest port at its highest speed; a delay is negative exactly at
      a port that is now faster than that. */
  predicate Meet(ports: seq<Option<PortIn>>, r: nat, retard: int, s2sg: nat, delays: seq<int>, regs: seq<nat>)
    requires |ports| == |delays| == |regs| == MAX_PORTS && Usable(ports, r)
  {
    forall i :: 0 <= i < MAX_PORTS && Usable(ports, i) ==>
      && MidNow(ports[i].value) - delays[i] == s2sg + retard == MidHi(ports[r].value)
      && MidHi(ports[r].value) <= MidHi(ports[i].value)
      && (delays[i] >= 0 <==> MidNow(ports[i].value) >= MidHi(ports[r].value))
      && (NotFaster(ports) ==> delays[i] >= 0 && regs[i] == DelayReg(delays[i]))
  }

  /** Ports with physical latencies that are aligned modulo 2^64 are aligned. */
  lemma FramesMeet(ports: seq<Option<PortIn>>, r: nat, retard: int, s2sg: nat, delays: seq<int>, regs: seq<nat>)
    requires |ports| == |delays| == |regs| == MAX_PORTS && IsRef(ports, s2sg, r)
    requires Aligned(ports, r, retard, s2sg, delays, regs) && AllPhysical(ports, s2sg)
    ensures Meet(ports, r, retard, s2sg, delays, regs)
  {
    hide Mid, S64, AllPhysical;
    RetardPhysical(ports, s2sg, r);
    forall i | 0 <= i < MAX_PORTS && Usable(ports, i)
      ensures MidNow(ports[i].value) - delays[i] == s2sg + retard == MidHi(ports[r].value)
      ensures MidHi(ports[r].value) <= MidHi(ports[i].value)
      ensures NotFaster(ports) ==> delays[i] >= 0 && regs[i] == DelayReg(delays[i])
    {
      RetardPhysical(ports, s2sg, i);
      S64Exact(MidNow(ports[i].value) - MidHi(ports[r].value));
      assert AlignedPort(ports, r, i, retard, s2sg, delays, regs);
    }
  }

  /** With physical latencies the calculation fails for want of a reference only if no port is usable. */
  lemma UsableIsCandidate(ports: seq<Option<PortIn>>, s2sg: nat, i: nat)
    requires AllPhysical(ports, s2sg)
    ensures Candidate(ports, s2sg, i) <==> Usable(ports, i)
  {
    if Usable(ports, i) {
      RetardPhysical(ports, s2sg, i);
    }
  }
}
