/**
 * The scheduler's state machine on values (List Config, section 8.6.9.3 of
 * IEEE Std 802.1Q-2018): what a history of requests, timer events and table
 * switches leaves pending and running, and with which replies.
 */
module SchedSpec {
  import opened Common
  import opened SchedTime
  import opened SchedList
  import opened Arith

  const MAX_CYC_NS: int := 16_000_000

  datatype State = Idle | Pending | PendingDelayed

  /** An administrative schedule, and the driver's mirror of a hardware table (without the entries). */
  datatype Table = Table(entries: seq<Entry>, entryCnt: nat, listLen: nat, base: Timespec, cycle: Rational)

  /** What a request finds: current time, schedule offset (or an error), row transfers that succeed. */
  datatype Env = Env(now: Timespec, offset: Option<int>, budget: nat)

  datatype Config = Config(port: Port, maxEntry: nat) {
    predicate Valid() {
      port.Valid()
    }
  }

  datatype Request =
    | WriteEntries(first: nat, es: seq<Entry>, mem: bool)
    | WriteLen(len: nat)
    | WriteCycle(ct: Rational)
    | WriteBase(base: Timespec)
    | ConfigReq(flag: bool, env: Env)
    | GateReq(on: bool, env: Env)
    | Interrupt
    | Timer(env: Env)
    | Switch(t: nat)

  /** A submission: the hardware table, the admin list of that moment, the start. */
  datatype Sub = Sub(tab: nat, list: Table, start: Timespec)

  /** The driver's state, and what the two hardware tables run and have pending. */
  datatype Mach = Mach(admin: Table, gate: bool, flag: bool, state: State, ccTime: Timespec, start: Timespec, errors: nat,
                       running: Option<Sub>, waiting: Option<Sub>)

  function InitialAdmin(): Table {
    Table([], 0, 0, Timespec(0, 0), Rational(0, 1))
  }

  function Initial(): Mach {
    Mach(InitialAdmin(), false, false, Idle, Timespec(0, 0), Timespec(0, 0), 0, None, None)
  }

  predicate TableOk(cfg: Config, a: Table)
    requires cfg.Valid()
  {
    a.entryCnt == |a.entries| <= cfg.maxEntry && a.listLen <= cfg.maxEntry && a.cycle.denom > 0 && Masked(cfg.port, a.entries)
  }

  /** A list that can be submitted. */
  predicate Complete(a: Table) {
    a.entryCnt != 0 && a.cycle.num != 0 && a.listLen != 0 && a.listLen <= a.entryCnt
  }

  function Submittable(a: Table): (es: seq<Entry>)
    requires Complete(a) && a.entryCnt == |a.entries|
    ensures |es| == a.listLen > 0
  {
    a.entries[..a.listLen]
  }

  // ---------------------------------------------------------------- administrative values

  function MaskGates(pt: Port, es: seq<Entry>): (r: seq<Entry>)
    requires pt.Valid()
    ensures |r| == |es| && Masked(pt, r)
  {
    seq(|es|, i requires 0 <= i < |es| => es[i].(gates := GatesOf(pt, es[i].gates)))
  }

  /** A list write. An invalid list is reported but stays in place. */
  function Written(cfg: Config, m: Mach, first: nat, es: seq<Entry>, mem: bool): (Status, Mach)
    requires cfg.Valid()
  {
    if first + |es| > cfg.maxEntry then (EFBig, m)
    else
      var a := if first == 0 then m.admin.(entryCnt := 0, entries := []) else m.admin;
      if first != a.entryCnt then (EInval, m.(admin := a))
      else if !mem then (ENoMem, m.(admin := a))
      else
        var b := a.(entries := a.entries + MaskGates(cfg.port, es), entryCnt := first + |es|);
        if Accepted(cfg.port, b.entries) then (Ok, m.(admin := b)) else (EInval, m.(admin := b, errors := m.errors + 1))
  }

  function CycleWritten(m: Mach, ct: Rational): (Status, Mach) {
    if ct.denom == 0 then (EInval, m)
    else if ct.num * NSEC_PER_SEC / ct.denom > MAX_CYC_NS then (ERange, m.(errors := m.errors + 1))
    else (Ok, m.(admin := m.admin.(cycle := ct)))
  }

  // ---------------------------------------------------------------- config change

  /** The hardware table a submission goes to: one that does not run. */
  function FreeTab(m: Mach): nat {
    if m.running.Some? && m.running.value.tab == 0 then 1 else 0
  }

  /** A complete list with a known offset: the start decides between waiting for the timer and submitting,
      and submitting fails only if a row transfer fails. */
  function Scheduled(m: Mach, env: Env): (Status, Mach)
    requires Complete(m.admin) && m.admin.entryCnt == |m.admin.entries| && m.admin.cycle.denom > 0 && env.offset.Some?
  {
    var c := CalcCcTime(m.admin.base, env.now, m.admin.cycle, env.offset.value);
    var n := m.(ccTime := c.ccTime, start := c.start, errors := m.errors + if c.inPast then 1 else 0);
    if c.delay > 0 then (Ok, n.(state := PendingDelayed))
    else if env.budget < Transfers(Submittable(m.admin)) then (EBusy, n)
    else (Ok, n.(state := Pending, waiting := Some(Sub(FreeTab(m), m.admin, c.start))))
  }

  /** A config change request: whatever waits is withdrawn; with the gate enabled the request is served. */
  function Changed(m: Mach, env: Env): (Status, Mach)
    requires m.admin.entryCnt == |m.admin.entries| && m.admin.cycle.denom > 0
  {
    if !m.flag then (Ok, m)
    else
      var idle := m.(state := Idle, waiting := None);
      if !m.gate then (Ok, idle)
      else if !Complete(m.admin) then (EFault, idle.(flag := false))
      else if env.offset.None? then (EInval, idle.(flag := false))
      else Scheduled(idle.(flag := false), env)
  }

  /** One request or event; a timer or a table switch that is not due does nothing. */
  function Step(cfg: Config, m: Mach, r: Request): (Status, Mach)
    requires cfg.Valid() && TableOk(cfg, m.admin)
  {
    match r
    case WriteEntries(first, es, mem) => Written(cfg, m, first, es, mem)
    case WriteLen(len) => if len > cfg.maxEntry then (ERange, m) else (Ok, m.(admin := m.admin.(listLen := len)))
    case WriteCycle(ct) => CycleWritten(m, ct)
    case WriteBase(base) => (Ok, m.(admin := m.admin.(base := base)))
    case ConfigReq(flag, env) => Changed(m.(flag := flag), env)
    case GateReq(on, env) =>
      if !on then (Ok, m.(gate := false, state := Idle, waiting := None))
      else if m.state == Idle && m.flag then Changed(m.(gate := true), env)
      else (Ok, m.(gate := true))
    case Interrupt => (Ok, if m.state == Pending && m.waiting.None? then m.(state := Idle) else m)
    case Timer(env) => if m.state == PendingDelayed then (Ok, Changed(m.(state := Idle), env).1) else (Ok, m)
    case Switch(t) => (Ok, if m.waiting.Some? && m.waiting.value.tab == t then m.(running := m.waiting, waiting := None) else m)
  }

  function After(cfg: Config, rs: seq<Request>): (m: Mach)
    requires cfg.Valid()
    ensures TableOk(cfg, m.admin)
  {
    if rs == [] then Initial()
    else
      var m := After(cfg, rs[..|rs| - 1]);
      AdminStaysOk(cfg, m, rs[|rs| - 1]);
      Step(cfg, m, rs[|rs| - 1]).1
  }

  function Replies(cfg: Config, rs: seq<Request>): (sts: seq<Status>)
    requires cfg.Valid()
    ensures |sts| == |rs|
  {
    if rs == [] then []
    else Replies(cfg, rs[..|rs| - 1]) + [Step(cfg, After(cfg, rs[..|rs| - 1]), rs[|rs| - 1]).0]
  }

  lemma AdminStaysOk(cfg: Config, m: Mach, r: Request)
    requires cfg.Valid() && TableOk(cfg, m.admin)
    ensures TableOk(cfg, Step(cfg, m, r).1.admin)
  {
    hide CalcCcTime, Transfers, Accepted, GatesOf;
  }

  // ---------------------------------------------------------------- what every history keeps

  /** At most one table runs and at most one other waits; a table waits only in state Pending; the machine
      is not idle only while the gate is enabled and no request is open. */
  predicate MachOk(m: Mach) {
    && (m.waiting.Some? ==> m.state == Pending && m.waiting.value.tab < 2)
    && (m.running.Some? ==> m.running.value.tab < 2)
    && (m.running.Some? && m.waiting.Some? ==> m.running.value.tab != m.waiting.value.tab)
    && (m.state != Idle ==> m.gate && !m.flag)
  }

  lemma StepOk(cfg: Config, m: Mach, r: Request)
    requires cfg.Valid() && TableOk(cfg, m.admin) && MachOk(m)
    ensures MachOk(Step(cfg, m, r).1)
  {
    hide CalcCcTime, Transfers, Accepted, MaskGates, Masked;
  }

  lemma {:induction false} AfterOk(cfg: Config, rs: seq<Request>)
    requires cfg.Valid()
    ensures MachOk(After(cfg, rs))
  {
    hide Step, TableOk;
    if rs != [] {
      AfterOk(cfg, rs[..|rs| - 1]);
      StepOk(cfg, After(cfg, rs[..|rs| - 1]), rs[|rs| - 1]);
    }
  }

  /** The moment of request i. */
  function At(cfg: Config, rs: seq<Request>, i: nat): Mach
    requires cfg.Valid() && i <= |rs|
  {
    After(cfg, rs[..i])
  }

  lemma AtStep(cfg: Config, rs: seq<Request>, i: nat)
    requires cfg.Valid() && i < |rs|
    ensures At(cfg, rs, i + 1) == Step(cfg, At(cfg, rs, i), rs[i]).1
  {
    assert rs[..i + 1][..i] == rs[..i];
  }

  /** A request that serves a config change, if one is open. */
  predicate Serves(m: Mach, r: Request) {
    (r.ConfigReq? && r.flag) || (r.GateReq? && r.on && m.state == Idle)
  }

  /** Request j served a config change and submitted s: the admin list of that moment, with its start. */
  predicate SubmittedAt(cfg: Config, rs: seq<Request>, j: nat, s: Sub)
    requires cfg.Valid() && j < |rs|
  {
    var m, n := At(cfg, rs, j), At(cfg, rs, j + 1);
    Serves(m, rs[j]) && n.state == Pending && n.waiting == Some(s) && s == Sub(FreeTab(m), m.admin, n.start)
  }

  /** Submitted by request j and neither replaced, withdrawn nor started up to moment k. */
  predicate WaitsFrom(cfg: Config, rs: seq<Request>, j: nat, k: nat, s: Sub)
    requires cfg.Valid() && j < k <= |rs|
  {
    SubmittedAt(cfg, rs, j, s) && forall i :: j < i <= k ==> At(cfg, rs, i).waiting == Some(s)
  }

  /** Submitted by request j, waiting until the hardware switched at k, and running since. */
  predicate RunsFrom(cfg: Config, rs: seq<Request>, j: nat, k: nat, s: Sub)
    requires cfg.Valid() && j < k < |rs|
  {
    WaitsFrom(cfg, rs, j, k, s) && rs[k] == Switch(s.tab) && forall i :: k < i <= |rs| ==> At(cfg, rs, i).running == Some(s)
  }

  /** What waits after a step was submitted by it, if it serves a config change, and waited before otherwise. */
  lemma NewWaiting(cfg: Config, m: Mach, r: Request)
    requires cfg.Valid() && TableOk(cfg, m.admin) && MachOk(m)
    ensures var n := Step(cfg, m, r).1;
            n.waiting.Some? ==>
              if Serves(m, r) then n.state == Pending && n.waiting == Some(Sub(FreeTab(m), m.admin, n.start)) else n.waiting == m.waiting
  {
    hide CalcCcTime, Transfers, Accepted, MaskGates, Masked;
  }

  /** What runs after a step ran before, or waited and was switched to. */
  lemma NewRunning(cfg: Config, m: Mach, r: Request)
    requires cfg.Valid() && TableOk(cfg, m.admin)
    ensures var n := Step(cfg, m, r).1;
            n.running == m.running || (m.waiting.Some? && r == Switch(m.waiting.value.tab) && n.running == m.waiting)
  {
    hide CalcCcTime, Transfers, Accepted, MaskGates, Masked;
  }

  lemma StartEmpty(cfg: Config)
    requires cfg.Valid()
    ensures After(cfg, []) == Initial() && Replies(cfg, []) == []
  {
  }

  lemma AtPrefixes(cfg: Config, rs: seq<Request>, n: nat)
    requires cfg.Valid() && n <= |rs|
    ensures forall i {:trigger At(cfg, rs[..n], i)} {:trigger At(cfg, rs, i)} :: 0 <= i <= n ==> At(cfg, rs[..n], i) == At(cfg, rs, i)
  {
    forall i | 0 <= i <= n
      ensures At(cfg, rs[..n], i) == At(cfg, rs, i)
    {
      assert rs[..n][..i] == rs[..i];
    }
  }

  /** What waits in hardware was submitted by one request and has waited, untouched, ever since. */
  lemma {:induction false} WaitingWasSubmitted(cfg: Config, rs: seq<Request>) returns (j: nat)
    requires cfg.Valid() && After(cfg, rs).waiting.Some?
    ensures j < |rs| && WaitsFrom(cfg, rs, j, |rs|, After(cfg, rs).waiting.value)
  {
    hide After, Step, MachOk, Serves, FreeTab, TableOk;
    StartEmpty(cfg);
    var n := |rs| - 1;
    var s := After(cfg, rs).waiting.value;
    assert rs[..n + 1] == rs;
    AtStep(cfg, rs, n);
    AfterOk(cfg, rs[..n]);
    NewWaiting(cfg, At(cfg, rs, n), rs[n]);
    if Serves(At(cfg, rs, n), rs[n]) {
      j := n;
    } else {
      j := WaitingWasSubmitted(cfg, rs[..n]);
      AtPrefixes(cfg, rs, n);
    }
  }

  /** What runs was submitted by one request, waited untouched until the hardware switched to it, and has
      run ever since. */
  lemma {:induction false} RunningWasSubmitted(cfg: Config, rs: seq<Request>) returns (j: nat, k: nat)
    requires cfg.Valid() && After(cfg, rs).running.Some?
    ensures j < k < |rs| && RunsFrom(cfg, rs, j, k, After(cfg, rs).running.value)
  {
    hide After, Step, MachOk, Serves, FreeTab, TableOk;
    StartEmpty(cfg);
    var n := |rs| - 1;
    assert rs[..n + 1] == rs;
    AtStep(cfg, rs, n);
    NewRunning(cfg, At(cfg, rs, n), rs[n]);
    AtPrefixes(cfg, rs, n);
    if After(cfg, rs).running == At(cfg, rs, n).running {
      j, k := RunningWasSubmitted(cfg, rs[..n]);
    } else {
      j := WaitingWasSubmitted(cfg, rs[..n]);
      k := n;
    }
  }

  // ---------------------------------------------------------------- waiting for the timer

  lemma AfterOne(cfg: Config, rs: seq<Request>, r: Request)
    requires cfg.Valid()
    ensures After(cfg, rs + [r]) == Step(cfg, After(cfg, rs), r).1
    ensures Replies(cfg, rs + [r]) == Replies(cfg, rs) + [Step(cfg, After(cfg, rs), r).0]
  {
    assert (rs + [r])[..|rs|] == rs;
  }

  /** When the timer fires after any history, nothing is submitted: the wait began by clearing the request
      flag, so the schedule that waited is gone and no request is left that would submit it. */
  lemma TimerDrops(cfg: Config, rs: seq<Request>, env: Env)
    requires cfg.Valid() && After(cfg, rs).state == PendingDelayed
    ensures var m, n := After(cfg, rs), After(cfg, rs + [Timer(env)]);
            n == m.(state := Idle) && n.waiting == None && !n.flag
  {
    hide After;
    AfterOk(cfg, rs);
    AfterOne(cfg, rs, Timer(env));
  }

  function Requested(rs: seq<Request>, env0: Env, env: Env): seq<Request> {
    rs + [GateReq(true, env0)] + [ConfigReq(true, env)]
  }

  /** The reply to a served request: what is wrong with the administrative values, or whether all rows
      could be transferred. */
  function ServedReply(a: Table, env: Env): Status
    requires a.entryCnt == |a.entries| && a.cycle.denom > 0
  {
    if !Complete(a) then EFault
    else if env.offset.None? then EInval
    else if CalcCcTime(a.base, env.now, a.cycle, env.offset.value).delay > 0 then Ok
    else if env.budget < Transfers(Submittable(a)) then EBusy else Ok
  }

  /** Serving a request turned state m into n, with reply st: what is wrong is reported and
      nothing waits; otherwise the list waits in hardware with the computed start, or for the timer if that
      lies too far ahead. Either way the request is no longer open, and what runs is not touched. */
  predicate Served(m: Mach, env: Env, st: Status, n: Mach)
    requires m.admin.entryCnt == |m.admin.entries| && m.admin.cycle.denom > 0
  {
    var a := m.admin;
    && n.admin == a && n.running == m.running && !n.flag && n.gate && st == ServedReply(a, env)
    && (st != Ok ==> n.state == Idle && n.waiting == None)
    && (st == Ok ==>
          var c := CalcCcTime(a.base, env.now, a.cycle, env.offset.value);
          if c.delay > 0 then n.state == PendingDelayed && n.waiting == None
          else n.state == Pending && n.waiting.Some? && n.waiting.value.list == a && n.waiting.value.start == c.start)
    && n.errors == m.errors + if Complete(a) && env.offset.Some? && NotAfter(a.base, env.now) then 1 else 0
  }

  /** Enabling the gate and requesting a change serves exactly that request, whatever was open before. */
  lemma RequestServed(cfg: Config, rs: seq<Request>, env0: Env, env: Env)
    requires cfg.Valid()
    ensures var p, q := rs + [GateReq(true, env0)], Requested(rs, env0, env);
            && After(cfg, q).admin == After(cfg, rs).admin && After(cfg, q).running == After(cfg, rs).running
            && Served(After(cfg, p), env, Replies(cfg, q)[|q| - 1], After(cfg, q))
  {
    hide After, Transfers, Replies, Submittable, FutureTime, DelaySec;
    AfterOne(cfg, rs, GateReq(true, env0));
    AfterOne(cfg, rs + [GateReq(true, env0)], ConfigReq(true, env));
  }

  // ---------------------------------------------------------------- requests while the gate is disabled

  /** Writes, events, and disabling the gate again: nothing that requests a change or serves one. */
  predicate LeavesOpen(r: Request) {
    !r.ConfigReq? && !(r.GateReq? && r.on)
  }

  /** A request made while the gate is disabled. */
  function Remembered(rs: seq<Request>, env0: Env, env1: Env, ws: seq<Request>): seq<Request> {
    rs + [GateReq(false, env0)] + [ConfigReq(true, env1)] + ws
  }

  /** Disabling the gate after any history withdraws whatever waits; what runs, the admin list and an open
      request stay. */
  lemma DisableWithdraws(cfg: Config, rs: seq<Request>, env: Env)
    requires cfg.Valid()
    ensures var m, n := After(cfg, rs), After(cfg, rs + [GateReq(false, env)]);
            && !n.gate && n.state == Idle && n.waiting == None
            && n.running == m.running && n.admin == m.admin && n.flag == m.flag && n.errors == m.errors
  {
    hide After;
    AfterOne(cfg, rs, GateReq(false, env));
  }

  /** A request made while the gate is disabled is answered Ok and stays open, whatever is written and
      whatever happens in between; nothing waits meanwhile, and what runs keeps running. */
  lemma {:induction false} RequestRemembered(cfg: Config, rs: seq<Request>, env0: Env, env1: Env, ws: seq<Request>)
    requires cfg.Valid() && forall i :: 0 <= i < |ws| ==> LeavesOpen(ws[i])
    ensures var q := Remembered(rs, env0, env1, ws);
            && After(cfg, q).flag && !After(cfg, q).gate && After(cfg, q).state == Idle && After(cfg, q).waiting == None
            && After(cfg, q).running == After(cfg, rs).running && Replies(cfg, q)[|rs| + 1] == Ok
    decreases |ws|
  {
    hide After, Replies, Written, CycleWritten, Complete, Scheduled;
    var p := rs + [GateReq(false, env0)];
    if ws == [] {
      AfterOne(cfg, rs, GateReq(false, env0));
      AfterOne(cfg, p, ConfigReq(true, env1));
      assert Remembered(rs, env0, env1, []) == p + [ConfigReq(true, env1)];
    } else {
      var n := |ws| - 1;
      var q := Remembered(rs, env0, env1, ws[..n]);
      RequestRemembered(cfg, rs, env0, env1, ws[..n]);
      assert Remembered(rs, env0, env1, ws) == q + [ws[n]];
      AfterOne(cfg, q, ws[n]);
      WritesOnlyAdmin(cfg, After(cfg, q), ws[n]);
    }
  }

  lemma WritesOnlyAdmin(cfg: Config, m: Mach, r: Request)
    requires cfg.Valid() && TableOk(cfg, m.admin)
    ensures var n := Step(cfg, m, r).1;
            r.WriteEntries? || r.WriteLen? || r.WriteCycle? || r.WriteBase? ==> n == m.(admin := n.admin, errors := n.errors)
  {
    hide Accepted, MaskGates, TableOk;
  }

  /** Enabling the gate serves the remembered request with the admin list as it is then. */
  lemma RememberedIsServed(cfg: Config, rs: seq<Request>, env0: Env, env1: Env, ws: seq<Request>, env: Env)
    requires cfg.Valid() && forall i :: 0 <= i < |ws| ==> LeavesOpen(ws[i])
    ensures var q := Remembered(rs, env0, env1, ws);
            var e := q + [GateReq(true, env)];
            Served(After(cfg, q), env, Replies(cfg, e)[|q|], After(cfg, e))
  {
    hide After, Transfers, Replies, Submittable, FutureTime, DelaySec, Remembered, LeavesOpen;
    RequestRemembered(cfg, rs, env0, env1, ws);
    AfterOne(cfg, Remembered(rs, env0, env1, ws), GateReq(true, env));
  }

  /** A pending list is switched to, and the interrupt after the switch, not one before it, ends the change. */
  lemma SwitchEndsChange(cfg: Config, rs: seq<Request>)
    requires cfg.Valid() && After(cfg, rs).waiting.Some?
    ensures var m := After(cfg, rs);
            var s := [Switch(m.waiting.value.tab)];
            && After(cfg, rs + [Interrupt]) == m && m.state == Pending
            && After(cfg, rs + s + [Interrupt]) == m.(running := m.waiting, waiting := None, state := Idle)
  {
    hide After;
    AfterOk(cfg, rs);
    AfterOne(cfg, rs, Interrupt);
    AfterOne(cfg, rs, Switch(After(cfg, rs).waiting.value.tab));
    AfterOne(cfg, rs + [Switch(After(cfg, rs).waiting.value.tab)], Interrupt);
  }

  // ---------------------------------------------------------------- administrative values

  /** Entry e is stored as n: interval and operation as written, and of the gate states all bits of the
      port's queues and no others. */
  predicate StoredAs(pt: Port, e: Entry, n: Entry)
    requires pt.Valid()
  {
    && n.interval == e.interval && n.op == e.op && n.gates < Bit(pt.queues)
    && forall q :: 0 <= q < pt.queues ==> (BitSet(n.gates, q) <==> BitSet(e.gates, q))
  }

  predicate StoredList(pt: Port, es: seq<Entry>, ns: seq<Entry>)
    requires pt.Valid()
  {
    |ns| == |es| && forall i :: 0 <= i < |es| ==> StoredAs(pt, es[i], ns[i])
  }

  lemma MaskStores(pt: Port, es: seq<Entry>)
    requires pt.Valid()
    ensures StoredList(pt, es, MaskGates(pt, es))
  {
    hide GatesOf, BitSet;
    forall i | 0 <= i < |es|
      ensures StoredAs(pt, es[i], MaskGates(pt, es)[i])
    {
      forall q | 0 <= q < pt.queues
        ensures BitSet(MaskGates(pt, es)[i].gates, q) <==> BitSet(es[i].gates, q)
      {
        MaskedBits(pt, es[i].gates, q);
      }
      MaskedBits(pt, es[i].gates, 0);
    }
  }

  /** A list that fits, written after any history in two parts: all entries are stored in order, and a reply
      is Ok exactly if what is stored then can be expressed in the hardware. */
  lemma PartsAreStored(cfg: Config, rs: seq<Request>, a: seq<Entry>, b: seq<Entry>)
    requires cfg.Valid() && |a| + |b| <= cfg.maxEntry && |a| > 0
    ensures var p := rs + [WriteEntries(0, a, true)];
            var q := p + [WriteEntries(|a|, b, true)];
            var m, n := After(cfg, p), After(cfg, q);
            && StoredList(cfg.port, a, m.admin.entries) && StoredList(cfg.port, a + b, n.admin.entries)
            && (Replies(cfg, p)[|rs|] == Ok <==> Accepted(cfg.port, m.admin.entries))
            && (Replies(cfg, q)[|rs| + 1] == Ok <==> Accepted(cfg.port, n.admin.entries))
            && n == After(cfg, rs).(admin := n.admin, errors := n.errors)
            && n.admin == After(cfg, rs).admin.(entries := n.admin.entries, entryCnt := |a| + |b|)
  {
    hide After, Replies, Accepted, StoredList, TableOk, Written, Step;
    var p := rs + [WriteEntries(0, a, true)];
    WriteStep(cfg, rs, 0, a);
    WriteStep(cfg, p, |a|, b);
    assert [] + a == a;
    WriteStores(cfg, After(cfg, rs), [], a);
    WriteStores(cfg, After(cfg, p), a, b);
  }

  lemma WriteStep(cfg: Config, rs: seq<Request>, first: nat, es: seq<Entry>)
    requires cfg.Valid()
    ensures var q := rs + [WriteEntries(first, es, true)];
            (Replies(cfg, q)[|rs|], After(cfg, q)) == Written(cfg, After(cfg, rs), first, es, true)
  {
    hide After, Replies, Written, TableOk;
    AfterOne(cfg, rs, WriteEntries(first, es, true));
  }

  /** A write behind the entries stored for `prev` stores its own after them. */
  lemma WriteStores(cfg: Config, m: Mach, prev: seq<Entry>, es: seq<Entry>)
    requires cfg.Valid() && TableOk(cfg, m.admin) && |prev| + |es| <= cfg.maxEntry
    requires prev != [] ==> StoredList(cfg.port, prev, m.admin.entries)
    ensures var w := Written(cfg, m, |prev|, es, true);
            && StoredList(cfg.port, prev + es, w.1.admin.entries)
            && (w.0 == Ok <==> Accepted(cfg.port, w.1.admin.entries))
            && w.1 == m.(admin := w.1.admin, errors := w.1.errors)
            && w.1.admin == m.admin.(entries := w.1.admin.entries, entryCnt := |prev| + |es|)
  {
    hide Accepted, MaskGates, StoredAs;
    MaskStores(cfg.port, es);
    var before := if prev == [] then [] else m.admin.entries;
    assert StoredList(cfg.port, prev + es, before + MaskGates(cfg.port, es));
  }

  /** A list write after any history, refused: too long, not behind what is stored, or without memory. Only a
      write from entry 0 on that is not too long has an effect then: it empties the list. */
  lemma WriteRefused(cfg: Config, rs: seq<Request>, first: nat, es: seq<Entry>, mem: bool)
    requires cfg.Valid()
    ensures var q, m := rs + [WriteEntries(first, es, mem)], After(cfg, rs);
            var st, n := Replies(cfg, q)[|rs|], After(cfg, q);
            && (st == EFBig <==> first + |es| > cfg.maxEntry)
            && (st == ENoMem <==> first + |es| <= cfg.maxEntry && (first == 0 || first == |m.admin.entries|) && !mem)
            && (first + |es| > cfg.maxEntry ==> n == m)
            && (first + |es| <= cfg.maxEntry && first != 0 && first != |m.admin.entries| ==> st == EInval && n == m)
            && (st == ENoMem ==> n == if first == 0 then m.(admin := m.admin.(entries := [], entryCnt := 0)) else m)
  {
    hide After, Replies, Accepted, MaskGates, Masked;
    AfterOne(cfg, rs, WriteEntries(first, es, mem));
  }

  /** A list length is stored exactly if the table has that many entries. */
  lemma LengthStored(cfg: Config, rs: seq<Request>, len: nat)
    requires cfg.Valid()
    ensures var q, m := rs + [WriteLen(len)], After(cfg, rs);
            var st, n := Replies(cfg, q)[|rs|], After(cfg, q);
            && st == (if len <= cfg.maxEntry then Ok else ERange)
            && n == if len <= cfg.maxEntry then m.(admin := m.admin.(listLen := len)) else m
  {
    hide After, Replies, Masked;
    AfterOne(cfg, rs, WriteLen(len));
  }

  /** A cycle time is stored exactly if it has a denominator and is below 16 ms and a nanosecond. */
  lemma CycleStored(cfg: Config, rs: seq<Request>, ct: Rational)
    requires cfg.Valid()
    ensures var q, m := rs + [WriteCycle(ct)], After(cfg, rs);
            var st, n := Replies(cfg, q)[|rs|], After(cfg, q);
            && (st == Ok <==> ct.denom > 0 && ct.num * NSEC_PER_SEC < (MAX_CYC_NS + 1) * ct.denom)
            && (st == Ok ==> n == m.(admin := m.admin.(cycle := ct)))
            && (st != Ok ==> n.admin == m.admin)
  {
    hide After, Replies;
    AfterOne(cfg, rs, WriteCycle(ct));
    if ct.denom > 0 {
      FloorReaches(ct.num * NSEC_PER_SEC, ct.denom, MAX_CYC_NS + 1);
    }
  }

  predicate CycleFits(r: Request) {
    r.WriteCycle? && r.ct.denom > 0 && r.ct.num * NSEC_PER_SEC < (MAX_CYC_NS + 1) * r.ct.denom
  }

  datatype Field = BaseTime | ListLen | CycleTime

  /** An accepted write of a field. */
  predicate Sets(cfg: Config, f: Field, r: Request) {
    match f
    case BaseTime => r.WriteBase?
    case ListLen => r.WriteLen? && r.len <= cfg.maxEntry
    case CycleTime => CycleFits(r)
  }

  /** The last accepted write of a field, or a default if there was none. */
  predicate IsLast(cfg: Config, rs: seq<Request>, f: Field, last: Request, default: Request) {
    || (last == default && forall i :: 0 <= i < |rs| ==> !Sets(cfg, f, rs[i]))
    || (exists i :: 0 <= i < |rs| && rs[i] == last && Sets(cfg, f, rs[i]) && forall j :: i < j < |rs| ==> !Sets(cfg, f, rs[j]))
  }

  lemma LastStep(cfg: Config, rs: seq<Request>, r: Request, f: Field, last: Request, default: Request)
    requires IsLast(cfg, rs, f, last, default)
    ensures IsLast(cfg, rs + [r], f, if Sets(cfg, f, r) then r else last, default)
  {
    hide Sets;
    var q := rs + [r];
    if Sets(cfg, f, r) {
      assert q[|rs|] == r;
    } else if exists i :: 0 <= i < |rs| && Sets(cfg, f, rs[i]) {
      var i :| 0 <= i < |rs| && rs[i] == last && Sets(cfg, f, rs[i]) && forall j :: i < j < |rs| ==> !Sets(cfg, f, rs[j]);
      assert q[i] == last;
    }
  }

  /** Base time, list length and cycle time are, after any history, the last accepted ones that were written. */
  lemma {:induction false} LastWritten(cfg: Config, rs: seq<Request>)
    requires cfg.Valid()
    ensures IsLast(cfg, rs, BaseTime, WriteBase(After(cfg, rs).admin.base), WriteBase(Timespec(0, 0)))
    ensures IsLast(cfg, rs, ListLen, WriteLen(After(cfg, rs).admin.listLen), WriteLen(0))
    ensures IsLast(cfg, rs, CycleTime, WriteCycle(After(cfg, rs).admin.cycle), WriteCycle(Rational(0, 1)))
  {
    hide After, Step, CycleFits;
    if rs == [] {
      StartEmpty(cfg);
    } else {
      hide IsLast;
      var n := |rs| - 1;
      LastWritten(cfg, rs[..n]);
      assert rs == rs[..n] + [rs[n]];
      AfterOne(cfg, rs[..n], rs[n]);
      var a := After(cfg, rs[..n]).admin;
      AdminKept(cfg, After(cfg, rs[..n]), rs[n]);
      LastStep(cfg, rs[..n], rs[n], BaseTime, WriteBase(a.base), WriteBase(Timespec(0, 0)));
      LastStep(cfg, rs[..n], rs[n], ListLen, WriteLen(a.listLen), WriteLen(0));
      LastStep(cfg, rs[..n], rs[n], CycleTime, WriteCycle(a.cycle), WriteCycle(Rational(0, 1)));
      SetsIs(cfg, rs[n]);
    }
  }

  lemma SetsIs(cfg: Config, r: Request)
    ensures Sets(cfg, CycleTime, r) <==> CycleFits(r)
    ensures CycleFits(r) ==> r.WriteCycle?
  {
  }

  /** Which request changes which administrative value. */
  lemma AdminKept(cfg: Config, m: Mach, r: Request)
    requires cfg.Valid() && TableOk(cfg, m.admin)
    ensures var a := Step(cfg, m, r).1.admin;
            && a.base == (if r.WriteBase? then r.base else m.admin.base)
            && a.listLen == (if r.WriteLen? && r.len <= cfg.maxEntry then r.len else m.admin.listLen)
            && a.cycle == (if CycleFits(r) then r.ct else m.admin.cycle)
  {
    hide Accepted, MaskGates, CalcCcTime, Transfers, Submittable, Masked;
    if r.WriteCycle? && r.ct.denom > 0 {
      FloorReaches(r.ct.num * NSEC_PER_SEC, r.ct.denom, MAX_CYC_NS + 1);
    }
  }

  /** After any history: enable the gate, request a change with a complete list, a known offset and enough
      transfers, and let the timer fire. The list is pending then exactly if no wait was needed. */
  lemma PendingOnlyWithoutWait(cfg: Config, rs: seq<Request>, env0: Env, env: Env, env1: Env)
    requires cfg.Valid() && Complete(After(cfg, rs).admin) && env.offset.Some?
    requires env.budget >= Transfers(Submittable(After(cfg, rs).admin))
    ensures var a, q := After(cfg, rs).admin, Requested(rs, env0, env);
            var delay, n := CalcCcTime(a.base, env.now, a.cycle, env.offset.value).delay, After(cfg, q + [Timer(env1)]);
            && Replies(cfg, q)[|q| - 1] == Ok
            && (n.waiting.Some? <==> delay <= 0)
            && (delay <= 0 ==> n.state == Pending && n.waiting.value.list == a)
            && (delay > 0 ==> n.state == Idle && n.waiting == None && !n.flag)
  {
    hide After, CalcCcTime, Transfers, Replies, Submittable, Complete;
    RequestServed(cfg, rs, env0, env);
    var q := Requested(rs, env0, env);
    AfterOne(cfg, q, Timer(env1));
    if After(cfg, q).state == PendingDelayed {
      TimerDrops(cfg, q, env1);
    }
  }

  // A one-entry list with a base time of 100 seconds, written in four steps.

  const LEAD_CFG := Config(Port(320, 8), 1)
  const LEAD_ENTRY := Entry(320, OP_SET_GSTATES, 255)
  const LEAD_WRITES := [WriteEntries(0, [LEAD_ENTRY], true), WriteLen(1), WriteCycle(Rational(1, 1000)), WriteBase(Timespec(100, 0))]
  const LEAD_ADMIN := Table([LEAD_ENTRY], 1, 1, Timespec(100, 0), Rational(1, 1000))
  const LEAD_ENV := Env(Timespec(0, 0), Some(0), 3)

  /** Its base time lies 100 seconds ahead: the request is accepted, the list waits, and it is lost. */
  lemma LongLeadIsLost(env1: Env)
    ensures var q := Requested(LEAD_WRITES, LEAD_ENV, LEAD_ENV);
            var n := After(LEAD_CFG, q + [Timer(env1)]);
            && Replies(LEAD_CFG, q) == [Ok, Ok, Ok, Ok, Ok, Ok]
            && After(LEAD_CFG, q).state == PendingDelayed
            && n.admin == LEAD_ADMIN && n.state == Idle && n.waiting == None && n.running == None && !n.flag
  {
    hide After, Replies, CalcCcTime, Transfers, Step;
    LeadWritten();
    LeadWaits();
    RequestServed(LEAD_CFG, LEAD_WRITES, LEAD_ENV, LEAD_ENV);
    LeadReplies();
    TimerDrops(LEAD_CFG, Requested(LEAD_WRITES, LEAD_ENV, LEAD_ENV), env1);
  }

  lemma LeadWaits()
    ensures CalcCcTime(Timespec(100, 0), Timespec(0, 0), Rational(1, 1000), 0).delay == 64
  {
  }

  lemma LeadReplies()
    requires After(LEAD_CFG, LEAD_WRITES) == Initial().(admin := LEAD_ADMIN) && Replies(LEAD_CFG, LEAD_WRITES) == [Ok, Ok, Ok, Ok]
    ensures var q := Requested(LEAD_WRITES, LEAD_ENV, LEAD_ENV);
            Replies(LEAD_CFG, q) == [Ok, Ok, Ok, Ok, Ok, Replies(LEAD_CFG, q)[5]]
  {
    hide After, Replies, CalcCcTime, Transfers, Changed;
    AfterOne(LEAD_CFG, LEAD_WRITES, GateReq(true, LEAD_ENV));
    AfterOne(LEAD_CFG, LEAD_WRITES + [GateReq(true, LEAD_ENV)], ConfigReq(true, LEAD_ENV));
  }

  lemma LeadWritten()
    ensures After(LEAD_CFG, LEAD_WRITES) == Initial().(admin := LEAD_ADMIN)
    ensures Replies(LEAD_CFG, LEAD_WRITES) == [Ok, Ok, Ok, Ok]
  {
    hide After, Replies, Written, Changed;
    var w := LEAD_WRITES;
    StartEmpty(LEAD_CFG);
    EntryAccepted();
    assert w[..1] == [] + [w[0]] && w[..2] == w[..1] + [w[1]] && w[..3] == w[..2] + [w[2]] && w == w[..3] + [w[3]];
    AfterOne(LEAD_CFG, [], w[0]);
    AfterOne(LEAD_CFG, w[..1], w[1]);
    AfterOne(LEAD_CFG, w[..2], w[2]);
    AfterOne(LEAD_CFG, w[..3], w[3]);
  }

  lemma EntryAccepted()
    ensures var a := InitialAdmin().(entries := [LEAD_ENTRY], entryCnt := 1);
            Written(LEAD_CFG, Initial(), 0, [LEAD_ENTRY], true) == (Ok, Initial().(admin := a))
  {
    hide InGranules;
    assert InGranules(LEAD_CFG.port, 320) == 1 by { OneGranule(); }
    assert LEAD_CFG.port.HoldBit() == 256;
    assert MaskGates(LEAD_CFG.port, [LEAD_ENTRY]) == [LEAD_ENTRY];
    assert Accepted(LEAD_CFG.port, [LEAD_ENTRY]);
    assert [] + [LEAD_ENTRY] == [LEAD_ENTRY];
  }

  lemma OneGranule()
    ensures InGranules(Port(320, 8), 320) == 1
  {
  }
}
