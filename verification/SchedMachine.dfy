/**
 * The scheduler in place: the driver's fields, its mirrors of two hardware
 * tables, their rows and their registers, which the hardware changes on its
 * own. Every method does what SchedSpec says it does, and no driver step
 * touches the table in use.
 */
module SchedMachine {
  import opened Common
  import opened SchedTime
  import opened SchedList
  import opened SchedSpec
  import opened Arith

  function Mirror(t: Table): Table {
    t.(entries := [])
  }

  /** Registers of one hardware table. */
  datatype HwCtl = HwCtl(inUse: bool, canUse: bool, startSec: nat, startNsec: int, cycleNs: int)

  /** Rows that the schedule asks for are in the table. */
  ghost predicate Loaded(port: Port, t: Table, rows: seq<Row>)
    requires port.Valid()
  {
    && 0 < t.listLen <= |t.entries| && t.listLen < |rows| && Masked(port, t.entries)
    && IsEncoding(port, t.entries[..t.listLen], rows[..t.listLen])
    && rows[t.listLen] == StopRow(port, t.entries[..t.listLen])
  }

  /** Registers and mirror of a submitted schedule: 8 bits of the start second, the cycle time in ns. */
  ghost predicate Carries(c: HwCtl, mirror: Table, s: Sub) {
    && mirror == Mirror(s.list) && s.list.cycle.denom > 0
    && c.startSec == s.start.sec % START_SEC_RANGE && c.startNsec == s.start.nsec
    && c.cycleNs == RationalToNsec(s.list.cycle).nsec % TWO32
  }

  class Sched {
    const cfg: Config
    var admin: Table
    const opTabs: array<Table>
    var gateEnabled: bool
    var confChange: bool
    var offset: int
    var ccTime: Timespec
    var start: Timespec
    var state: State
    var timer: bool                      // the delayed work is scheduled
    var errors: nat
    const tab0: array<Row>               // hardware
    const tab1: array<Row>
    var ctl: seq<HwCtl>
    ghost var src: seq<Sub>              // what each hardware table was last submitted from

    function Tab(t: nat): array<Row> {
      if t == 0 then tab0 else tab1
    }

    ghost predicate Shape() {
      && cfg.Valid() && tab0 != tab1 && opTabs.Length == 2
      && tab0.Length == cfg.maxEntry + 1 && tab1.Length == cfg.maxEntry + 1
    }

    /** At most one table runs, at most one waits, and never the same. */
    ghost predicate HwSane()
      reads this`ctl, this`src
    {
      && |ctl| == 2 == |src| && src[0].tab == 0 && src[1].tab == 1
      && !(ctl[0].inUse && ctl[1].inUse) && !(ctl[0].canUse && ctl[1].canUse)
      && !(ctl[0].inUse && ctl[0].canUse) && !(ctl[1].inUse && ctl[1].canUse)
    }

    /** A table that runs or waits holds the schedule it was submitted from, and so do mirror and registers. */
    ghost predicate TabsLoaded()
      requires Shape() && HwSane()
      reads this`ctl, this`src, opTabs, tab0, tab1
    {
      forall t :: 0 <= t < 2 && (ctl[t].inUse || ctl[t].canUse) ==>
        Carries(ctl[t], opTabs[t], src[t]) && Loaded(cfg.port, src[t].list, Tab(t)[..])
    }

    ghost function Running(): Option<Sub>
      requires HwSane()
      reads this`ctl, this`src
    {
      if ctl[0].inUse then Some(src[0]) else if ctl[1].inUse then Some(src[1]) else None
    }

    ghost function Waiting(): Option<Sub>
      requires HwSane()
      reads this`ctl, this`src
    {
      if ctl[0].canUse then Some(src[0]) else if ctl[1].canUse then Some(src[1]) else None
    }

    /** The state as a value. */
    ghost function Abs(): Mach
      requires HwSane()
      reads this
    {
      Mach(admin, gateEnabled, confChange, state, ccTime, start, errors, Running(), Waiting())
    }

    ghost predicate HwOk()
      reads this, opTabs, tab0, tab1
    {
      Shape() && HwSane() && TabsLoaded()
    }

    ghost predicate Valid()
      reads this, opTabs, tab0, tab1
    {
      && HwOk() && TableOk(cfg, admin) && MachOk(Abs())
      && (timer <==> state == PendingDelayed)
      && ccTime.Ns() + offset == start.Ns()
    }

    /** The rows of a table that runs before and after, its mirror and its registers are the same. */
    twostate predicate InUseKept()
      requires Shape()
      reads this, opTabs, tab0, tab1
    {
      |old(ctl)| == 2 == |ctl| && forall t :: 0 <= t < 2 ==>
        && ctl[t].inUse == old(ctl)[t].inUse
        && (ctl[t].inUse ==> Tab(t)[..] == old(Tab(t)[..]) && opTabs[t] == old(opTabs[t]) && ctl[t] == old(ctl)[t])
    }

    constructor (cfg: Config, row0: Row)
      requires cfg.Valid()
      ensures Valid() && this.cfg == cfg && fresh(opTabs) && fresh(tab0) && fresh(tab1) && Abs() == Initial()
    {
      this.cfg := cfg;
      admin := InitialAdmin();
      opTabs := new Table[2](_ => InitialAdmin());
      tab0 := new Row[cfg.maxEntry + 1](_ => row0);
      tab1 := new Row[cfg.maxEntry + 1](_ => row0);
      gateEnabled, confChange, offset, state, timer, errors := false, false, 0, Idle, false, 0;
      ccTime, start := Timespec(0, 0), Timespec(0, 0);
      ctl := [HwCtl(false, false, 0, 0, 0), HwCtl(false, false, 0, 0, 0)];
      src := [Sub(0, InitialAdmin(), Timespec(0, 0)), Sub(1, InitialAdmin(), Timespec(0, 0))];
    }

    // ---------------------------------------------------------------- hardware access

    /** edgx_sched_get_free_tab; with at most one table in use it never fails. */
    method GetFreeTab() returns (t: int)
      requires HwSane()
      ensures t == FreeTab(Abs()) < 2 && !ctl[t].inUse
    {
      t := if !ctl[0].inUse then 0 else if !ctl[1].inUse then 1 else -1;
    }

    /** edgx_sched_get_used_tab */
    method GetUsedTab() returns (t: int)
      requires HwSane()
      ensures t < 2 && (t >= 0 ==> ctl[t].inUse)
      ensures Running() == if t >= 0 then Some(src[t]) else None
    {
      t := if ctl[0].inUse then 0 else if ctl[1].inUse then 1 else -1;
    }

    /** edgx_sched_hw_cancel_pending */
    method CancelPending()
      requires HwOk()
      modifies this`ctl
      ensures HwOk() && Waiting() == None && Running() == old(Running()) && InUseKept()
    {
      hide Loaded, Carries;
      CarriesAny(ctl[0], opTabs[0], src[0]);
      CarriesAny(ctl[1], opTabs[1], src[1]);
      ctl := ctl[0 := ctl[0].(canUse := false)];
      ctl := ctl[1 := ctl[1].(canUse := false)];
    }

    /** edgx_sched_hw_set_pending: 8 bits of the start second are written. */
    method SetPending(t: nat, cycleNs: int)
      requires |ctl| == 2 && t < 2
      modifies this`ctl
      ensures ctl == old(ctl)[t := HwCtl(old(ctl)[t].inUse, true, start.sec % START_SEC_RANGE, start.nsec, cycleNs % TWO32)]
    {
      ctl := ctl[t := HwCtl(ctl[t].inUse, true, start.sec % START_SEC_RANGE, start.nsec, cycleNs % TWO32)];
    }

    // ---------------------------------------------------------------- config change

    /** edgx_sched_check_cc_params */
    method CheckCcParams(env: Env) returns (st: Status)
      modifies this`offset
      ensures st == if !Complete(admin) then EFault else if env.offset.None? then EInval else Ok
      ensures offset == if st == Ok then env.offset.value else old(offset)
    {
      if admin.entryCnt == 0 || admin.cycle.num == 0 || admin.listLen == 0 || admin.entryCnt < admin.listLen {
        return EFault;
      }
      if env.offset.None? {
        return EInval;
      }
      offset := env.offset.value;
      st := Ok;
    }

    /** Copy the admin table to a free table. */
    method CopyAdmin(t: nat, budget: nat) returns (st: Status)
      requires Shape() && TableOk(cfg, admin) && Complete(admin) && t < 2
      modifies opTabs, tab0, tab1
      ensures st == if budget >= Transfers(Submittable(admin)) then Ok else EBusy
      ensures opTabs[t] == Mirror(admin) && opTabs[1 - t] == old(opTabs[1 - t]) && Tab(1 - t)[..] == old(Tab(1 - t)[..])
      ensures st == Ok ==> Loaded(cfg.port, admin, Tab(t)[..])
    {
      hide IsEncoding, Masked, Transfers, StopRow;
      opTabs[t] := Mirror(admin);
      st := PrepareConfig(cfg.port, Tab(t), admin.entries[..admin.listLen], budget) by {
        MaskedPrefix(cfg.port, admin.entries, admin.listLen);
      }
    }

    /** edgx_sched_config_change: copy the admin table to a free table and submit it. */
    method ConfigChange(env: Env) returns (st: Status)
      requires HwOk() && Waiting() == None && TableOk(cfg, admin) && Complete(admin)
      modifies this`ctl, this`src, opTabs, tab0, tab1
      ensures HwOk() && InUseKept() && Running() == old(Running())
      ensures st == if env.budget >= Transfers(Submittable(admin)) then Ok else EBusy
      ensures Waiting() == if st == Ok then Some(Sub(FreeTab(old(Abs())), admin, start)) else None
    {
      hide Loaded, RationalToNsec, Transfers, TableOk, Complete, Submittable, Carries;
      var t := GetFreeTab();
      st := CopyAdmin(t, env.budget);
      if st == Ok {
        HasCycle(cfg, admin);
        var ct := RationalToNsec(opTabs[t].cycle);
        SetPending(t, ct.nsec);
        src := src[t := Sub(t, admin, start)];
        CarriesNew(ctl[t], admin, src[t]);
      }
    }

    /** Withdraw what is pending in hardware or waiting for its timer. */
    method StopWaiting()
      requires HwOk() && (Waiting().Some? ==> state == Pending) && (timer <==> state == PendingDelayed)
      modifies this`ctl, this`state, this`timer
      ensures HwOk() && InUseKept() && !timer && Abs() == old(Abs()).(state := Idle, waiting := None)
    {
      hide Loaded, Carries;
      if state == Pending {
        CancelPending();
      } else if state == PendingDelayed {
        timer := false;
      }
      state := Idle;
    }

    /** edgx_sched_calc_cc_time */
    method CalcTimes(env: Env) returns (delay: int)
      requires admin.cycle.Valid()
      modifies this`ccTime, this`start, this`errors
      ensures var c := CalcCcTime(admin.base, env.now, admin.cycle, offset);
              ccTime == c.ccTime && start == c.start && delay == c.delay >= 0
              && errors == old(errors) + (if c.inPast then 1 else 0)
      ensures ccTime.Ns() + offset == start.Ns()
    {
      hide CalcCcTime;
      StartIsOffset(admin.base, env.now, admin.cycle, offset);
      var c := CalcCcTime(admin.base, env.now, admin.cycle, offset);
      ccTime, start, delay := c.ccTime, c.start, c.delay;
      if c.inPast {
        errors := errors + 1;
      }
    }

    /** The part of edgx_sched_stm_cfg_change that decides between waiting and submitting. */
    method Schedule(env: Env) returns (st: Status)
      requires HwOk() && TableOk(cfg, admin) && Complete(admin) && admin.cycle.denom > 0 && env.offset == Some(offset)
      requires Waiting() == None && state == Idle && !timer
      modifies this`ctl, this`src, this`ccTime, this`start, this`state, this`timer, this`errors, opTabs, tab0, tab1
      ensures HwOk() && InUseKept() && (timer <==> state == PendingDelayed) && ccTime.Ns() + offset == start.Ns()
      ensures (st, Abs()) == Scheduled(old(Abs()), env)
    {
      hide Loaded, Carries, CalcCcTime, Timespec.Ns, Masked, Transfers, Submittable;
      var delay := CalcTimes(env);
      if delay > 0 {
        state := PendingDelayed;
        timer := true;
        st := Ok;
      } else {
        st := ConfigChange(env);
        if st == Ok {
          state := Pending;
        }
      }
    }

    /** edgx_sched_stm_cfg_change */
    method CfgChange(env: Env) returns (st: Status)
      requires HwOk() && TableOk(cfg, admin) && ccTime.Ns() + offset == start.Ns()
      requires (Waiting().Some? ==> state == Pending) && (timer <==> state == PendingDelayed)
      modifies this`ctl, this`src, this`offset, this`ccTime, this`start, this`state, this`timer, this`errors, this`confChange,
               opTabs, tab0, tab1
      ensures HwOk() && InUseKept() && (timer <==> state == PendingDelayed) && ccTime.Ns() + offset == start.Ns()
      ensures (st, Abs()) == Changed(old(Abs()), env)
    {
      hide Loaded, Carries, Timespec.Ns, Masked, Scheduled;
      st := Ok;
      if !confChange {
        return;
      }
      StopWaiting();
      if !gateEnabled {
        return;
      }
      st := CheckCcParams(env);
      confChange := false;
      if st == Ok {
        st := Schedule(env);
      }
    }

    // ---------------------------------------------------------------- administrative values

    /** edgx_sched_set_cycle_time */
    method SetCycleTime(ct: Rational) returns (st: Status)
      requires Valid()
      modifies this`admin, this`errors
      ensures Valid() && InUseKept() && (st, Abs()) == CycleWritten(old(Abs()), ct)
    {
      hide Loaded, Carries, RationalToNsec, Masked;
      st := EInval;
      if ct.denom != 0 {
        RationalToNsecExact(ct);
        var n := RationalToNsec(ct);
        if n.nsec <= MAX_CYC_NS {
          admin := admin.(cycle := ct);
          st := Ok;
        } else {
          errors := errors + 1;
          st := ERange;
        }
      }
    }

    /** edgx_sched_set_base_time */
    method SetBaseTime(base: Timespec)
      requires Valid()
      modifies this`admin
      ensures Valid() && InUseKept() && (Ok, Abs()) == Step(cfg, old(Abs()), WriteBase(base))
    {
      hide Loaded, Carries, Masked;
      admin := admin.(base := base);
    }

    /** edgx_sched_set_ctrl_list_len */
    method SetCtrlListLen(len: nat) returns (st: Status)
      requires Valid()
      modifies this`admin
      ensures Valid() && InUseKept() && (st, Abs()) == Step(cfg, old(Abs()), WriteLen(len))
    {
      hide Loaded, Carries, Masked;
      if len > cfg.maxEntry {
        return ERange;
      }
      admin := admin.(listLen := len);
      st := Ok;
    }

    /** edgx_sched_adjust_admin_tab */
    method AdjustAdminTab() returns (st: Status)
      requires Shape()
      modifies this`errors
      ensures st == if Accepted(cfg.port, admin.entries) then Ok else EInval
      ensures errors == old(errors) + (if st == Ok then 0 else 1)
    {
      hide InGranules;
      for i := 0 to |admin.entries|
        invariant errors == old(errors)
        invariant forall j :: 0 <= j < i ==>
                    admin.entries[j].interval % cfg.port.gran == 0 && InGranules(cfg.port, admin.entries[j].interval) <= 0xffff
      {
        if admin.entries[i].interval % cfg.port.gran != 0 {
          errors := errors + 1;
          return EInval;
        }
        if InGranules(cfg.port, admin.entries[i].interval) > 0xffff {
          errors := errors + 1;
          return EInval;
        }
      }
      st := Ok;
    }

    /** admin_ctrl_list_write: the gate states are cut to the gates of the port. */
    method Mask(es: seq<Entry>) returns (masked: seq<Entry>)
      requires Shape()
      ensures masked == MaskGates(cfg.port, es)
    {
      masked := [];
      for i := 0 to |es|
        invariant masked == MaskGates(cfg.port, es[..i])
      {
        assert es[..i + 1] == es[..i] + [es[i]];
        masked := masked + [es[i].(gates := GatesOf(cfg.port, es[i].gates))];
      }
      assert es[..|es|] == es;
    }

    /** admin_ctrl_list_write with edgx_sched_set_entries. An invalid list is reported but stays in place. */
    method SetEntries(first: nat, es: seq<Entry>, mem: bool) returns (st: Status)
      requires Valid()
      modifies this`admin, this`errors
      ensures Valid() && InUseKept() && (st, Abs()) == Written(cfg, old(Abs()), first, es, mem)
    {
      hide TabsLoaded, Accepted, TableOk, MachOk, Timespec.Ns;
      AdminStaysOk(cfg, Abs(), WriteEntries(first, es, mem));
      StepOk(cfg, Abs(), WriteEntries(first, es, mem));
      var masked := Mask(es);
      if first + |es| > cfg.maxEntry {
        return EFBig;
      }
      if first == 0 {
        admin := admin.(entryCnt := 0, entries := []);
      }
      if first != admin.entryCnt {
        return EInval;
      }
      if !mem {
        return ENoMem;
      }
      admin := admin.(entries := admin.entries + masked, entryCnt := first + |es|);
      st := AdjustAdminTab();
    }

    // ---------------------------------------------------------------- requests and events

    /** edgx_sched_set_config_change */
    method SetConfigChange(request: bool, env: Env) returns (st: Status)
      requires Valid()
      modifies this`ctl, this`src, this`offset, this`ccTime, this`start, this`state, this`timer, this`errors, this`confChange,
               opTabs, tab0, tab1
      ensures Valid() && InUseKept() && (st, Abs()) == Step(cfg, old(Abs()), ConfigReq(request, env))
    {
      hide Loaded, Carries, Changed, TableOk, Timespec.Ns;
      EntriesCounted(cfg, admin);
      StepOk(cfg, Abs(), ConfigReq(request, env));
      confChange := request;
      st := CfgChange(env);
    }

    /** edgx_sched_set_gate_enabled with edgx_sched_stm_gate_enable and edgx_sched_stm_gate_disable */
    method SetGateEnabled(enabled: bool, env: Env) returns (st: Status)
      requires Valid()
      modifies this`ctl, this`src, this`offset, this`ccTime, this`start, this`state, this`timer, this`errors, this`confChange,
               this`gateEnabled, opTabs, tab0, tab1
      ensures Valid() && InUseKept() && (st, Abs()) == Step(cfg, old(Abs()), GateReq(enabled, env))
    {
      hide Loaded, Carries, Changed, TableOk, Timespec.Ns;
      EntriesCounted(cfg, admin);
      StepOk(cfg, Abs(), GateReq(enabled, env));
      gateEnabled := enabled;
      st := Ok;
      if enabled {
        if state == Idle && confChange {
          st := CfgChange(env);
        }
      } else {
        StopWaiting();
      }
    }

    /** edgx_sched_stm_cct_handler: the interrupt reports that a table switch may have happened. */
    method CctHandler()
      requires Valid()
      modifies this`state
      ensures Valid() && InUseKept() && (Ok, Abs()) == Step(cfg, old(Abs()), Interrupt)
    {
      hide Loaded, Carries, Masked;
      if state == Pending && !ctl[0].canUse && !ctl[1].canUse {
        state := Idle;
      }
    }

    /** edgx_sched_stm_pending_delayed: the timer fires. The request flag was cleared when the wait began,
        so the config change it re-enters returns at once: the waiting schedule is dropped. */
    method DelayedWork(env: Env)
      requires Valid() && timer
      modifies this`ctl, this`src, this`offset, this`ccTime, this`start, this`state, this`timer, this`errors, this`confChange,
               opTabs, tab0, tab1
      ensures Valid() && InUseKept() && (Ok, Abs()) == Step(cfg, old(Abs()), Timer(env))
      ensures Abs() == old(Abs()).(state := Idle) && Waiting() == None && !confChange
    {
      hide Loaded, Carries, TableOk, Timespec.Ns, Scheduled;
      EntriesCounted(cfg, admin);
      timer := false;
      state := Idle;
      var _ := CfgChange(env);
    }

    /** The hardware switches to the table that waits and releases the other one. */
    method HwSwitch(t: nat)
      requires Valid() && t < 2 && ctl[t].canUse
      modifies this`ctl
      ensures Valid() && (Ok, Abs()) == Step(cfg, old(Abs()), Switch(t)) && Running() == Some(src[t])
      ensures ctl == old(ctl)[t := old(ctl)[t].(inUse := true, canUse := false)][1 - t := old(ctl)[1 - t].(inUse := false)]
    {
      hide Loaded, Carries, TableOk;
      CarriesAny(ctl[0], opTabs[0], src[0]);
      CarriesAny(ctl[1], opTabs[1], src[1]);
      ctl := ctl[t := ctl[t].(inUse := true, canUse := false)];
      ctl := ctl[1 - t := ctl[1 - t].(inUse := false)];
    }

    /** One request or event; a timer or a switch that is not due does nothing. */
    method Handle(r: Request) returns (st: Status)
      requires Valid()
      modifies this, opTabs, tab0, tab1
      ensures Valid() && (st, Abs()) == Step(cfg, old(Abs()), r)
      ensures !r.Switch? ==> InUseKept()
    {
      hide TabsLoaded, TableOk, Timespec.Ns, Changed, Written;
      EntriesCounted(cfg, admin);
      st := Ok;
      match r {
        case WriteEntries(first, es, mem) => st := SetEntries(first, es, mem);
        case WriteLen(len) => st := SetCtrlListLen(len);
        case WriteCycle(ct) => st := SetCycleTime(ct);
        case WriteBase(base) => SetBaseTime(base);
        case ConfigReq(flag, env) => st := SetConfigChange(flag, env);
        case GateReq(on, env) => st := SetGateEnabled(on, env);
        case Interrupt => CctHandler();
        case Timer(env) =>
          if timer {
            DelayedWork(env);
          }
        case Switch(t) =>
          if t < 2 && ctl[t].canUse {
            HwSwitch(t);
          }
      }
    }
  }

  // ---------------------------------------------------------------- whole runs

  /** What an observer sees of a hardware table: its mirror, its rows and its registers. */
  datatype Oper = Oper(mirror: Table, rows: seq<Row>, ctl: HwCtl)

  /** An observed table carries a submission: mirror, rows and registers. */
  ghost predicate Shows(cfg: Config, o: Oper, s: Sub)
    requires cfg.Valid()
  {
    Carries(o.ctl, o.mirror, s) && Loaded(cfg.port, s.list, o.rows)
  }

  ghost predicate ShowsIf(cfg: Config, o: Option<Oper>, s: Option<Sub>)
    requires cfg.Valid()
  {
    (o.Some? <==> s.Some?) && (o.Some? ==> Shows(cfg, o.value, s.value))
  }

  /** A new scheduler handles a sequence of requests and events. */
  method Drive(cfg: Config, row0: Row, rs: seq<Request>) returns (s: Sched, sts: seq<Status>, states: seq<State>)
    requires cfg.Valid()
    ensures s.Valid() && s.cfg == cfg && s.Abs() == After(cfg, rs)
    ensures fresh(s) && fresh(s.opTabs) && fresh(s.tab0) && fresh(s.tab1)
    ensures sts == Replies(cfg, rs) && |states| == |rs| && forall i :: 0 <= i < |rs| ==> states[i] == At(cfg, rs, i + 1).state
  {
    hide After, Step, Sched.TabsLoaded, TableOk, MachOk, Timespec.Ns;
    StartEmpty(cfg);
    s := new Sched(cfg, row0);
    sts, states := [], [];
    for i := 0 to |rs|
      invariant s.Valid() && s.cfg == cfg && s.Abs() == After(cfg, rs[..i])
      invariant fresh(s) && fresh(s.opTabs) && fresh(s.tab0) && fresh(s.tab1)
      invariant sts == Replies(cfg, rs[..i])
      invariant |states| == i && forall j :: 0 <= j < i ==> states[j] == At(cfg, rs, j + 1).state
    {
      assert rs[..i + 1] == rs[..i] + [rs[i]];
      AfterOne(cfg, rs[..i], rs[i]);
      var st := s.Handle(rs[i]);
      sts, states := sts + [st], states + [s.state];
    }
    assert rs[..|rs|] == rs;
  }

  method Observe(s: Sched) returns (running: Option<Oper>, waiting: Option<Oper>)
    requires s.Valid()
    ensures ShowsIf(s.cfg, running, s.Running()) && ShowsIf(s.cfg, waiting, s.Waiting())
  {
    hide Loaded, Carries, TableOk, MachOk;
    running, waiting := None, None;
    var t := s.GetUsedTab();
    if t >= 0 {
      running := Some(Oper(s.opTabs[t], s.Tab(t)[..], s.ctl[t]));
    }
    if s.ctl[0].canUse {
      waiting := Some(Oper(s.opTabs[0], s.tab0[..], s.ctl[0]));
    } else if s.ctl[1].canUse {
      waiting := Some(Oper(s.opTabs[1], s.tab1[..], s.ctl[1]));
    }
  }

  /** After any sequence of requests, timer events and table switches every reply and every state is what
      the history means. A running table carries the admin list as it was when one request submitted it,
      which then waited untouched until the hardware switched to it and has run ever since; a pending table
      carries the list of the submission that waits. */
  method Run(cfg: Config, row0: Row, rs: seq<Request>)
    returns (sts: seq<Status>, states: seq<State>, running: Option<Oper>, waiting: Option<Oper>)
    requires cfg.Valid()
    ensures sts == Replies(cfg, rs) && |states| == |rs| && forall i :: 0 <= i < |rs| ==> states[i] == At(cfg, rs, i + 1).state
    ensures ShowsIf(cfg, running, After(cfg, rs).running) && ShowsIf(cfg, waiting, After(cfg, rs).waiting)
    ensures running.Some? ==>
              exists j: nat, k: nat, s: Sub :: j < k < |rs| && RunsFrom(cfg, rs, j, k, s) && Shows(cfg, running.value, s)
    ensures waiting.Some? ==>
              exists j: nat, s: Sub :: j < |rs| && WaitsFrom(cfg, rs, j, |rs|, s) && Shows(cfg, waiting.value, s)
  {
    var s;
    s, sts, states := Drive(cfg, row0, rs);
    hide After, Shows, RunsFrom, WaitsFrom, Sched.HwOk;
    running, waiting := Observe(s);
    if running.Some? {
      var _, _ := RunningWasSubmitted(cfg, rs);
    }
    if waiting.Some? {
      var _ := WaitingWasSubmitted(cfg, rs);
    }
  }

  /** What a table tells the hardware: eight bits of the start second, the nanoseconds of the start, the cycle
      time in whole nanoseconds, and row by row the gate of every queue and the hold of the cycle. */
  ghost predicate Programs(cfg: Config, o: Oper, a: Table, start: Timespec)
    requires cfg.Valid()
  {
    && o.ctl.startSec == start.sec % 256 && o.ctl.startNsec == start.nsec
    && o.ctl.cycleNs * a.cycle.denom <= a.cycle.num * NSEC_PER_SEC < (o.ctl.cycleNs + 1) * a.cycle.denom
    && 0 < a.listLen <= |a.entries| && a.listLen < |o.rows|
    && (forall i, q :: 0 <= i < a.listLen && 0 <= q < cfg.port.queues ==>
          (BitSet(o.rows[i].states, q) <==> BitSet(a.entries[i].gates, q)))
    && (forall i :: 0 <= i < a.listLen ==> (BitSet(o.rows[i].states, cfg.port.queues) <==> OnHold(a.entries[..a.listLen], i)))
    && Times(cfg, o.rows, a) && Stops(cfg, o.rows, a)
  }

  /** Times are those of the list, as far as 16 bits of granules express them. */
  ghost predicate Times(cfg: Config, rows: seq<Row>, a: Table)
    requires cfg.Valid() && a.listLen <= |a.entries| && a.listLen < |rows|
  {
    var es := a.entries[..a.listLen];
    Accepted(cfg.port, es) && Granules(cfg.port, es, a.listLen) <= 65535 ==>
      forall i :: 0 <= i < a.listLen ==> rows[i].cycles == Granules(cfg.port, es, i + 1)
  }

  /** The row behind the list stops with the gates and the time of its end, and without hold. */
  ghost predicate Stops(cfg: Config, rows: seq<Row>, a: Table)
    requires cfg.Valid() && 0 < a.listLen <= |a.entries| && a.listLen < |rows|
  {
    var stop := rows[a.listLen];
    && stop.cycles == rows[a.listLen - 1].cycles && !BitSet(stop.states, cfg.port.queues)
    && forall q :: 0 <= q < cfg.port.queues ==> (BitSet(stop.states, q) <==> BitSet(a.entries[a.listLen - 1].gates, q))
  }

  /** A table that carries a list as it was after some history programs it. */
  lemma ShownPrograms(cfg: Config, rs: seq<Request>, o: Oper, t: nat, start: Timespec)
    requires cfg.Valid() && Shows(cfg, o, Sub(t, After(cfg, rs).admin, start))
    ensures Programs(cfg, o, After(cfg, rs).admin, start)
  {
    hide OnHold, BitSet, IsEncoding, After, CycleFits, RationalToNsec, StopRow, Accepted, Granules;
    var a := After(cfg, rs).admin;
    CycleBelow(cfg, rs);
    RationalToNsecExact(a.cycle);
    WholeNs(a.cycle.num * NSEC_PER_SEC, a.cycle.denom);
    var es, rows := a.entries[..a.listLen], o.rows[..a.listLen];
    MaskedPrefix(cfg.port, a.entries, a.listLen);
    forall i, q | 0 <= i < a.listLen && 0 <= q < cfg.port.queues
      ensures BitSet(o.rows[i].states, q) <==> BitSet(a.entries[i].gates, q)
    {
      RowBits(cfg.port, es, rows, i, q);
      assert es[i] == a.entries[i] && rows[i] == o.rows[i];
    }
    forall i | 0 <= i < a.listLen
      ensures BitSet(o.rows[i].states, cfg.port.queues) <==> OnHold(es, i)
    {
      RowBits(cfg.port, es, rows, i, 0);
      assert rows[i] == o.rows[i];
    }
    TimesAndStop(cfg, o.rows, a);
  }

  lemma TimesAndStop(cfg: Config, rows: seq<Row>, a: Table)
    requires cfg.Valid() && Loaded(cfg.port, a, rows)
    ensures Times(cfg, rows, a) && Stops(cfg, rows, a)
  {
    hide OnHold, BitSet, IsEncoding, StopRow, Accepted, Granules;
    var es, head := a.entries[..a.listLen], rows[..a.listLen];
    MaskedPrefix(cfg.port, a.entries, a.listLen);
    if Accepted(cfg.port, es) && Granules(cfg.port, es, a.listLen) <= 65535 {
      forall i | 0 <= i < a.listLen
        ensures rows[i].cycles == Granules(cfg.port, es, i + 1)
      {
        RowCycles(cfg.port, es, head, i);
      }
    }
    StopRowBits(cfg.port, es, head, 0);
    EncodingLength(cfg.port, es, head);
    forall q | 0 <= q < cfg.port.queues
      ensures BitSet(rows[a.listLen].states, q) <==> BitSet(a.entries[a.listLen - 1].gates, q)
    {
      StopRowBits(cfg.port, es, head, q);
    }
  }

  /** The cycle time that is stored after any history stays below the limit. */
  lemma CycleBelow(cfg: Config, rs: seq<Request>)
    requires cfg.Valid()
    ensures var c := After(cfg, rs).admin.cycle;
            c.denom > 0 && 0 <= c.num * NSEC_PER_SEC / c.denom <= MAX_CYC_NS
  {
    hide After;
    LastWritten(cfg, rs);
    var c := After(cfg, rs).admin.cycle;
    FloorReaches(c.num * NSEC_PER_SEC, c.denom, MAX_CYC_NS + 1);
    FloorReaches(c.num * NSEC_PER_SEC, c.denom, 0);
  }

  lemma WholeNs(x: nat, d: nat)
    requires d > 0
    ensures x / d * d <= x < (x / d + 1) * d
  {
    Distribute(1, x / d, 1, d);
  }

  /** One submission of the list is what was pending and what runs now. */
  ghost predicate Deployed(cfg: Config, pending: Oper, running: Option<Oper>, a: Table, start: Timespec)
    requires cfg.Valid()
  {
    running.Some? && exists t: nat :: t < 2 && Shows(cfg, pending, Sub(t, a, start)) && Shows(cfg, running.value, Sub(t, a, start))
  }

  /** After any history: enable the gate, request a change, let the timer fire, let the hardware switch. The
      reply says what is wrong; otherwise the current admin list is pending exactly if no wait was needed, its
      seconds field is right exactly if the start is not in a past second, and it runs after the switch. */
  method Deploy(cfg: Config, row0: Row, rs: seq<Request>, env0: Env, env: Env, env1: Env)
    returns (st: Status, state: State, pending: Option<Oper>, running: Option<Oper>)
    requires cfg.Valid()
    ensures var a := After(cfg, rs).admin;
            st == ServedReply(a, env) && (pending.Some? ==> Complete(a) && env.offset.Some?)
    ensures var a := After(cfg, rs).admin;
            st == Ok ==>
              var c := CalcCcTime(a.base, env.now, a.cycle, env.offset.value);
              && (pending.Some? <==> c.delay <= 0)
              && (c.delay > 0 ==> state == Idle)
              && (pending.Some? ==>
                    && Deployed(cfg, pending.value, running, a, c.start) && Programs(cfg, running.value, a, c.start)
                    && (StartFromField(env.now.sec, pending.value.ctl.startSec) == c.start.sec <==> env.now.sec <= c.start.sec))
    ensures st != Ok ==> pending.None? && state == Idle
  {
    var q := Requested(rs, env0, env);
    var s, sts, _ := Drive(cfg, row0, q + [Timer(env1)]);
    hide After, Replies, Shows, Loaded, CalcCcTime, Transfers, Submittable, TableOk, Timespec.Ns, Complete, Programs;
    AfterOne(cfg, q, Timer(env1));
    RequestServed(cfg, rs, env0, env);
    AfterOk(cfg, q);
    st, state, pending, running := sts[|sts| - 2], s.state, None, None;
    if s.ctl[0].canUse || s.ctl[1].canUse {
      HasCycle(cfg, After(cfg, rs).admin);
      FieldOfPending(After(cfg, rs).admin, env);
      ghost var sub := s.Waiting().value;
      pending, running := StartPending(s);
      assert Deployed(cfg, pending.value, running, sub.list, sub.start);
      ShownPrograms(cfg, rs, running.value, sub.tab, sub.start);
    }
  }

  /** What is pending before a table switch, and what runs after it. */
  method StartPending(s: Sched) returns (pending: Option<Oper>, running: Option<Oper>)
    requires s.Valid() && s.Waiting().Some?
    modifies s`ctl
    ensures pending.Some? && running.Some? && old(s.Waiting()).value.tab < 2
    ensures Shows(s.cfg, pending.value, old(s.Waiting()).value) && Shows(s.cfg, running.value, old(s.Waiting()).value)
    ensures Carries(pending.value.ctl, pending.value.mirror, old(s.Waiting()).value)
  {
    hide Loaded, Carries, TableOk, Timespec.Ns;
    var before, after;
    before, pending := Observe(s);
    s.HwSwitch(if s.ctl[0].canUse then 0 else 1);
    running, after := Observe(s);
  }

  lemma FieldOfPending(a: Table, env: Env)
    requires a.cycle.Valid() && env.offset.Some?
    ensures var c := CalcCcTime(a.base, env.now, a.cycle, env.offset.value);
            c.delay <= 0 ==> (StartFromField(env.now.sec, c.start.sec % START_SEC_RANGE) == c.start.sec <==> env.now.sec <= c.start.sec)
  {
    hide FutureTime, NotAfter, StartFromField;
    var c := CalcCcTime(a.base, env.now, a.cycle, env.offset.value);
    if c.delay <= 0 {
      FieldOnSubmission(env.now.sec, c.start.sec);
    }
  }

  lemma EntriesCounted(cfg: Config, a: Table)
    requires cfg.Valid() && TableOk(cfg, a)
    ensures a.entryCnt == |a.entries| && a.cycle.denom > 0
  {
  }

  lemma HasCycle(cfg: Config, a: Table)
    requires cfg.Valid() && TableOk(cfg, a) && Complete(a)
    ensures a.cycle.Valid() && a.entryCnt == |a.entries|
  {
  }

  lemma MaskedPrefix(pt: Port, es: seq<Entry>, n: nat)
    requires pt.Valid() && Masked(pt, es) && n <= |es|
    ensures Masked(pt, es[..n])
  {
  }

  /** The bits that say whether a table runs or waits are no part of what it carries. */
  lemma CarriesAny(c: HwCtl, mirror: Table, s: Sub)
    ensures forall i, u {:trigger c.(inUse := i, canUse := u)} :: Carries(c.(inUse := i, canUse := u), mirror, s) == Carries(c, mirror, s)
  {
  }

  lemma CarriesNew(c: HwCtl, a: Table, s: Sub)
    requires a.cycle.denom > 0 && s.list == a
    requires c.startSec == s.start.sec % START_SEC_RANGE && c.startNsec == s.start.nsec
    requires c.cycleNs == RationalToNsec(a.cycle).nsec % TWO32
    ensures Carries(c, Mirror(a), s)
  {
  }
}
