/**
 * Gate control lists: how the scheduled-traffic port driver encodes a list into
 * the rows of a hardware table (cumulative times, gate bits, a hold bit that
 * carries over the cycle end) and how it reads a running list back.
 */
module SchedList {
  import opened Common
  import opened Arith

  const OP_SET_GSTATES: nat := 0
  const OP_HOLD_MAC: nat := 1
  const OP_REL_MAC: nat := 2

  /** A control list entry; `op` is the operation name, `gates` the gate state bits. */
  datatype Entry = Entry(interval: u32, op: nat, gates: nat)

  const UNDEF_ENTRY: Entry := Entry(0, 0xff, 0)

  /** A hardware table row: gate and hold bits, and the time from cycle start in granules (16 bits). */
  datatype Row = Row(states: nat, cycles: nat)

  /** Tick granularity and number of queues of a port. */
  datatype Port = Port(gran: nat, queues: nat) {
    predicate Valid() {
      0 < gran < 32768 && 0 < queues <= 8
    }

    /** BIT(queues): the hold bit sits right above the gate bits. */
    function HoldBit(): nat
      requires Valid()
    {
      [1, 2, 4, 8, 16, 32, 64, 128, 256][queues]
    }
  }

  /** Gate states that leave the hold bit alone; control list writes are masked to these. */
  predicate Masked(pt: Port, es: seq<Entry>)
    requires pt.Valid()
  {
    forall i :: 0 <= i < |es| ==> es[i].gates < pt.HoldBit()
  }

  /** `gates | hold` for gate states below the hold bit. */
  function States(pt: Port, gates: nat, hold: bool): nat
    requires pt.Valid()
  {
    gates + if hold then pt.HoldBit() else 0
  }

  /** `states & gate mask` */
  function GatesOf(pt: Port, states: nat): nat
    requires pt.Valid()
  {
    states % pt.HoldBit()
  }

  /** `states & hold mask` */
  predicate HoldOf(pt: Port, states: nat)
    requires pt.Valid()
  {
    states / pt.HoldBit() % 2 == 1
  }

  lemma StatesRoundTrip(pt: Port, gates: nat, hold: bool)
    requires pt.Valid() && gates < pt.HoldBit()
    ensures GatesOf(pt, States(pt, gates, hold)) == gates && HoldOf(pt, States(pt, gates, hold)) == hold
  {
    var b := pt.HoldBit();
    assert b in [2, 4, 8, 16, 32, 64, 128, 256];
  }

  // ---------------------------------------------------------------- what the bits mean

  function Bit(n: nat): (b: nat)
    ensures b > 0
  {
    if n == 0 then 1 else 2 * Bit(n - 1)
  }

  /** The state bit of a queue's gate; bit number `queues` is the hold bit. */
  predicate BitSet(states: nat, q: nat) {
    states / Bit(q) % 2 == 1
  }

  lemma {:induction false} BitSplit(q: nat, n: nat)
    requires q <= n
    ensures Bit(n) == Bit(n - q) * Bit(q)
    decreases n
  {
    if q < n {
      BitSplit(q, n - 1);
      assert 2 * Bit(n - 1 - q) * Bit(q) == 2 * (Bit(n - 1 - q) * Bit(q));
    }
  }

  lemma Reassociate(a: nat, h: nat, b: nat)
    ensures a * (2 * h * b) == 2 * (a * h) * b
  {
  }

  lemma EvenShift(k: nat, x: nat)
    ensures (2 * k + x) % 2 == x % 2
  {
  }

  /** Bits from n on leave the bits below n alone. */
  lemma LowBits(q: nat, n: nat, high: nat, low: nat)
    requires q < n
    ensures BitSet(high * Bit(n) + low, q) <==> BitSet(low, q)
  {
    BitSplit(q, n);
    var h, b := Bit(n - 1 - q), Bit(q);
    assert Bit(n - q) == 2 * h;
    hide Bit;
    Reassociate(high, h, b);
    DivShift(low, 2 * (high * h), b);
    EvenShift(high * h, low / b);
  }

  lemma {:induction false} HoldBitIs(pt: Port)
    requires pt.Valid()
    ensures pt.HoldBit() == Bit(pt.queues)
  {
    assert Bit(0) == 1 && Bit(1) == 2 && Bit(2) == 4 && Bit(3) == 8 && Bit(4) == 16;
    assert Bit(5) == 32 && Bit(6) == 64 && Bit(7) == 128 && Bit(8) == 256;
  }

  /** The gate mask keeps the bit of every queue of the port and clears all others. */
  lemma MaskedBits(pt: Port, states: nat, q: nat)
    requires pt.Valid()
    ensures q < pt.queues ==> (BitSet(GatesOf(pt, states), q) <==> BitSet(states, q))
    ensures GatesOf(pt, states) < Bit(pt.queues)
  {
    HoldBitIs(pt);
    var b := Bit(pt.queues);
    if q < pt.queues {
      LowBits(q, pt.queues, states / b, states % b);
      assert states == states / b * b + states % b;
    }
  }

  /** The states of a row: the bit of every queue is that of the entry, the bit above them is the hold. */
  lemma StatesBits(pt: Port, gates: nat, hold: bool, q: nat)
    requires pt.Valid() && gates < pt.HoldBit()
    ensures q < pt.queues ==> (BitSet(States(pt, gates, hold), q) <==> BitSet(gates, q))
    ensures BitSet(States(pt, gates, hold), pt.queues) <==> hold
  {
    HoldBitIs(pt);
    var b := Bit(pt.queues);
    if q < pt.queues {
      LowBits(q, pt.queues, if hold then 1 else 0, gates);
    }
    DivUnique(gates + if hold then b else 0, b, if hold then 1 else 0);
  }

  // ---------------------------------------------------------------- what the rows have to be

  predicate IsHoldOp(e: Entry) {
    e.op == OP_HOLD_MAC || e.op == OP_REL_MAC
  }

  /** Going back d entries from entry i around the cycle of n entries. */
  function Back(i: int, d: int, n: int): int
    requires n > 0
  {
    (i - d) % n
  }

  /** Entry i runs with preemption on hold: the nearest HOLD or RELEASE at or cyclically before it is a HOLD. */
  ghost predicate OnHold(es: seq<Entry>, i: int)
    requires 0 <= i < |es|
  {
    exists d :: 0 <= d < |es| && es[Back(i, d, |es|)].op == OP_HOLD_MAC
                && forall c :: 0 <= c < d ==> !IsHoldOp(es[Back(i, c, |es|)])
  }

  /** Time from cycle start to the end of the first n intervals, as summed up in a u32. */
  function CumTime(es: seq<Entry>, n: nat): u32
    requires n <= |es|
  {
    if n == 0 then 0 else (CumTime(es, n - 1) + es[n - 1].interval) % TWO32
  }

  /** edgx_sched_write_entry: the row keeps 16 bits of the time in granules. */
  function RowOf(pt: Port, states: nat, time: u32): Row
    requires pt.Valid()
  {
    Row(states, time / pt.gran % 65536)
  }

  ghost predicate IsEncoding(pt: Port, es: seq<Entry>, rows: seq<Row>)
    requires pt.Valid()
  {
    && |rows| == |es|
    && forall i :: 0 <= i < |es| ==> rows[i] == RowOf(pt, States(pt, es[i].gates, OnHold(es, i)), CumTime(es, i + 1))
  }

  // ---------------------------------------------------------------- the encoder

  /** The hold state after running entries 0..n linearly, starting without hold. */
  function LinearHold(es: seq<Entry>, n: nat): bool
    requires n <= |es|
  {
    if n == 0 then false
    else if es[n - 1].op == OP_HOLD_MAC then true
    else if es[n - 1].op == OP_REL_MAC then false
    else LinearHold(es, n - 1)
  }

  predicate AllNeutral(es: seq<Entry>, n: nat)
    requires n <= |es|
  {
    forall i :: 0 <= i < n ==> !IsHoldOp(es[i])
  }

  /** A linear hold at entry n - 1 comes from a HOLD at a nearest earlier entry. */
  lemma {:induction false} LinearHoldWitness(es: seq<Entry>, n: nat) returns (j: nat)
    requires n <= |es| && LinearHold(es, n)
    ensures j < n && es[j].op == OP_HOLD_MAC && forall k :: j < k < n ==> !IsHoldOp(es[k])
  {
    if es[n - 1].op == OP_HOLD_MAC {
      j := n - 1;
    } else {
      j := LinearHoldWitness(es, n - 1);
    }
  }

  lemma {:induction false} LinearHoldFrom(es: seq<Entry>, j: nat, n: nat)
    requires j < n <= |es| && IsHoldOp(es[j]) && forall k :: j < k < n ==> !IsHoldOp(es[k])
    ensures LinearHold(es, n) <==> es[j].op == OP_HOLD_MAC
    decreases n
  {
    if j < n - 1 {
      LinearHoldFrom(es, j, n - 1);
    }
  }

  lemma {:induction false} NeutralKeeps(es: seq<Entry>, n: nat)
    requires n <= |es| && AllNeutral(es, n)
    ensures !LinearHold(es, n)
  {
    if n > 0 {
      NeutralKeeps(es, n - 1);
    }
  }

  lemma BackIs(i: int, d: int, n: int)
    requires 0 <= i < n && 0 <= d < n
    ensures Back(i, d, n) == if d <= i then i - d else i - d + n
  {
    DivUnique(i - d, n, if d <= i then 0 else -1);
  }

  lemma NearestIsHold(es: seq<Entry>, i: nat, j: nat, d: nat)
    requires i < |es| && j < |es| && d < |es| && d == if j <= i then i - j else i + |es| - j
    requires es[j].op == OP_HOLD_MAC
    requires forall k :: 0 <= k < |es| && (if j <= i then j < k <= i else j < k || k <= i) ==> !IsHoldOp(es[k])
    ensures OnHold(es, i)
  {
    BackIs(i, d, |es|);
    forall c | 0 <= c < d
      ensures !IsHoldOp(es[Back(i, c, |es|)])
    {
      BackIs(i, c, |es|);
    }
  }

  /** The cyclic hold state of entry i: the linear one if an operation precedes it in the list, the one
      at the end of the list otherwise. */
  lemma CyclicHold(es: seq<Entry>, i: nat)
    requires i < |es|
    ensures OnHold(es, i) <==> LinearHold(es, i + 1) || (AllNeutral(es, i + 1) && LinearHold(es, |es|))
  {
    if LinearHold(es, i + 1) {
      var j := LinearHoldWitness(es, i + 1);
      NearestIsHold(es, i, j, i - j);
    } else if AllNeutral(es, i + 1) && LinearHold(es, |es|) {
      var j := LinearHoldWitness(es, |es|);
      NearestIsHold(es, i, j, i + |es| - j);
    }
    if OnHold(es, i) {
      OnHoldIsLinear(es, i);
    }
  }

  lemma OnHoldIsLinear(es: seq<Entry>, i: nat)
    requires i < |es| && OnHold(es, i)
    ensures LinearHold(es, i + 1) || (AllNeutral(es, i + 1) && LinearHold(es, |es|))
  {
    var n := |es|;
    var d :| 0 <= d < n && es[Back(i, d, n)].op == OP_HOLD_MAC
             && forall c :: 0 <= c < d ==> !IsHoldOp(es[Back(i, c, n)]);
    var j := Back(i, d, n);
    BackIs(i, d, n);
    forall k | 0 <= k < n && (if d <= i then j < k <= i else j < k || k <= i)
      ensures !IsHoldOp(es[k])
    {
      var c := if k <= i then i - k else i - k + n;
      BackIs(i, c, n);
      assert !IsHoldOp(es[Back(i, c, n)]);
    }
    LinearHoldFrom(es, j, if d <= i then i + 1 else n);
  }

  /** The first loop of edgx_st_prepare_config writes row i like this. */
  function FirstPass(pt: Port, es: seq<Entry>, i: nat): Row
    requires pt.Valid() && i < |es|
  {
    RowOf(pt, States(pt, es[i].gates, LinearHold(es, i + 1)), CumTime(es, i + 1))
  }

  /** How many entries in front of the last one come before the first HOLD or RELEASE, from entry i on. */
  function Leading(es: seq<Entry>, i: nat): (n: nat)
    requires i < |es|
    ensures i + n < |es|
    decreases |es| - i
  {
    if i < |es| - 1 && !IsHoldOp(es[i]) then 1 + Leading(es, i + 1) else 0
  }

  /** Row transfers that a list takes: every row, the extra one, and again those that inherit a hold. */
  function Transfers(es: seq<Entry>): nat
    requires |es| > 0
  {
    |es| + 1 + if LinearHold(es, |es|) then Leading(es, 0) else 0
  }

  /** The first loop of edgx_st_prepare_config: every row of the list. */
  method WriteRows(pt: Port, table: array<Row>, es: seq<Entry>, budget: nat) returns (st: Status, hold: bool, time: u32)
    requires pt.Valid() && 0 < |es| < table.Length
    modifies table
    ensures st == if budget >= |es| then Ok else EBusy
    ensures st == Ok ==> hold == LinearHold(es, |es|) && time == CumTime(es, |es|)
    ensures st == Ok ==> forall k :: 0 <= k < |es| ==> table[k] == FirstPass(pt, es, k)
    ensures forall k :: |es| <= k < table.Length ==> table[k] == old(table[k])
  {
    CumTimeStart(es);
    hide CumTime, RowOf, States;
    hold := false;
    time := 0;
    var i := 0;
    while i < |es|
      invariant 0 <= i <= |es| && i <= budget
      invariant hold == LinearHold(es, i) && time == CumTime(es, i)
      invariant forall k :: 0 <= k < i ==> table[k] == FirstPass(pt, es, k)
      invariant forall k :: |es| <= k < table.Length ==> table[k] == old(table[k])
    {
      if es[i].op == OP_HOLD_MAC {
        hold := true;
      } else if es[i].op == OP_REL_MAC {
        hold := false;
      }
      CumTimeStep(es, i);
      time := (time + es[i].interval) % TWO32;
      if i == budget {
        return EBusy, hold, time;
      }
      table[i] := RowOf(pt, States(pt, es[i].gates, hold), time);
      i := i + 1;
    }
    st := Ok;
  }

  /** The second loop: the leading rows again if the list ends on hold. */
  method WriteLeading(pt: Port, table: array<Row>, es: seq<Entry>, budget: nat) returns (st: Status)
    requires pt.Valid() && 0 < |es| < table.Length && LinearHold(es, |es|)
    requires forall k :: 0 <= k < |es| ==> table[k] == FirstPass(pt, es, k)
    modifies table
    ensures st == if budget >= Leading(es, 0) then Ok else EBusy
    ensures st == Ok ==> IsEncoding(pt, es, table[..|es|])
    ensures forall k :: |es| <= k < table.Length ==> table[k] == old(table[k])
  {
    CumTimeStart(es);
    hide CumTime, RowOf, OnHold;
    var time: u32 := 0;
    var i := 0;
    while i < |es| - 1 && !IsHoldOp(es[i])
      invariant 0 <= i <= |es| - 1 && i <= budget
      invariant AllNeutral(es, i) && time == CumTime(es, i)
      invariant i + Leading(es, i) == Leading(es, 0)
      invariant forall k :: 0 <= k < i ==> table[k] == RowOf(pt, States(pt, es[k].gates, true), CumTime(es, k + 1))
      invariant forall k :: i <= k < |es| ==> table[k] == FirstPass(pt, es, k)
      invariant forall k :: |es| <= k < table.Length ==> table[k] == old(table[k])
    {
      CumTimeStep(es, i);
      time := (time + es[i].interval) % TWO32;
      if i == budget {
        return EBusy;
      }
      table[i] := RowOf(pt, States(pt, es[i].gates, true), time);
      i := i + 1;
    }
    SecondPassIsCyclic(es, i);
    st := Ok;
  }

  /** The row behind the list: the last gates again, without hold, at the same time. */
  function StopRow(pt: Port, es: seq<Entry>): Row
    requires pt.Valid() && |es| > 0
  {
    RowOf(pt, es[|es| - 1].gates, CumTime(es, |es|))
  }

  /** edgx_st_prepare_config on one hardware table. The transfer of a row may fail; `budget` is the
      number of transfers that succeed. Row |es| is the extra row on which the hardware stops. */
  method PrepareConfig(pt: Port, table: array<Row>, es: seq<Entry>, budget: nat) returns (st: Status)
    requires pt.Valid() && 0 < |es| < table.Length
    modifies table
    ensures st == if budget >= Transfers(es) then Ok else EBusy
    ensures st == Ok ==> IsEncoding(pt, es, table[..|es|])
    ensures st == Ok ==> table[|es|] == StopRow(pt, es)
    ensures forall i :: |es| < i < table.Length ==> table[i] == old(table[i])
  {
    hide CumTime, RowOf, OnHold, Leading;
    var hold, time;
    st, hold, time := WriteRows(pt, table, es, budget);
    if st != Ok {
      return;
    }
    if budget == |es| {
      return EBusy;
    }
    table[|es|] := RowOf(pt, es[|es| - 1].gates, time);
    if hold {
      st := WriteLeading(pt, table, es, budget - |es| - 1);
    } else {
      SecondPassIsCyclic(es, 0);
    }
  }

  lemma CumTimeStep(es: seq<Entry>, n: nat)
    requires n < |es|
    ensures CumTime(es, n + 1) == (CumTime(es, n) + es[n].interval) % TWO32
  {
  }

  lemma CumTimeStart(es: seq<Entry>)
    ensures CumTime(es, 0) == 0
  {
  }

  /** Where the second loop stops, the leading rows it rewrote are the ones that inherit the hold of the cycle end. */
  lemma SecondPassIsCyclic(es: seq<Entry>, m: nat)
    requires 0 < |es| && m <= |es| - 1
    requires LinearHold(es, |es|) ==> AllNeutral(es, m) && (m == |es| - 1 || IsHoldOp(es[m]))
    requires m > 0 ==> LinearHold(es, |es|)
    ensures forall k :: 0 <= k < |es| ==> (OnHold(es, k) <==> if k < m then true else LinearHold(es, k + 1))
  {
    forall k | 0 <= k < |es|
      ensures OnHold(es, k) <==> if k < m then true else LinearHold(es, k + 1)
    {
      CyclicHold(es, k);
      if m <= k && LinearHold(es, |es|) && AllNeutral(es, k + 1) {
        assert m == |es| - 1 == k;
        NeutralKeeps(es, |es|);
      }
    }
  }

  // ---------------------------------------------------------------- the decoder

  /** edgx_sched_read_entry: the time of a row in nanoseconds. */
  function RowTime(pt: Port, r: Row): u32
    requires pt.Valid()
  {
    r.cycles * pt.gran % TWO32
  }

  function OpName(hold: bool, newHold: bool): nat {
    if !hold && newHold then OP_HOLD_MAC else if hold && !newHold then OP_REL_MAC else OP_SET_GSTATES
  }

  /** What the decoder makes of row first + k when it starts reading at row `first`. */
  function Decoded(pt: Port, rows: seq<Row>, first: nat, k: nat): Entry
    requires pt.Valid() && first + k < |rows|
  {
    var i := first + k;
    Entry(Sub32(RowTime(pt, rows[i]), if i == 0 then 0 else RowTime(pt, rows[i - 1])),
          OpName(k > 0 && HoldOf(pt, rows[i - 1].states), HoldOf(pt, rows[i].states)),
          GatesOf(pt, rows[i].states))
  }

  /** A window of n rows, read in one go. */
  function Window(pt: Port, rows: seq<Row>, first: nat, n: nat): (w: seq<Entry>)
    requires pt.Valid() && first + n <= |rows|
  {
    seq(n, k requires 0 <= k < n => Decoded(pt, rows, first, k))
  }

  /** What the decoder makes of row first + k when its transfer fails: it goes on with the values of the
      row before, and with uninitialised ones (`junk`) where there was none. */
  function Stale(pt: Port, rows: seq<Row>, first: nat, k: nat, junkStates: nat, junkTime: u32): Entry
    requires pt.Valid() && first + k < |rows|
  {
    var i := first + k;
    var states := if i > 0 then rows[i - 1].states else junkStates;
    var prev := if i > 0 then RowTime(pt, rows[i - 1]) else 0;
    Entry(Sub32(if k > 0 then prev else junkTime, prev),
          OpName(k > 0 && HoldOf(pt, states), HoldOf(pt, states)),
          GatesOf(pt, states))
  }

  /** A failed transfer inside a window shows as a zero interval with the states of the entry before. */
  lemma StaleRepeats(pt: Port, rows: seq<Row>, first: nat, k: nat, junkStates: nat, junkTime: u32)
    requires pt.Valid() && 0 < k && first + k < |rows|
    ensures Stale(pt, rows, first, k, junkStates, junkTime)
            == Entry(0, OP_SET_GSTATES, Decoded(pt, rows, first, k - 1).gates)
  {
    hide HoldOf, GatesOf, RowTime;
  }

  /** What a read with n transfers leaves in entry k of the buffer. Right at the list end the buffer keeps
      what it held; past the end, and past a failed transfer, entries are marked undefined. */
  function ReadBack(pt: Port, rows: seq<Row>, first: nat, n: nat, k: nat, junkStates: nat, junkTime: u32, held: Entry): Entry
    requires pt.Valid()
  {
    if first + k < |rows| && k < n then Decoded(pt, rows, first, k)
    else if first + k < |rows| && k == n then Stale(pt, rows, first, k, junkStates, junkTime)
    else if first + k == |rows| && k <= n then held
    else UNDEF_ENTRY
  }

  /** edgx_st_get_oper_ctrl_list on the table in use. `budget` is the number of row transfers that succeed.
      A transfer that fails inside the window ends the list, and the read still reports success. */
  method GetOperCtrlList(pt: Port, table: array<Row>, listLen: nat, first: nat, out: array<Entry>, budget: nat,
                         junkStates: nat, junkTime: u32)
    returns (st: Status)
    requires pt.Valid() && listLen <= table.Length
    modifies out
    ensures st == if first > listLen then ENoEnt else if first > 0 && budget == 0 then EBusy else Ok
    ensures st != Ok ==> out[..] == old(out[..])
    ensures st == Ok ==>
              var n := if first > 0 then budget - 1 else budget;
              forall k :: 0 <= k < out.Length ==>
                out[k] == ReadBack(pt, table[..listLen], first, n, k, junkStates, junkTime, old(out[k]))
  {
    hide HoldOf, GatesOf, RowTime, OpName;
    ghost var rows := table[..listLen];
    var left := budget;
    var prev: u32 := 0;
    var states := junkStates;
    if first > 0 {
      if first - 1 >= listLen {
        return ENoEnt;
      }
      if left == 0 {
        return EBusy;
      }
      left := left - 1;
      states, prev := table[first - 1].states, RowTime(pt, table[first - 1]);
    }
    ghost var n := left;
    var time := junkTime;
    var hold := false;
    var more := true;
    var i := 0;
    while more && i < out.Length
      invariant 0 <= i <= out.Length
      invariant more ==> i <= n && left == n - i && first + i <= listLen
      invariant more ==> states == (if first + i == 0 then junkStates else table[first + i - 1].states)
      invariant more ==> prev == (if first + i == 0 then 0 else RowTime(pt, table[first + i - 1]))
      invariant more ==> time == (if i == 0 then junkTime else prev)
      invariant more ==> hold == (i > 0 && HoldOf(pt, states))
      invariant !more ==> first + i > listLen || i > n
      invariant forall k :: 0 <= k < i ==> out[k] == ReadBack(pt, rows, first, n, k, junkStates, junkTime, old(out[k]))
      invariant forall k :: i <= k < out.Length ==> out[k] == old(out[k])
    {
      if first + i >= listLen {
        more := false;
      } else {
        if left == 0 {
          more := false;
        } else {
          left := left - 1;
          states, time := table[first + i].states, RowTime(pt, table[first + i]);
        }
        var newHold := HoldOf(pt, states);
        out[i] := Entry(Sub32(time, prev), OpName(hold, newHold), GatesOf(pt, states));
        prev := time;
        hold := newHold;
      }
      i := i + 1;
    }
    while i < out.Length
      invariant 0 <= i <= out.Length
      invariant i < out.Length ==> first + i > listLen || i > n
      invariant forall k :: 0 <= k < i ==> out[k] == ReadBack(pt, rows, first, n, k, junkStates, junkTime, old(out[k]))
    {
      out[i] := UNDEF_ENTRY;
      i := i + 1;
    }
    st := Ok;
  }

  // ---------------------------------------------------------------- round trips

  /** edgx_sched_adjust_admin_tab: what a write that returned 0 has checked. */
  predicate Accepted(pt: Port, es: seq<Entry>)
    requires pt.Valid()
  {
    forall i :: 0 <= i < |es| ==> es[i].interval % pt.gran == 0 && InGranules(pt, es[i].interval) <= 0xffff
  }

  /** An interval in granules. */
  function InGranules(pt: Port, x: u32): nat
    requires pt.Valid()
  {
    QuotientBound(x, pt.gran);
    x / pt.gran
  }

  /** Sum of the first n intervals, in granules. */
  function Granules(pt: Port, es: seq<Entry>, n: nat): nat
    requires pt.Valid() && n <= |es|
  {
    if n == 0 then 0 else Granules(pt, es, n - 1) + InGranules(pt, es[n - 1].interval)
  }

  lemma {:induction false} GranulesMono(pt: Port, es: seq<Entry>, m: nat, n: nat)
    requires pt.Valid() && m <= n <= |es|
    ensures Granules(pt, es, m) <= Granules(pt, es, n)
    decreases n
  {
    if m < n {
      GranulesMono(pt, es, m, n - 1);
    }
  }

  lemma AcceptedIs(pt: Port, es: seq<Entry>, i: nat)
    requires pt.Valid() && Accepted(pt, es) && i < |es|
    ensures es[i].interval == InGranules(pt, es[i].interval) * pt.gran && InGranules(pt, es[i].interval) <= 65535
  {
  }

  lemma IntervalIs(pt: Port, es: seq<Entry>, i: nat)
    requires pt.Valid() && Accepted(pt, es) && i < |es|
    ensures Granules(pt, es, i + 1) * pt.gran == Granules(pt, es, i) * pt.gran + es[i].interval
  {
    hide InGranules, Accepted;
    AcceptedIs(pt, es, i);
    Distribute(1, Granules(pt, es, i), InGranules(pt, es[i].interval), pt.gran);
  }

  /** As long as the sum stays below 2^17 granules the u32 does not wrap. */
  lemma {:induction false} CumTimeIsGranules(pt: Port, es: seq<Entry>, n: nat)
    requires pt.Valid() && n <= |es| && Accepted(pt, es) && Granules(pt, es, n) <= 131070
    ensures CumTime(es, n) == Granules(pt, es, n) * pt.gran < TWO32
  {
    hide InGranules, Accepted;
    if n > 0 {
      CumTimeIsGranules(pt, es, n - 1);
      IntervalIs(pt, es, n - 1);
      MulLe(Granules(pt, es, n), pt.gran, 131070, 32767);
    }
  }

  /** The time read back from row i, while the sum is below 2^17 granules. */
  lemma RowTimeIs(pt: Port, es: seq<Entry>, rows: seq<Row>, i: nat)
    requires pt.Valid() && Accepted(pt, es) && IsEncoding(pt, es, rows)
    requires i < |es| && Granules(pt, es, i + 1) <= 131070
    ensures RowTime(pt, rows[i]) == Granules(pt, es, i + 1) % 65536 * pt.gran
  {
    hide OnHold, CumTime, Granules, Accepted;
    var g := Granules(pt, es, i + 1);
    CumTimeIsGranules(pt, es, i + 1);
    DivUnique(g * pt.gran, pt.gran, g);
    MulLe(g % 65536, pt.gran, 65535, 32767);
  }

  /** Up to 65535 granules a row carries the end of its entry, in granules from the cycle start. */
  lemma RowCycles(pt: Port, es: seq<Entry>, rows: seq<Row>, i: nat)
    requires pt.Valid() && Accepted(pt, es) && IsEncoding(pt, es, rows) && i < |es| && Granules(pt, es, |es|) <= 65535
    ensures |rows| == |es| && rows[i].cycles == Granules(pt, es, i + 1)
  {
    hide OnHold, CumTime, Granules, Accepted;
    var g := Granules(pt, es, i + 1);
    GranulesMono(pt, es, i + 1, |es|);
    CumTimeIsGranules(pt, es, i + 1);
    DivUnique(g * pt.gran, pt.gran, g);
  }

  /** The stop row keeps the gates of the last row at its time and releases the hold. */
  lemma StopRowBits(pt: Port, es: seq<Entry>, rows: seq<Row>, q: nat)
    requires pt.Valid() && Masked(pt, es) && IsEncoding(pt, es, rows) && |es| > 0
    ensures var stop := StopRow(pt, es);
            && stop.cycles == rows[|es| - 1].cycles && !BitSet(stop.states, pt.queues)
            && (q < pt.queues ==> (BitSet(stop.states, q) <==> BitSet(es[|es| - 1].gates, q)))
  {
    hide OnHold, BitSet, CumTime;
    StatesBits(pt, es[|es| - 1].gates, false, q);
  }

  /** The time at which entry i starts, as read back from the row before it. */
  function StartTime(pt: Port, rows: seq<Row>, i: nat): u32
    requires pt.Valid() && i <= |rows|
  {
    if i == 0 then 0 else RowTime(pt, rows[i - 1])
  }

  lemma StartTimeIs(pt: Port, es: seq<Entry>, rows: seq<Row>, i: nat)
    requires pt.Valid() && Accepted(pt, es) && IsEncoding(pt, es, rows)
    requires i <= |es| && Granules(pt, es, i) <= 131070
    ensures |rows| == |es| && StartTime(pt, rows, i) == Granules(pt, es, i) % 65536 * pt.gran
  {
    hide IsEncoding, Accepted, RowTime;
    EncodingLength(pt, es, rows);
    if i > 0 {
      RowTimeIs(pt, es, rows, i - 1);
    }
  }

  lemma EncodingLength(pt: Port, es: seq<Entry>, rows: seq<Row>)
    requires pt.Valid() && IsEncoding(pt, es, rows)
    ensures |rows| == |es|
  {
  }

  lemma DecodedParts(pt: Port, rows: seq<Row>, first: nat, k: nat)
    requires pt.Valid() && first + k < |rows|
    ensures Decoded(pt, rows, first, k).interval == Sub32(StartTime(pt, rows, first + k + 1), StartTime(pt, rows, first + k))
    ensures Decoded(pt, rows, first, k).gates == GatesOf(pt, rows[first + k].states)
  {
  }

  /** Every window inside the list returns the original intervals and gate states. */
  lemma WindowRoundTrip(pt: Port, es: seq<Entry>, rows: seq<Row>, first: nat, k: nat)
    requires pt.Valid() && Accepted(pt, es) && Masked(pt, es) && IsEncoding(pt, es, rows)
    requires Granules(pt, es, |es|) <= 65535 && first + k < |es|
    ensures |rows| == |es|
    ensures Decoded(pt, rows, first, k).interval == es[first + k].interval
    ensures Decoded(pt, rows, first, k).gates == es[first + k].gates
  {
    hide Accepted, IsEncoding, Granules, Decoded, StartTime, GatesOf, Masked;
    var i := first + k;
    GranulesMono(pt, es, i + 1, |es|);
    GranulesMono(pt, es, i, |es|);
    StartTimeIs(pt, es, rows, i);
    StartTimeIs(pt, es, rows, i + 1);
    IntervalIs(pt, es, i);
    DecodedParts(pt, rows, first, k);
    GatesRoundTrip(pt, es, rows, i);
  }

  lemma GatesRoundTrip(pt: Port, es: seq<Entry>, rows: seq<Row>, i: nat)
    requires pt.Valid() && Masked(pt, es) && IsEncoding(pt, es, rows) && i < |es|
    ensures GatesOf(pt, rows[i].states) == es[i].gates
    ensures HoldOf(pt, rows[i].states) <==> OnHold(es, i)
  {
    hide OnHold;
    StatesRoundTrip(pt, es[i].gates, OnHold(es, i));
  }

  /** What the rows of a list mean to the hardware, bit by bit: each gate as in the entry, and the hold of the
      cycle. */
  lemma RowBits(pt: Port, es: seq<Entry>, rows: seq<Row>, i: nat, q: nat)
    requires pt.Valid() && Masked(pt, es) && IsEncoding(pt, es, rows) && i < |es|
    ensures |rows| == |es|
    ensures q < pt.queues ==> (BitSet(rows[i].states, q) <==> BitSet(es[i].gates, q))
    ensures BitSet(rows[i].states, pt.queues) <==> OnHold(es, i)
  {
    hide OnHold, States, BitSet;
    StatesBits(pt, es[i].gates, OnHold(es, i), q);
  }

  lemma {:induction false} FirstOver(pt: Port, es: seq<Entry>, n: nat) returns (k: nat)
    requires pt.Valid() && n <= |es| && Granules(pt, es, n) > 65535
    ensures k < n && Granules(pt, es, k) <= 65535 < Granules(pt, es, k + 1)
  {
    if Granules(pt, es, n - 1) <= 65535 {
      k := n - 1;
    } else {
      k := FirstOver(pt, es, n - 1);
    }
  }

  /** The interval on which the 16-bit time of the rows first wraps is read back wrong. */
  lemma WrapLosesInterval(pt: Port, es: seq<Entry>, rows: seq<Row>, k: nat)
    requires pt.Valid() && Accepted(pt, es) && IsEncoding(pt, es, rows) && k < |es|
    requires Granules(pt, es, k) <= 65535 < Granules(pt, es, k + 1)
    ensures Decoded(pt, rows, 0, k).interval != es[k].interval
  {
    hide Accepted, IsEncoding, Granules, Decoded, StartTime, InGranules;
    var g, h := Granules(pt, es, k), Granules(pt, es, k + 1);
    AcceptedIs(pt, es, k);
    GranulesStep(pt, es, k);
    StartTimeIs(pt, es, rows, k);
    StartTimeIs(pt, es, rows, k + 1);
    DecodedParts(pt, rows, 0, k);
    WrappedDifference(pt.gran, g, h - g);
  }

  /** The difference of two row times of which the second has wrapped is not the interval between them. */
  lemma WrappedDifference(gran: nat, g: nat, d: nat)
    requires 0 < gran < 32768 && g <= 65535 < g + d && d <= 65535
    ensures var x, y := (g + d) % 65536 * gran, g * gran; x < TWO32 && y < TWO32 && Sub32(x, y) != d * gran
  {
    MulLe(g, gran, 65535, 32767);
    MulLe(g + d - 65536, gran, 65535, 32767);
    Distribute(1, d, -65536, gran);
    assert (g + d) % 65536 == g + d - 65536;
    Distribute(1, g, d - 65536, gran);
  }

  lemma GranulesStep(pt: Port, es: seq<Entry>, k: nat)
    requires pt.Valid() && k < |es|
    ensures Granules(pt, es, k + 1) == Granules(pt, es, k) + InGranules(pt, es[k].interval)
  {
  }

  /** An accepted list is read back with its own intervals exactly when it fits in 65535 granules. */
  lemma RoundTripIff(pt: Port, es: seq<Entry>, rows: seq<Row>)
    requires pt.Valid() && Accepted(pt, es) && Masked(pt, es) && IsEncoding(pt, es, rows)
    ensures (forall i :: 0 <= i < |es| ==> Decoded(pt, rows, 0, i).interval == es[i].interval)
            <==> Granules(pt, es, |es|) <= 65535
  {
    hide Decoded, Accepted, IsEncoding, Masked;
    EncodingLength(pt, es, rows);
    if Granules(pt, es, |es|) <= 65535 {
      forall i | 0 <= i < |es|
        ensures Decoded(pt, rows, 0, i).interval == es[i].interval
      {
        WindowRoundTrip(pt, es, rows, 0, i);
      }
    } else {
      var k := FirstOver(pt, es, |es|);
      WrapLosesInterval(pt, es, rows, k);
    }
  }

  /** Two intervals of 65535 granules are accepted, and the second one is read back wrong. */
  lemma TwoLongIntervals(pt: Port, rows: seq<Row>)
    requires pt.Valid()
    ensures var x: u32 := 65535 * pt.gran;
            var es := [Entry(x, OP_SET_GSTATES, 0), Entry(x, OP_SET_GSTATES, 0)];
            && Accepted(pt, es) && Granules(pt, es, 2) == 131070
            && (IsEncoding(pt, es, rows) ==> |rows| == 2 && Decoded(pt, rows, 0, 1).interval != x)
  {
    hide IsEncoding, Decoded, InGranules;
    var x: u32 := 65535 * pt.gran;
    var es := [Entry(x, OP_SET_GSTATES, 0), Entry(x, OP_SET_GSTATES, 0)];
    WholeGranules(pt, x);
    assert Granules(pt, es, 0) == 0 && Granules(pt, es, 1) == 65535 && Granules(pt, es, 2) == 131070;
    if IsEncoding(pt, es, rows) {
      EncodingLength(pt, es, rows);
      WrapLosesInterval(pt, es, rows, 1);
    }
  }

  lemma WholeGranules(pt: Port, x: u32)
    requires pt.Valid() && x == 65535 * pt.gran
    ensures x % pt.gran == 0 && InGranules(pt, x) == 65535
  {
    DivUnique(x, pt.gran, 65535);
  }

  /** Running the decoded operations of any window from its first row reproduces the hold bits. */
  lemma {:induction false} WindowHold(pt: Port, rows: seq<Row>, first: nat, n: nat, k: nat)
    requires pt.Valid() && first + n <= |rows| && k <= n
    ensures LinearHold(Window(pt, rows, first, n), k) <==> k > 0 && HoldOf(pt, rows[first + k - 1].states)
  {
    hide HoldOf, GatesOf, RowTime;
    if k > 0 {
      WindowHold(pt, rows, first, n, k - 1);
      assert Window(pt, rows, first, n)[k - 1] == Decoded(pt, rows, first, k - 1);
    }
  }

  /** The decoder's operation names say the same as the original list: folded linearly from the start
      of the window they give, entry by entry, the cyclic hold state. */
  lemma FoldReproducesHold(pt: Port, es: seq<Entry>, rows: seq<Row>, first: nat, n: nat, k: nat)
    requires pt.Valid() && Masked(pt, es) && IsEncoding(pt, es, rows)
    requires first + n <= |es| == |rows| && k < n
    ensures LinearHold(Window(pt, rows, first, n), k + 1) <==> OnHold(es, first + k)
  {
    hide OnHold, HoldOf, GatesOf;
    EncodingLength(pt, es, rows);
    WindowHold(pt, rows, first, n, k + 1);
    GatesRoundTrip(pt, es, rows, first + k);
  }

  /** Adjacent windows agree with one large window on intervals and gate states; they are the same
      list exactly when the row before the seam does not hold, since a read starts without hold. */
  lemma AdjacentWindows(pt: Port, rows: seq<Row>, first: nat, a: nat, b: nat)
    requires pt.Valid() && first + a + b <= |rows| && a > 0 && b > 0
    ensures var v, u := Window(pt, rows, first + a, b), Window(pt, rows, first, a + b);
            forall k :: 0 <= k < b ==> v[k].interval == u[a + k].interval && v[k].gates == u[a + k].gates
    ensures Window(pt, rows, first, a) + Window(pt, rows, first + a, b) == Window(pt, rows, first, a + b)
            <==> !HoldOf(pt, rows[first + a - 1].states)
  {
    hide HoldOf, GatesOf, RowTime;
    var w, v, u := Window(pt, rows, first, a), Window(pt, rows, first + a, b), Window(pt, rows, first, a + b);
    forall k | 0 <= k < b
      ensures v[k].interval == u[a + k].interval && v[k].gates == u[a + k].gates
      ensures k > 0 || !HoldOf(pt, rows[first + a - 1].states) ==> v[k] == u[a + k]
    {
      assert v[k] == Decoded(pt, rows, first + a, k) && u[a + k] == Decoded(pt, rows, first, a + k);
    }
    if HoldOf(pt, rows[first + a - 1].states) {
      assert v[0] != u[a];
      assert (w + v)[a] == v[0];
    } else {
      assert w + v == u;
    }
  }

  /** Writing an accepted list of at most 65535 granules and reading a window back, whatever the table
      and the buffer held before. */
  method WriteThenRead(pt: Port, es: seq<Entry>, tableLen: nat, row0: Row, first: nat, count: nat) returns (back: seq<Entry>)
    requires pt.Valid() && 0 < |es| < tableLen && Accepted(pt, es) && Masked(pt, es)
    requires Granules(pt, es, |es|) <= 65535 && first + count <= |es|
    ensures |back| == count
    ensures forall k :: 0 <= k < count ==> back[k].interval == es[first + k].interval && back[k].gates == es[first + k].gates
    ensures forall m :: 0 < m <= count ==> (LinearHold(back, m) <==> OnHold(es, first + m - 1))
  {
    hide Decoded, Accepted, IsEncoding, Masked, OnHold, Granules;
    var table := new Row[tableLen](_ => row0);
    var st := PrepareConfig(pt, table, es, 2 * |es| + 1);
    var out := new Entry[count](_ => UNDEF_ENTRY);
    st := GetOperCtrlList(pt, table, |es|, first, out, count + 1, 0, 0);
    back := out[..];
    ghost var rows := table[..|es|];
    EncodingLength(pt, es, rows);
    assert back == Window(pt, rows, first, count);
    forall k | 0 <= k < count
      ensures back[k].interval == es[first + k].interval && back[k].gates == es[first + k].gates
    {
      WindowRoundTrip(pt, es, rows, first, k);
    }
    forall m | 0 < m <= count
      ensures LinearHold(back, m) <==> OnHold(es, first + m - 1)
    {
      FoldReproducesHold(pt, es, rows, first, count, m - 1);
    }
  }

  /** The entries read are those of the list from entry `first` on. */
  predicate Reproduces(es: seq<Entry>, first: nat, back: seq<Entry>)
    requires first + |back| <= |es|
  {
    forall k :: 0 <= k < |back| ==> back[k].interval == es[first + k].interval && back[k].gates == es[first + k].gates
  }

  /** Reading a window of a written list while row transfers fail. The row before the window takes one
      transfer, each entry one more. A failure inside the window is not reported, so that a read which
      succeeds has returned the list exactly if all transfers have succeeded. A read of the first entry
      alone is made of uninitialised values when its only transfer fails, and says nothing. */
  method ReadWhileFailing(pt: Port, es: seq<Entry>, tableLen: nat, row0: Row, first: nat, count: nat, budget: nat,
                          junkStates: nat, junkTime: u32)
    returns (st: Status, back: seq<Entry>)
    requires pt.Valid() && 0 < |es| < tableLen && Accepted(pt, es) && Masked(pt, es)
    requires Granules(pt, es, |es|) <= 65535 && first + count <= |es|
    requires forall i :: first <= i < first + count ==> es[i].interval > 0
    ensures |back| == count && st == if first > 0 && budget == 0 then EBusy else Ok
    ensures var lead := if first > 0 then 1 else 0;
            st == Ok && (count != 1 || budget > lead) ==> (Reproduces(es, first, back) <==> budget >= lead + count)
  {
    hide Decoded, Stale, Accepted, IsEncoding, Masked, OnHold, Granules;
    var table := new Row[tableLen](_ => row0);
    st := PrepareConfig(pt, table, es, 2 * |es| + 1);
    var out := new Entry[count](_ => UNDEF_ENTRY);
    ghost var rows := table[..|es|];
    EncodingLength(pt, es, rows);
    st := GetOperCtrlList(pt, table, |es|, first, out, budget, junkStates, junkTime);
    back := out[..];
    if st == Ok {
      var n := if first > 0 then budget - 1 else budget;
      forall k | 0 <= k < count && k < n
        ensures back[k].interval == es[first + k].interval && back[k].gates == es[first + k].gates
      {
        WindowRoundTrip(pt, es, rows, first, k);
      }
      if 0 < n < count {
        StaleRepeats(pt, rows, first, n, junkStates, junkTime);
        assert back[n].interval == 0;
      } else if n == 0 && count > 1 {
        assert back[1] == UNDEF_ENTRY;
      }
    }
  }
}
