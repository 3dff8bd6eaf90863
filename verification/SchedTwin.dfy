/**
 * The older scheduler: rows hold intervals instead of times from cycle start,
 * and the hold bits are written by a loop of its own. Both drivers put the
 * same schedule into the hardware.
 */
module SchedTwin {
  import opened Arith
  import opened Common
  import opened SchedList

  /** Every row holds its entry's own interval in clock ticks, 16 bits of it, and the cyclic hold bit. */
  ghost predicate IsIntervalEncoding(pt: Port, es: seq<Entry>, rows: seq<Row>)
    requires pt.Valid()
  {
    && |rows| == |es|
    && forall i :: 0 <= i < |es| ==> rows[i] == RowOf(pt, States(pt, es[i].gates, OnHold(es, i)), es[i].interval)
  }

  /** The first loop writes row i like this. */
  function FirstRow(pt: Port, es: seq<Entry>, i: nat): Row
    requires pt.Valid() && i < |es|
  {
    RowOf(pt, States(pt, es[i].gates, LinearHold(es, i + 1)), es[i].interval)
  }

  /** The loops of the older edgx_sched_config_change. Its second loop may run over the whole list. */
  method WriteIntervals(pt: Port, table: array<Row>, es: seq<Entry>, budget: nat) returns (st: Status)
    requires pt.Valid() && 0 < |es| < table.Length
    modifies table
    ensures st == Ok || st == EBusy
    ensures st == Ok ==> IsIntervalEncoding(pt, es, table[..|es|])
    ensures st == Ok ==> table[|es|] == Row(es[|es| - 1].gates, 0)
    ensures forall i :: |es| < i < table.Length ==> table[i] == old(table[i])
    ensures budget >= 2 * |es| + 1 ==> st == Ok
  {
    hide RowOf, OnHold;
    var left := budget;
    var hold := false;
    var i := 0;
    while i < |es|
      invariant 0 <= i <= |es| && left == budget - i
      invariant hold == LinearHold(es, i)
      invariant forall k :: 0 <= k < i ==> table[k] == FirstRow(pt, es, k)
      invariant forall k :: |es| < k < table.Length ==> table[k] == old(table[k])
    {
      if es[i].op == OP_HOLD_MAC {
        hold := true;
      } else if es[i].op == OP_REL_MAC {
        hold := false;
      }
      if left == 0 {
        return EBusy;
      }
      left := left - 1;
      table[i] := RowOf(pt, States(pt, es[i].gates, hold), es[i].interval);
      i := i + 1;
    }
    if left == 0 {
      return EBusy;
    }
    left := left - 1;
    table[i] := Row(es[i - 1].gates, 0);
    i := 0;
    while hold && i < |es| && !IsHoldOp(es[i])
      invariant 0 <= i <= |es| && left == budget - |es| - 1 - i
      invariant hold ==> AllNeutral(es, i)
      invariant hold == LinearHold(es, |es|)
      invariant i > 0 ==> hold
      invariant forall k :: 0 <= k < i ==> table[k] == RowOf(pt, States(pt, es[k].gates, true), es[k].interval)
      invariant forall k :: i <= k < |es| ==> table[k] == FirstRow(pt, es, k)
      invariant table[|es|] == Row(es[|es| - 1].gates, 0)
      invariant forall k :: |es| < k < table.Length ==> table[k] == old(table[k])
    {
      if left == 0 {
        return EBusy;
      }
      left := left - 1;
      table[i] := RowOf(pt, States(pt, es[i].gates, hold), es[i].interval);
      i := i + 1;
    }
    StopIsCyclic(es, i);
    st := Ok;
  }

  /** Where the second loop stops, exactly the rows before it have inherited the hold of the cycle end. */
  lemma StopIsCyclic(es: seq<Entry>, m: nat)
    requires 0 < |es| && m <= |es|
    requires LinearHold(es, |es|) ==> AllNeutral(es, m) && (m == |es| || IsHoldOp(es[m]))
    requires m > 0 ==> LinearHold(es, |es|)
    ensures forall k :: 0 <= k < |es| ==> (OnHold(es, k) <==> if k < m then true else LinearHold(es, k + 1))
  {
    forall k | 0 <= k < |es|
      ensures OnHold(es, k) <==> if k < m then true else LinearHold(es, k + 1)
    {
      CyclicHold(es, k);
    }
  }

  /** For an accepted list of at most 65535 granules the two drivers' tables describe the same schedule:
      the same gate and hold bits, and times from cycle start that are the sums of the intervals. */
  lemma SameSchedule(pt: Port, es: seq<Entry>, older: seq<Row>, newer: seq<Row>, i: nat)
    requires pt.Valid() && Accepted(pt, es) && Granules(pt, es, |es|) <= 65535
    requires IsIntervalEncoding(pt, es, older) && IsEncoding(pt, es, newer) && i < |es|
    ensures |older| == |newer| == |es|
    ensures older[i].states == newer[i].states
    ensures newer[i].cycles == (if i == 0 then 0 else newer[i - 1].cycles) + older[i].cycles
  {
    hide OnHold, Accepted, Granules, InGranules;
    AcceptedIs(pt, es, i);
    GranulesStep(pt, es, i);
    RowIs(pt, es, newer, i);
    if i > 0 {
      RowIs(pt, es, newer, i - 1);
    } else {
      NoGranules(pt, es);
    }
    TicksOf(pt, es[i].interval);
  }

  lemma NoGranules(pt: Port, es: seq<Entry>)
    requires pt.Valid()
    ensures Granules(pt, es, 0) == 0
  {
  }

  lemma TicksOf(pt: Port, x: u32)
    requires pt.Valid() && InGranules(pt, x) <= 65535
    ensures x / pt.gran % 65536 == InGranules(pt, x)
  {
  }

  lemma RowIs(pt: Port, es: seq<Entry>, rows: seq<Row>, i: nat)
    requires pt.Valid() && Accepted(pt, es) && IsEncoding(pt, es, rows) && i < |es| == |rows|
    requires Granules(pt, es, |es|) <= 65535
    ensures rows[i].cycles == Granules(pt, es, i + 1)
  {
    hide OnHold, Accepted, Granules, InGranules;
    GranulesMono(pt, es, i + 1, |es|);
    CumTimeIsGranules(pt, es, i + 1);
    DivUnique(Granules(pt, es, i + 1) * pt.gran, pt.gran, Granules(pt, es, i + 1));
  }
}
