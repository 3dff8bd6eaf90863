/**
 * The VLAN tables as the driver keeps them: VLAN slots, FIDs with their list
 * of slots, spanning tree instances with their list of FIDs, and the hardware
 * membership table. There are as many FIDs as VLAN slots.
 */
module VlanAlloc {
  import opened Common
  import opened VlanSpec

  // ---------------------------------------------------------------- the two levels of lists

  function Backs(slots: seq<Vlan>): (r: seq<Option<nat>>)
    ensures |r| == |slots| && forall i :: 0 <= i < |r| ==> r[i] == slots[i].fid
  {
    seq(|slots|, i requires 0 <= i < |slots| => slots[i].fid)
  }

  function Lists(fids: seq<Fid>): (r: seq<seq<nat>>)
    ensures |r| == |fids| && forall i :: 0 <= i < |r| ==> r[i] == fids[i].vlanlist
  {
    seq(|fids|, i requires 0 <= i < |fids| => fids[i].vlanlist)
  }

  function Tops(fids: seq<Fid>): (r: seq<Option<nat>>)
    ensures |r| == |fids| && forall i :: 0 <= i < |r| ==> r[i] == fids[i].msti
  {
    seq(|fids|, i requires 0 <= i < |fids| => fids[i].msti)
  }

  function FidLists(mstis: seq<Msti>): (r: seq<seq<nat>>)
    ensures |r| == |mstis| && forall i :: 0 <= i < |r| ==> r[i] == mstis[i].fidlist
  {
    seq(|mstis|, i requires 0 <= i < |mstis| => mstis[i].fidlist)
  }

  /** Slots in use have distinct VIDs, `slotOf` finds them; a free slot is on no list and has no port. */
  ghost predicate SlotsOk(slots: seq<Vlan>, slotOf: map<nat, nat>) {
    && (forall i :: 0 <= i < |slots| ==> SlotOk(slots[i], i, slotOf))
    && (forall v :: v in slotOf ==> v != INVALID_VID && slotOf[v] < |slots| && slots[slotOf[v]].vid == v)
  }

  ghost predicate SlotOk(s: Vlan, i: int, slotOf: map<nat, nat>) {
    if s.vid == INVALID_VID then s == Vlan(INVALID_VID, None, {})
    else s.vid < N_VID && s.vid in slotOf && slotOf[s.vid] == i && s.fid.Some? && exists p :: p in s.ports
  }

  predicate Defined(slots: seq<Vlan>, slotOf: map<nat, nat>) {
    forall v :: v in slotOf ==> slotOf[v] < |slots| && slots[slotOf[v]].fid.Some?
  }

  /** The VIDs in use, as the slots have them. */
  function View(slots: seq<Vlan>, slotOf: map<nat, nat>): (r: map<nat, Member>)
    requires Defined(slots, slotOf)
    ensures r.Keys == slotOf.Keys
  {
    map v | v in slotOf :: Member(slots[slotOf[v]].ports, slots[slotOf[v]].fid.value)
  }

  lemma ViewDefined(slots: seq<Vlan>, slotOf: map<nat, nat>)
    requires SlotsOk(slots, slotOf)
    ensures Defined(slots, slotOf)
  {
    forall v | v in slotOf
      ensures slots[slotOf[v]].fid.Some?
    {
      assert SlotOk(slots[slotOf[v]], slotOf[v], slotOf);
    }
  }

  /** One slot changes. */
  lemma SlotChanged(slots: seq<Vlan>, slotOf: map<nat, nat>, i: nat, s: Vlan, slotOf': map<nat, nat>)
    requires SlotsOk(slots, slotOf) && i < |slots|
    requires slotOf' == if s.vid == INVALID_VID then slotOf - {slots[i].vid} else slotOf[s.vid := i]
    requires SlotOk(s, i, slotOf')
    requires s.vid == INVALID_VID || s.vid == slots[i].vid || (slots[i].vid == INVALID_VID && s.vid !in slotOf)
    ensures SlotsOk(slots[i := s], slotOf')
  {
    var next := slots[i := s];
    assert SlotOk(slots[i], i, slotOf);
    forall j | 0 <= j < |next|
      ensures SlotOk(next[j], j, slotOf')
    {
      assert SlotOk(slots[j], j, slotOf);
    }
  }

  /** Trees that exist have distinct ids, `treeAt` finds them, and every FID is on one of them. */
  ghost predicate TreesOk(tops: seq<Option<nat>>, mstis: seq<Msti>, treeAt: map<nat, nat>) {
    && |mstis| >= 2 && mstis[CIST_IDX].mstid == CIST_MSTID && mstis[TE_IDX].mstid == TE_MSTID
    && Partitioned(tops, FidLists(mstis))
    && (forall k :: 0 <= k < |mstis| && mstis[k].mstid != INVALID_MSTID ==>
          mstis[k].mstid in treeAt && treeAt[mstis[k].mstid] == k)
    && (forall t :: t in treeAt ==> t != INVALID_MSTID && treeAt[t] < |mstis| && mstis[treeAt[t]].mstid == t)
    && (forall f :: 0 <= f < |tops| ==>
          tops[f].Some? && tops[f].value < |mstis| && mstis[tops[f].value].mstid != INVALID_MSTID)
  }

  /** The tree id of every FID. */
  function TreeIds(tops: seq<Option<nat>>, mstis: seq<Msti>): (r: seq<nat>)
    requires forall f :: 0 <= f < |tops| ==> tops[f].Some? && tops[f].value < |mstis|
    ensures |r| == |tops| && forall f :: 0 <= f < |r| ==> r[f] == mstis[tops[f].value].mstid
  {
    seq(|tops|, f requires 0 <= f < |tops| => mstis[tops[f].value].mstid)
  }

  /** A tree list is empty exactly when no FID has its id. */
  lemma EmptyTree(tops: seq<Option<nat>>, mstis: seq<Msti>, treeAt: map<nat, nat>, k: nat)
    requires TreesOk(tops, mstis, treeAt) && k < |mstis| && mstis[k].mstid != INVALID_MSTID
    ensures mstis[k].fidlist == [] <==> mstis[k].mstid !in TreeIds(tops, mstis)
  {
    var lists := FidLists(mstis);
    if lists[k] != [] {
      var f := lists[k][0];
      assert f in lists[k];
      assert TreeIds(tops, mstis)[f] == mstis[k].mstid;
    }
    if f :| 0 <= f < |tops| && TreeIds(tops, mstis)[f] == mstis[k].mstid {
      assert f in lists[tops[f].value];
    }
  }

  /** A FID list is empty exactly when no VID uses the FID. */
  lemma EmptyFid(slots: seq<Vlan>, lists: seq<seq<nat>>, slotOf: map<nat, nat>, f: nat)
    requires SlotsOk(slots, slotOf) && Partitioned(Backs(slots), lists) && f < |lists|
    requires Defined(slots, slotOf)
    ensures lists[f] == [] <==> f !in UsedFids(View(slots, slotOf))
  {
    var view := View(slots, slotOf);
    if lists[f] != [] {
      var i := lists[f][0];
      assert i in lists[f];
      assert Backs(slots)[i] == Some(f);
      assert SlotOk(slots[i], i, slotOf);
      var v := slots[i].vid;
      assert view[v].fid == f;
    }
    if f in UsedFids(view) {
      var v :| v in view && view[v].fid == f;
      assert Backs(slots)[slotOf[v]] == Some(f);
    }
  }

  /** A slot is free exactly when fewer VIDs than slots are in use. */
  lemma FreeSlot(slots: seq<Vlan>, slotOf: map<nat, nat>)
    requires SlotsOk(slots, slotOf)
    ensures |slotOf| <= |slots|
    ensures |slotOf| < |slots| <==> exists i :: 0 <= i < |slots| && slots[i].vid == INVALID_VID
  {
    hide SlotOk;
    if |slotOf| < |slots| {
      var i := OneMissed(slotOf, |slots|);
      assert SlotOk(slots[i], i, slotOf);
      assert slots[i].vid == INVALID_VID by { Missed(slots[i], i, slotOf); }
    }
    forall v | v in slotOf ensures slots[slotOf[v]].vid == v {
    }
    Injective(slotOf, |slots|);
    if i :| 0 <= i < |slots| && slots[i].vid == INVALID_VID {
      assert forall v :: v in slotOf ==> slotOf[v] != i;
      InjectiveMissing(slotOf, |slots|, i);
    }
  }

  lemma Missed(s: Vlan, i: nat, slotOf: map<nat, nat>)
    requires SlotOk(s, i, slotOf) && i !in slotOf.Values
    ensures s.vid == INVALID_VID
  {
  }

  /** An injective map into the numbers below n has at most n keys ... */
  lemma {:induction false} Injective(f: map<nat, nat>, n: nat)
    requires forall x :: x in f ==> f[x] < n
    requires forall x, y :: x in f && y in f && f[x] == f[y] ==> x == y
    ensures |f| <= n
  {
    if f != map[] {
      if y :| y in f && f[y] == n - 1 {
        var h := f - {y};
        assert h.Keys == f.Keys - {y};
        assert |h| == |h.Keys| && |f| == |f.Keys|;
        Injective(h, n - 1);
      } else {
        Injective(f, n - 1);
      }
    }
  }

  /** ... and fewer if it misses one of them. */
  lemma InjectiveMissing(f: map<nat, nat>, n: nat, i: nat)
    requires i < n && forall x :: x in f ==> f[x] < n && f[x] != i
    requires forall x, y :: x in f && y in f && f[x] == f[y] ==> x == y
    ensures |f| < n
  {
    var g := map x | x in f :: if f[x] == n - 1 then i else f[x];
    assert g.Keys == f.Keys;
    assert |g| == |g.Keys| && |f| == |f.Keys|;
    Injective(g, n - 1);
  }

  /** A tree slot is free exactly when fewer trees than slots exist. */
  lemma FreeTree(tops: seq<Option<nat>>, mstis: seq<Msti>, treeAt: map<nat, nat>)
    requires TreesOk(tops, mstis, treeAt)
    ensures |treeAt| <= |mstis|
    ensures |treeAt| < |mstis| <==> exists k :: 0 <= k < |mstis| && mstis[k].mstid == INVALID_MSTID
  {
    hide Partitioned;
    if |treeAt| < |mstis| {
      var k := OneMissed(treeAt, |mstis|);
      assert mstis[k].mstid == INVALID_MSTID;
    }
    Injective(treeAt, |mstis|);
    if k :| 0 <= k < |mstis| && mstis[k].mstid == INVALID_MSTID {
      InjectiveMissing(treeAt, |mstis|, k);
    }
  }

  // ---------------------------------------------------------------- what a change of one slot or tree means

  /** A slot in use gets other ports or another FID. */
  lemma Updated(slots: seq<Vlan>, lists: seq<seq<nat>>, slotOf: map<nat, nat>, i: nat, s: Vlan, lists': seq<seq<nat>>)
    requires SlotsOk(slots, slotOf) && Partitioned(Backs(slots), lists) && i < |slots|
    requires slots[i].vid != INVALID_VID && s.vid == slots[i].vid && s.fid.Some? && exists p :: p in s.ports
    requires slots[i].fid.Some? ==> slots[i].fid.value < |lists|
    requires s.fid.value < |lists| && lists' == MoveTo(lists, slots[i].fid, s.fid.value, i)
    ensures SlotsOk(slots[i := s], slotOf) && Partitioned(Backs(slots[i := s]), lists')
    ensures Defined(slots, slotOf) && Defined(slots[i := s], slotOf)
    ensures s.vid in slotOf
    ensures View(slots[i := s], slotOf) == View(slots, slotOf)[s.vid := Member(s.ports, s.fid.value)]
  {
    hide Partitioned, MoveTo;
    ViewDefined(slots, slotOf);
    assert SlotOk(slots[i], i, slotOf);
    assert slotOf[s.vid := i] == slotOf;
    SlotChanged(slots, slotOf, i, s, slotOf);
    ViewDefined(slots[i := s], slotOf);
    assert Backs(slots)[i := s.fid] == Backs(slots[i := s]);
    AfterMove(Backs(slots), lists, i, s.fid.value);
    assert View(slots[i := s], slotOf) == View(slots, slotOf)[s.vid := Member(s.ports, s.fid.value)];
  }

  /** A free slot is taken for a new VID. */
  lemma Taken(slots: seq<Vlan>, lists: seq<seq<nat>>, slotOf: map<nat, nat>, i: nat, s: Vlan, lists': seq<seq<nat>>)
    requires SlotsOk(slots, slotOf) && Partitioned(Backs(slots), lists) && i < |slots|
    requires slots[i].vid == INVALID_VID && 0 < s.vid < N_VID && s.vid !in slotOf && s.fid.Some? && exists p :: p in s.ports
    requires s.fid.value < |lists| && lists' == MoveTo(lists, None, s.fid.value, i)
    ensures SlotsOk(slots[i := s], slotOf[s.vid := i]) && Partitioned(Backs(slots[i := s]), lists')
    ensures Defined(slots, slotOf) && Defined(slots[i := s], slotOf[s.vid := i])
    ensures View(slots[i := s], slotOf[s.vid := i]) == View(slots, slotOf)[s.vid := Member(s.ports, s.fid.value)]
    ensures |slotOf[s.vid := i]| == |slotOf| + 1
  {
    hide Partitioned, MoveTo;
    ViewDefined(slots, slotOf);
    var next := slotOf[s.vid := i];
    assert SlotOk(slots[i], i, slotOf);
    SlotChanged(slots, slotOf, i, s, next);
    ViewDefined(slots[i := s], next);
    assert Backs(slots)[i := s.fid] == Backs(slots[i := s]);
    AfterMove(Backs(slots), lists, i, s.fid.value);
    forall v | v in slotOf ensures slotOf[v] != i {
    }
    assert View(slots[i := s], next) == View(slots, slotOf)[s.vid := Member(s.ports, s.fid.value)];
  }

  /** A slot is given up. */
  lemma Freed(slots: seq<Vlan>, lists: seq<seq<nat>>, slotOf: map<nat, nat>, i: nat, lists': seq<seq<nat>>)
    requires SlotsOk(slots, slotOf) && Partitioned(Backs(slots), lists) && i < |slots| && slots[i].vid != INVALID_VID
    requires slots[i].fid.Some? ==> slots[i].fid.value < |lists|
    requires lists' == Unlinked(lists, slots[i].fid, i)
    ensures var next, s, w := slotOf - {slots[i].vid}, slots[i := Vlan(INVALID_VID, None, {})], slots[i].vid;
            && SlotsOk(s, next) && Partitioned(Backs(s), lists')
            && Defined(slots, slotOf) && Defined(s, next)
            && View(s, next) == View(slots, slotOf) - {w}
            && |slotOf| == |next| + 1
  {
    hide Partitioned, Unlinked;
    ViewDefined(slots, slotOf);
    var v := slots[i].vid;
    var s := Vlan(INVALID_VID, None, {});
    var next := slotOf - {v};
    assert SlotOk(slots[i], i, slotOf);
    SlotChanged(slots, slotOf, i, s, next);
    ViewDefined(slots[i := s], next);
    assert Backs(slots)[i := None] == Backs(slots[i := s]);
    AfterUnlink(Backs(slots), lists, i);
    assert View(slots[i := s], next) == View(slots, slotOf) - {v};
    assert |slotOf| == |slotOf.Keys| && |next| == |next.Keys|;
    assert next.Keys == slotOf.Keys - {v};
  }

  /** A FID moves to another tree: what holds is kept exactly if that tree exists. */
  lemma TreeMoved(tops: seq<Option<nat>>, mstis: seq<Msti>, treeAt: map<nat, nat>, f: nat, k: nat, mstis': seq<Msti>)
    requires TreesOk(tops, mstis, treeAt) && f < |tops| && k < |mstis| && |mstis'| == |mstis|
    requires forall j :: 0 <= j < |mstis| ==> mstis'[j].mstid == mstis[j].mstid
    requires tops[f].Some? ==> tops[f].value < |mstis|
    requires FidLists(mstis') == MoveTo(FidLists(mstis), tops[f], k, f)
    ensures mstis[k].mstid == INVALID_MSTID ==> !TreesOk(tops[f := Some(k)], mstis', treeAt)
    ensures mstis[k].mstid != INVALID_MSTID ==>
              && TreesOk(tops[f := Some(k)], mstis', treeAt)
              && TreeIds(tops[f := Some(k)], mstis') == TreeIds(tops, mstis)[f := mstis[k].mstid]
  {
    hide Partitioned, MoveTo;
    AfterMove(tops, FidLists(mstis), f, k);
    if mstis[k].mstid == INVALID_MSTID {
      assert tops[f := Some(k)][f].Some?;
    }
  }

  /** A free tree slot gets an id, or a tree without FIDs is given up. */
  lemma TreeSet(tops: seq<Option<nat>>, mstis: seq<Msti>, treeAt: map<nat, nat>, k: nat, mstid: nat, treeAt': map<nat, nat>)
    requires TreesOk(tops, mstis, treeAt) && 1 < k < |mstis|
    requires if mstid == INVALID_MSTID
               then mstis[k].mstid != INVALID_MSTID && mstis[k].fidlist == [] && treeAt' == treeAt - {mstis[k].mstid}
               else mstis[k].mstid == INVALID_MSTID && mstid !in treeAt && treeAt' == treeAt[mstid := k]
    ensures TreesOk(tops, mstis[k := mstis[k].(mstid := mstid)], treeAt')
    ensures TreeIds(tops, mstis[k := mstis[k].(mstid := mstid)]) == TreeIds(tops, mstis)
  {
    var next := mstis[k := mstis[k].(mstid := mstid)];
    assert FidLists(next) == FidLists(mstis);
    forall f | 0 <= f < |tops|
      ensures tops[f].value != k
    {
      assert f in FidLists(mstis)[tops[f].value];
    }
  }

  /** The first empty FID list is that of the lowest FID without VIDs. */
  lemma FirstEmptyIsFresh(slots: seq<Vlan>, lists: seq<seq<nat>>, slotOf: map<nat, nat>, f: nat)
    requires SlotsOk(slots, slotOf) && Partitioned(Backs(slots), lists) && f < |lists|
    requires lists[f] == [] && forall g :: 0 <= g < f ==> lists[g] != []
    requires Defined(slots, slotOf)
    ensures f == FirstUnused(UsedFids(View(slots, slotOf)), 0, |lists|)
  {
    hide SlotsOk, Partitioned, UsedFids, FirstUnused, View;
    forall g | 0 <= g < |lists|
      ensures lists[g] == [] <==> g !in UsedFids(View(slots, slotOf))
    {
      EmptyFid(slots, lists, slotOf, g);
    }
    var u := FirstUnused(UsedFids(View(slots, slotOf)), 0, |lists|);
    assert u < |lists| ==> lists[u] == [];
    assert f !in UsedFids(View(slots, slotOf));
  }

  // ---------------------------------------------------------------- the tables as a value

  datatype Tables = Tables(slots: seq<Vlan>, fids: seq<Fid>, mstis: seq<Msti>, slotOf: map<nat, nat>, treeAt: map<nat, nat>)

  ghost predicate Sound(t: Tables) {
    && |t.fids| == |t.slots|
    && SlotsOk(t.slots, t.slotOf)
    && Partitioned(Backs(t.slots), Lists(t.fids))
    && TreesOk(Tops(t.fids), t.mstis, t.treeAt)
  }

  /** What is allocated. */
  ghost function AbsOf(t: Tables): Alloc
    requires Sound(t)
  {
    ViewDefined(t.slots, t.slotOf);
    Alloc(View(t.slots, t.slotOf), TreeIds(Tops(t.fids), t.mstis), t.treeAt.Keys, |t.mstis|)
  }

  /** The hardware forwards a VID exactly to the member ports, in the VID's FID. */
  ghost predicate HwAgrees(hwPorts: seq<set<nat>>, hwFid: seq<nat>, vlans: map<nat, Member>) {
    && |hwPorts| == |hwFid| == N_VID
    && forall v :: 0 <= v < N_VID ==>
         && hwPorts[v] == (if v in vlans then vlans[v].ports else {})
         && (v in vlans ==> hwFid[v] == vlans[v].fid % FID_FIELD)
  }

  /** The hardware keeps agreeing when one VID changes in step with its hardware row. */
  lemma HwRow(ports: seq<set<nat>>, fids: seq<nat>, vlans: map<nat, Member>, v: nat,
              ports': seq<set<nat>>, fids': seq<nat>, vlans': map<nat, Member>)
    requires HwAgrees(ports, fids, vlans) && v < N_VID
    requires |fids'| == |fids| && forall w :: 0 <= w < |fids| && w != v ==> fids'[w] == fids[w]
    requires v in vlans' ==> v < |fids'| && fids'[v] == vlans'[v].fid % FID_FIELD
    requires ports' == ports[v := if v in vlans' then vlans'[v].ports else {}]
    requires vlans' - {v} == vlans - {v}
    ensures HwAgrees(ports', fids', vlans')
  {
    forall w | 0 <= w < N_VID && w != v
      ensures (w in vlans' <==> w in vlans) && (w in vlans ==> vlans'[w] == vlans[w])
    {
      assert w in vlans' <==> w in vlans' - {v};
      assert w in vlans <==> w in vlans - {v};
      assert w in vlans ==> (vlans - {v})[w] == (vlans' - {v})[w];
    }
  }

  lemma HwSame(ports: seq<set<nat>>, fids: seq<nat>, vlans: map<nat, Member>, v: nat)
    requires HwAgrees(ports, fids, vlans) && v < N_VID
    ensures ports[v := if v in vlans then vlans[v].ports else {}] == ports
    ensures |fids| == N_VID && (v in vlans ==> fids[v] == vlans[v].fid % FID_FIELD)
  {
  }

  /** A slot that a search for a VID may find. */
  lemma Found(t: Tables, i: nat)
    requires Sound(t) && i < |t.slots|
    ensures |t.slotOf| <= |t.slots|
    ensures t.slots[i].fid.Some? ==> t.slots[i].fid.value < |t.fids|
    ensures t.slots[i].vid == INVALID_VID ==> t.slots[i] == Vlan(INVALID_VID, None, {}) && |t.slotOf| < |t.slots|
    ensures t.slots[i].vid != INVALID_VID ==>
              && t.slots[i].vid < N_VID && t.slots[i].vid in t.slotOf
              && t.slots[i].fid.Some?
              && t.slots[i].vid in AbsOf(t).vlans
              && AbsOf(t).vlans[t.slots[i].vid] == Member(t.slots[i].ports, t.slots[i].fid.value)
              && exists p :: p in t.slots[i].ports
  {
    FreeSlot(t.slots, t.slotOf);
    ViewDefined(t.slots, t.slotOf);
    assert SlotOk(t.slots[i], i, t.slotOf);
    assert Backs(t.slots)[i] == t.slots[i].fid;
  }

  /** What it means that a search finds nothing. */
  lemma NotFound(t: Tables, v: nat)
    requires Sound(t) && forall i :: 0 <= i < |t.slots| ==> t.slots[i].vid != v
    ensures v !in t.slotOf
    ensures v == INVALID_VID ==> |t.slotOf| == |t.slots|
  {
    FreeSlot(t.slots, t.slotOf);
  }

  lemma AbsShape(t: Tables)
    requires Sound(t)
    ensures |AbsOf(t).vlans| == |t.slotOf| && AbsOf(t).vlans.Keys == t.slotOf.Keys
    ensures |AbsOf(t).tree| == |t.slots|
    ensures AbsOf(t).trees == t.treeAt.Keys && |AbsOf(t).trees| == |t.treeAt| && AbsOf(t).maxTrees == |t.mstis|
  {
    ViewDefined(t.slots, t.slotOf);
    assert |AbsOf(t).vlans| == |AbsOf(t).vlans.Keys| && |t.slotOf| == |t.slotOf.Keys|;
    assert |t.treeAt| == |t.treeAt.Keys|;
  }

  /** A slot on a list without a VID: the tables are broken. */
  lemma NullVidMoved(t: Tables, i: nat)
    requires i < |t.slots| && t.slots[i].vid == INVALID_VID && t.slots[i].fid.Some?
    ensures !Sound(t)
  {
    assert !SlotOk(t.slots[i], i, t.slotOf);
  }

  lemma SlotUpdated(t: Tables, i: nat, s: Vlan, t': Tables)
    requires Sound(t) && i < |t.slots| && t.slots[i].vid != INVALID_VID && s.vid == t.slots[i].vid
    requires s.fid.Some? && s.fid.value < |t.fids| && exists p :: p in s.ports
    requires t.slots[i].fid.Some? ==> t.slots[i].fid.value < |t.fids|
    requires |t'.fids| == |t.fids| && Tops(t'.fids) == Tops(t.fids)
    requires Lists(t'.fids) == MoveTo(Lists(t.fids), t.slots[i].fid, s.fid.value, i)
    requires t'.slots == t.slots[i := s] && t'.mstis == t.mstis && t'.slotOf == t.slotOf && t'.treeAt == t.treeAt
    ensures Sound(t') && AbsOf(t') == AbsOf(t).(vlans := AbsOf(t).vlans[s.vid := Member(s.ports, s.fid.value)])
  {
    hide Partitioned, MoveTo, SlotsOk, TreesOk;
    Updated(t.slots, Lists(t.fids), t.slotOf, i, s, Lists(t'.fids));
  }

  /** Tables in which a VID has taken a slot, after its FID went to the CIST. */
  lemma SlotTaken(t: Tables, u: Tables, i: nat, f: nat, v: nat, pt: nat, t': Tables)
    requires Sound(t) && i < |t.slots| && f < |t.fids| && 0 < v < N_VID && v !in t.slotOf
    requires t.slots[i].vid == INVALID_VID
    requires t.fids[f].vlanlist == [] && forall g :: 0 <= g < f ==> t.fids[g].vlanlist != []
    requires Sound(u) && u.slots == t.slots && u.slotOf == t.slotOf && u.treeAt == t.treeAt && |u.mstis| == |t.mstis|
    requires Lists(u.fids) == Lists(t.fids) && AbsOf(u).tree == AbsOf(t).tree[f := CIST_MSTID]
    requires |t'.fids| == |u.fids| && Tops(t'.fids) == Tops(u.fids) && Lists(t'.fids) == MoveTo(Lists(u.fids), None, f, i)
    requires t'.slots == t.slots[i := Vlan(v, Some(f), {pt})] && t'.mstis == u.mstis
    requires t'.slotOf == t.slotOf[v := i] && t'.treeAt == t.treeAt
    ensures Sound(t') && |t'.slotOf| == |t.slotOf| + 1
    ensures AbsOf(t') == Next(AbsOf(t), AddPt(v, pt, true, false))
    ensures v in AbsOf(t').vlans && AbsOf(t').vlans == AbsOf(t).vlans[v := Member({pt}, f)]
  {
    hide Partitioned, MoveTo, SlotsOk, TreesOk, FirstUnused, UsedFids, View, TreeIds;
    var s := Vlan(v, Some(f), {pt});
    assert pt in {pt};
    Taken(t.slots, Lists(u.fids), t.slotOf, i, s, Lists(t'.fids));
    FirstEmptyIsFresh(t.slots, Lists(t.fids), t.slotOf, f);
    Found(t, i);
    AbsShape(t);
  }

  lemma SlotFreed(t: Tables, i: nat, t': Tables)
    requires Sound(t) && i < |t.slots| && t.slots[i].vid != INVALID_VID
    requires t.slots[i].fid.Some? ==> t.slots[i].fid.value < |t.fids|
    requires |t'.fids| == |t.fids| && Tops(t'.fids) == Tops(t.fids)
    requires Lists(t'.fids) == Unlinked(Lists(t.fids), t.slots[i].fid, i)
    requires t'.slots == t.slots[i := Vlan(INVALID_VID, None, {})] && t'.mstis == t.mstis
    requires t'.slotOf == t.slotOf - {t.slots[i].vid} && t'.treeAt == t.treeAt
    ensures Sound(t') && |t'.slotOf| == |t.slotOf| - 1
    ensures AbsOf(t') == AbsOf(t).(vlans := AbsOf(t).vlans - {t.slots[i].vid})
  {
    hide Partitioned, Unlinked, SlotsOk, TreesOk;
    Freed(t.slots, Lists(t.fids), t.slotOf, i, Lists(t'.fids));
  }

  /** A FID moves to another tree: the tables stay sound exactly if that tree exists. */
  lemma FidMoved(t: Tables, f: nat, k: nat, t': Tables)
    requires Sound(t) && f < |t.fids| && k < |t.mstis|
    requires t.fids[f].msti.Some? ==> t.fids[f].msti.value < |t.mstis|
    requires |t'.fids| == |t.fids| && Tops(t'.fids) == Tops(t.fids)[f := Some(k)] && Lists(t'.fids) == Lists(t.fids)
    requires |t'.mstis| == |t.mstis| && forall j :: 0 <= j < |t.mstis| ==> t'.mstis[j].mstid == t.mstis[j].mstid
    requires FidLists(t'.mstis) == MoveTo(FidLists(t.mstis), t.fids[f].msti, k, f)
    requires t'.slots == t.slots && t'.slotOf == t.slotOf && t'.treeAt == t.treeAt
    ensures Sound(t') <==> t.mstis[k].mstid != INVALID_MSTID
    ensures Sound(t') ==> AbsOf(t') == AbsOf(t).(tree := AbsOf(t).tree[f := t.mstis[k].mstid])
  {
    hide Partitioned, MoveTo, SlotsOk, TreesOk;
    TreeMoved(Tops(t.fids), t.mstis, t.treeAt, f, k, t'.mstis);
  }

  lemma FidTop(t: Tables, f: nat)
    requires Sound(t) && f < |t.fids|
    ensures t.fids[f].msti.Some? && t.fids[f].msti.value < |t.mstis|
  {
    assert Tops(t.fids)[f] == t.fids[f].msti;
  }

  /** What a search for a tree means. */
  lemma TreeFound(t: Tables, mstid: nat, k: Option<nat>)
    requires Sound(t)
    requires k.Some? ==> k.value < |t.mstis| && t.mstis[k.value].mstid == mstid
    requires k.None? ==> forall j :: 0 <= j < |t.mstis| ==> t.mstis[j].mstid != mstid
    ensures mstid != INVALID_MSTID ==> (k.Some? <==> mstid in t.treeAt) && (k.Some? ==> t.treeAt[mstid] == k.value)
    ensures mstid == INVALID_MSTID ==> mstid !in t.treeAt && (k.Some? <==> |t.treeAt| < |t.mstis|) && |t.treeAt| <= |t.mstis|
    ensures k.Some? && mstid !in {CIST_MSTID, TE_MSTID} ==> k.value > 1
    ensures k.Some? && mstid != INVALID_MSTID ==> (t.mstis[k.value].fidlist == [] <==> mstid !in AbsOf(t).tree)
  {
    hide Partitioned, SlotsOk;
    FreeTree(Tops(t.fids), t.mstis, t.treeAt);
    if k.Some? && mstid != INVALID_MSTID {
      EmptyTree(Tops(t.fids), t.mstis, t.treeAt, k.value);
    }
  }

  lemma TreeIdSet(t: Tables, k: nat, mstid: nat, t': Tables)
    requires Sound(t) && 1 < k < |t.mstis|
    requires if mstid == INVALID_MSTID
               then t.mstis[k].mstid != INVALID_MSTID && t.mstis[k].fidlist == [] && t'.treeAt == t.treeAt - {t.mstis[k].mstid}
               else t.mstis[k].mstid == INVALID_MSTID && mstid !in t.treeAt && t'.treeAt == t.treeAt[mstid := k]
    requires t' == t.(mstis := t.mstis[k := t.mstis[k].(mstid := mstid)], treeAt := t'.treeAt)
    ensures Sound(t') && AbsOf(t') == AbsOf(t).(trees := t'.treeAt.Keys)
  {
    hide Partitioned, SlotsOk, TreesOk;
    TreeSet(Tops(t.fids), t.mstis, t.treeAt, k, mstid, t'.treeAt);
  }

  // ---------------------------------------------------------------- the tables in place

  class BrVlan {
    const maxVlans: nat
    const maxMstis: nat
    const vid: array<Vlan>
    const fid: array<Fid>
    const msti: array<Msti>
    var nvlans: nat

    /** Hardware: member ports and FID field (six bits) of every VID. */
    const hwPorts: array<set<nat>>
    const hwFid: array<nat>

    /** Where each VID and each tree is kept. */
    ghost var slotOf: map<nat, nat>
    ghost var treeAt: map<nat, nat>

    ghost predicate Shape() {
      && vid.Length == maxVlans && fid.Length == maxVlans && msti.Length == maxMstis >= 2
      && hwPorts.Length == N_VID && hwFid.Length == N_VID
    }

    ghost function Now(): Tables
      reads this, vid, fid, msti
    {
      Tables(vid[..], fid[..], msti[..], slotOf, treeAt)
    }

    ghost predicate TablesOk()
      reads this, vid, fid, msti
    {
      Shape() && Sound(Now())
    }

    /** What is allocated. */
    ghost function Abs(): Alloc
      requires TablesOk()
      reads this, vid, fid, msti
    {
      AbsOf(Now())
    }

    ghost predicate Valid()
      reads this, vid, fid, msti, hwPorts, hwFid
    {
      TablesOk() && nvlans == |slotOf| && HwAgrees(hwPorts[..], hwFid[..], Abs().vlans)
    }

    // ---------------------------------------------------------------- searches

    /** The first slot with a VID; the null VID finds a free slot. */
    method GetVlan(v: nat) returns (r: Option<nat>)
      requires Shape()
      ensures r.Some? ==> r.value < maxVlans && vid[r.value].vid == v && forall i :: 0 <= i < r.value ==> vid[i].vid != v
      ensures r.None? ==> forall i :: 0 <= i < maxVlans ==> vid[i].vid != v
    {
      for i := 0 to maxVlans
        invariant forall j :: 0 <= j < i ==> vid[j].vid != v
      {
        if vid[i].vid == v {
          return Some(i);
        }
      }
      return None;
    }

    method GetFreeFid() returns (r: Option<nat>)
      requires Shape()
      ensures r.Some? ==> r.value < maxVlans && fid[r.value].vlanlist == [] && forall i :: 0 <= i < r.value ==> fid[i].vlanlist != []
      ensures r.None? ==> forall i :: 0 <= i < maxVlans ==> fid[i].vlanlist != []
    {
      for i := 0 to maxVlans
        invariant forall j :: 0 <= j < i ==> fid[j].vlanlist != []
      {
        if fid[i].vlanlist == [] {
          return Some(i);
        }
      }
      return None;
    }

    /** The first tree with an id; the invalid id finds a free one. */
    method GetMsti(mstid: nat) returns (r: Option<nat>)
      requires Shape()
      ensures r.Some? ==> r.value < maxMstis && msti[r.value].mstid == mstid
      ensures r.None? ==> forall i :: 0 <= i < maxMstis ==> msti[i].mstid != mstid
    {
      for i := 0 to maxMstis
        invariant forall j :: 0 <= j < i ==> msti[j].mstid != mstid
      {
        if msti[i].mstid == mstid {
          return Some(i);
        }
      }
      return None;
    }

    // ---------------------------------------------------------------- moves between lists

    /** _edgx_br_move_fid2msti */
    method MoveFid2Msti(f: nat, k: nat)
      requires Shape() && f < maxVlans && k < maxMstis
      requires fid[f].msti.Some? ==> fid[f].msti.value < maxMstis
      modifies fid, msti
      ensures Tops(fid[..]) == old(Tops(fid[..]))[f := Some(k)] && Lists(fid[..]) == old(Lists(fid[..]))
      ensures FidLists(msti[..]) == MoveTo(old(FidLists(msti[..])), old(fid[f].msti), k, f)
      ensures forall j :: 0 <= j < maxMstis ==> msti[j].mstid == old(msti[j].mstid)
    {
      if fid[f].msti == Some(k) {
        assert Tops(fid[..])[f := Some(k)] == Tops(fid[..]);
        return;
      }
      ghost var mid := Unlinked(FidLists(msti[..]), fid[f].msti, f);
      if fid[f].msti.Some? {
        var from := fid[f].msti.value;
        msti[from] := msti[from].(fidlist := Without(msti[from].fidlist, f));
      }
      assert FidLists(msti[..]) == mid;
      fid[f] := fid[f].(msti := Some(k));
      msti[k] := msti[k].(fidlist := msti[k].fidlist + [f]);
      assert FidLists(msti[..]) == mid[k := mid[k] + [f]];
    }

    /** _edgx_br_move_vid2fid */
    method MoveVid2Fid(i: nat, f: nat)
      requires Shape() && i < maxVlans && f < maxVlans && vid[i].vid < N_VID
      requires vid[i].fid.Some? ==> vid[i].fid.value < maxVlans
      modifies vid, fid, hwFid
      ensures vid[..] == old(vid[..])[i := old(vid[i]).(fid := Some(f))]
      ensures Tops(fid[..]) == old(Tops(fid[..]))
      ensures Lists(fid[..]) == MoveTo(old(Lists(fid[..])), old(vid[i].fid), f, i)
      ensures hwFid[..] == if old(vid[i].fid) == Some(f) then old(hwFid[..]) else old(hwFid[..])[old(vid[i].vid) := f % FID_FIELD]
    {
      if vid[i].fid == Some(f) {
        assert vid[..][i := vid[i].(fid := Some(f))] == vid[..];
        return;
      }
      ghost var mid := Unlinked(Lists(fid[..]), vid[i].fid, i);
      if vid[i].fid.Some? {
        var from := vid[i].fid.value;
        fid[from] := fid[from].(vlanlist := Without(fid[from].vlanlist, i));
      }
      assert Lists(fid[..]) == mid;
      fid[f] := fid[f].(vlanlist := fid[f].vlanlist + [i]);
      assert Lists(fid[..]) == mid[f := mid[f] + [i]];
      hwFid[vid[i].vid] := f % FID_FIELD;
      vid[i] := vid[i].(fid := Some(f));
    }

    // ---------------------------------------------------------------- FIDs and trees

    /** _edgx_br_set_fid2msti. Moving a FID to the id of free trees is what breaks the tables. */
    method SetFid2Msti(f: nat, mstid: nat) returns (st: Status)
      requires TablesOk()
      modifies fid, msti
      ensures Lists(fid[..]) == old(Lists(fid[..]))
      ensures TablesOk() <==> !(f < maxVlans && mstid == INVALID_MSTID && |treeAt| < maxMstis)
      ensures st == if f < maxVlans && (mstid in treeAt || (mstid == INVALID_MSTID && |treeAt| < maxMstis)) then Ok else EInval
      ensures TablesOk() ==> Abs() == if st == Ok then old(Abs()).(tree := old(Abs()).tree[f := mstid]) else old(Abs())
      ensures st == Ok ==> fid[f].msti.Some? && fid[f].msti.value < maxMstis && msti[fid[f].msti.value].mstid == mstid
    {
      hide Sound, AbsOf, MoveTo;
      if f >= maxVlans {
        return EInval;
      }
      ghost var t := Now();
      AbsShape(t);
      var k := GetMsti(mstid);
      TreeFound(t, mstid, k);
      if k.Some? {
        FidTop(t, f);
        MoveFid2Msti(f, k.value);
        assert Tops(fid[..])[f] == fid[f].msti;
        FidMoved(t, f, k.value, Now());
        st := Ok;
      } else {
        st := EInval;
      }
    }

    method SetTreeId(k: nat, mstid: nat, ghost at: map<nat, nat>)
      requires Shape() && k < maxMstis
      modifies this`treeAt, msti
      ensures Now() == old(Now()).(mstis := old(Now()).mstis[k := old(Now()).mstis[k].(mstid := mstid)], treeAt := at)
    {
      ghost var t := Now();
      msti[k] := msti[k].(mstid := mstid);
      treeAt := at;
      assert msti[..] == t.mstis[k := t.mstis[k].(mstid := mstid)];
    }

    /** Give a free tree slot an id. */
    method NameTree(k: nat, mstid: nat)
      requires Valid() && 1 < k < maxMstis && mstid != INVALID_MSTID && msti[k].mstid == INVALID_MSTID && mstid !in treeAt
      modifies this`treeAt, msti
      ensures Valid() && Abs() == old(Abs()).(trees := old(Abs()).trees + {mstid})
    {
      hide Sound, AbsOf, HwAgrees;
      ghost var t := Now();
      AbsShape(t);
      TreeKeys(treeAt, msti[k].mstid, mstid, k);
      SetTreeId(k, mstid, treeAt[mstid := k]);
      TreeIdSet(t, k, mstid, Now());
    }

    /** Free the slot of a tree without FIDs. */
    method ClearTree(k: nat)
      requires Valid() && 1 < k < maxMstis && msti[k].mstid != INVALID_MSTID && msti[k].fidlist == []
      modifies this`treeAt, msti
      ensures Valid() && Abs() == old(Abs()).(trees := old(Abs()).trees - {old(msti[k].mstid)})
    {
      hide Sound, AbsOf, HwAgrees;
      ghost var t := Now();
      AbsShape(t);
      TreeKeys(treeAt, msti[k].mstid, INVALID_MSTID, k);
      SetTreeId(k, INVALID_MSTID, treeAt - {msti[k].mstid});
      TreeIdSet(t, k, INVALID_MSTID, Now());
    }

    method CreateTree(mstid: nat) returns (st: Status)
      requires Valid()
      modifies this`treeAt, msti
      ensures Valid() && st == Reply(old(Abs()), CreateMsti(mstid)) && Abs() == Next(old(Abs()), CreateMsti(mstid))
    {
      hide Sound, AbsOf, HwAgrees;
      ghost var t := Now();
      AbsShape(t);
      if IsReservedMstid(mstid) {
        return EExist;
      }
      var k := GetMsti(mstid);
      TreeFound(t, mstid, k);
      if k.Some? {
        return EExist;
      }
      if mstid >= MAX_MSTID {
        return EInval;
      }
      k := GetMsti(INVALID_MSTID);
      TreeFound(t, INVALID_MSTID, k);
      if k.Some? {
        NameTree(k.value, mstid);
        st := Ok;
      } else {
        st := ENoMem;
      }
    }

    method DeleteTree(mstid: nat) returns (st: Status)
      requires Valid()
      modifies this`treeAt, msti
      ensures Valid() && st == Reply(old(Abs()), DeleteMsti(mstid)) && Abs() == Next(old(Abs()), DeleteMsti(mstid))
    {
      hide Sound, AbsOf, HwAgrees;
      ghost var t := Now();
      AbsShape(t);
      if IsReservedMstid(mstid) {
        return EAcces;
      }
      st := EBusy;
      var k := GetMsti(mstid);
      TreeFound(t, mstid, k);
      if k.Some? && msti[k.value].fidlist == [] {
        ClearTree(k.value);
        st := Ok;
      }
    }

    // ---------------------------------------------------------------- VIDs

    /** Moving a VID in use. */
    method MoveVid(i: nat, f: nat)
      requires Valid() && i < maxVlans && f < maxVlans && 0 < vid[i].vid < N_VID && vid[i].vid in Abs().vlans
      modifies vid, fid, hwFid
      ensures Valid()
      ensures Abs() == var a, v := old(Abs()), old(vid[i].vid); a.(vlans := a.vlans[v := a.vlans[v].(fid := f)])
    {
      hide Sound, AbsOf, MoveTo, HwAgrees;
      ghost var t, ports, fids := Now(), hwPorts[..], hwFid[..];
      Found(t, i);
      ghost var v, s := t.slots[i].vid, t.slots[i].(fid := Some(f));
      MoveVid2Fid(i, f);
      SlotUpdated(t, i, s, Now());
      HwSame(ports, fids, AbsOf(t).vlans, v);
      MapSet(AbsOf(t).vlans, v, Member(s.ports, f));
      HwRow(ports, fids, AbsOf(t).vlans, v, ports, hwFid[..], AbsOf(Now()).vlans);
    }

    /** _edgx_br_set_vid2fid. Moving the null VID puts a free slot on a list, which breaks the tables. */
    method SetVid2Fid(v: nat, f: nat) returns (st: Status)
      requires Valid() && v < N_VID
      modifies vid, fid, hwFid
      ensures Valid() <==> !(v == INVALID_VID && f < maxVlans && |slotOf| < maxVlans)
      ensures v != INVALID_VID ==> st == Reply(old(Abs()), Vid2Fid(v, f)) && Abs() == Next(old(Abs()), Vid2Fid(v, f))
    {
      hide Sound, AbsOf, MoveTo, HwAgrees;
      ghost var t := Now();
      AbsShape(t);
      if f >= maxVlans {
        return EInval;
      }
      var i := GetVlan(v);
      if i.Some? {
        Found(t, i.value);
        if vid[i.value].vid == INVALID_VID {
          MoveVid2Fid(i.value, f);
          NullVidMoved(Now(), i.value);
        } else {
          MoveVid(i.value, f);
        }
        st := Ok;
      } else {
        NotFound(t, v);
        st := EInval;
      }
    }

    method FillSlot(i: nat, v: nat, pt: nat, f: nat)
      requires Shape() && i < maxVlans && f < maxVlans && v < N_VID && vid[i].fid == None
      modifies vid, fid, hwPorts, hwFid
      ensures vid[..] == old(vid[..])[i := Vlan(v, Some(f), {pt})]
      ensures Tops(fid[..]) == old(Tops(fid[..])) && Lists(fid[..]) == MoveTo(old(Lists(fid[..])), None, f, i)
      ensures hwFid[..] == old(hwFid[..])[v := f % FID_FIELD] && hwPorts[..] == old(hwPorts[..])[v := {pt}]
    {
      hide MoveTo;
      ghost var slots := vid[..];
      vid[i] := vid[i].(vid := v, ports := {pt});
      MoveVid2Fid(i, f);
      hwPorts[v] := vid[i].ports;
      assert vid[..] == slots[i := Vlan(v, Some(f), {pt})];
    }

    /** A new VID takes a free slot and an empty FID, which goes to the CIST first. */
    method TakeVid(v: nat, pt: nat)
      requires Valid() && 0 < v < N_VID && v !in slotOf && nvlans < maxVlans
      modifies this`nvlans, this`slotOf, vid, fid, msti, hwPorts, hwFid
      ensures Valid() && Abs() == Next(old(Abs()), AddPt(v, pt, true, false))
    {
      hide Sound, AbsOf, MoveTo, Next, HwAgrees;
      ghost var t := Now();
      AbsShape(t);
      var slot := GetVlan(INVALID_VID);
      var free := GetFreeFid();
      if slot.Some? && free.Some? {
        var i, f := slot.value, free.value;
        Found(t, i);
        CistFirst(t);
        TreeFound(t, CIST_MSTID, Some(CIST_IDX));
        var st := SetFid2Msti(f, CIST_MSTID);
        EnterVid(t, i, f, v, pt);
      } else {
        RoomForOne(t, slot, free);
      }
    }

    /** The second half of it, after the FID has been put into the CIST; `t` are the tables before. */
    method EnterVid(ghost t: Tables, i: nat, f: nat, v: nat, pt: nat)
      requires TablesOk() && 0 < v < N_VID && v !in slotOf && i < maxVlans && f < maxVlans && nvlans == |slotOf|
      requires Sound(t) && |t.fids| == maxVlans && |t.mstis| == maxMstis
      requires vid[..] == t.slots && slotOf == t.slotOf && treeAt == t.treeAt && Lists(fid[..]) == Lists(t.fids)
      requires vid[i].vid == INVALID_VID && vid[i].fid == None && Abs().tree == AbsOf(t).tree[f := CIST_MSTID]
      requires t.fids[f].vlanlist == [] && forall g :: 0 <= g < f ==> t.fids[g].vlanlist != []
      requires HwAgrees(hwPorts[..], hwFid[..], AbsOf(t).vlans)
      modifies this`nvlans, this`slotOf, vid, fid, hwPorts, hwFid
      ensures Valid() && Abs() == Next(AbsOf(t), AddPt(v, pt, true, false))
    {
      hide Sound, AbsOf, MoveTo, Next, HwAgrees;
      ghost var u, ports, fids := Now(), hwPorts[..], hwFid[..];
      FillSlot(i, v, pt, f);
      nvlans := nvlans + 1;
      slotOf := slotOf[v := i];
      SlotTaken(t, u, i, f, v, pt, Now());
      MapSet(AbsOf(t).vlans, v, Member({pt}, f));
      HwRow(ports, fids, AbsOf(t).vlans, v, hwPorts[..], hwFid[..], AbsOf(Now()).vlans);
    }

    /** Set the member ports of a VID in use, which keeps at least one. */
    method SetPorts(i: nat, ports: set<nat>)
      requires Valid() && i < maxVlans && 0 < vid[i].vid < N_VID && vid[i].vid in Abs().vlans && exists p :: p in ports
      modifies vid, hwPorts
      ensures Valid() && vid[..] == old(vid[..])[i := old(vid[i]).(ports := ports)]
      ensures Abs() == var a, v := old(Abs()), old(vid[i].vid); a.(vlans := a.vlans[v := a.vlans[v].(ports := ports)])
    {
      hide Sound, AbsOf, MoveTo, HwAgrees;
      ghost var t, hw := Now(), hwPorts[..];
      Found(t, i);
      ghost var v, s := t.slots[i].vid, t.slots[i].(ports := ports);
      vid[i] := vid[i].(ports := ports);
      hwPorts[vid[i].vid] := vid[i].ports;
      MoveToSame(Lists(t.fids), s.fid.value, i);
      SlotUpdated(t, i, s, Now());
      HwSame(hw, hwFid[..], AbsOf(t).vlans, v);
      MapSet(AbsOf(t).vlans, v, Member(ports, s.fid.value));
      HwRow(hw, hwFid[..], AbsOf(t).vlans, v, hwPorts[..], hwFid[..], AbsOf(Now()).vlans);
    }

    /** A port joins a VID in use. */
    method JoinVid(i: nat, pt: nat)
      requires Valid() && i < maxVlans && vid[i].vid != INVALID_VID && nvlans < maxVlans
      modifies vid, hwPorts
      ensures Valid() && Abs() == Next(old(Abs()), AddPt(old(vid[i].vid), pt, true, false))
    {
      hide Sound, AbsOf, HwAgrees, FreshFid;
      AbsShape(Now());
      Found(Now(), i);
      var ports := vid[i].ports + {pt};
      assert pt in ports;
      SetPorts(i, ports);
    }

    /** edgx_br_vlan_add_pt, once it is known that there is room. */
    method Admit(v: nat, pt: nat) returns (st: Status)
      requires Valid() && v < N_VID && nvlans < maxVlans
      modifies this`nvlans, this`slotOf, vid, fid, msti, hwPorts, hwFid
      ensures st == if v == INVALID_VID then Oops else Ok
      ensures st == Ok ==> Valid() && Abs() == Next(old(Abs()), AddPt(v, pt, true, false))
    {
      hide Sound, AbsOf, HwAgrees, Next;
      ghost var t := Now();
      AbsShape(t);
      var i := GetVlan(v);
      st := Ok;
      if i.Some? {
        Found(t, i.value);
        if vid[i.value].fid.None? {
          vid[i.value] := vid[i.value].(ports := vid[i.value].ports + {pt});
          hwPorts[v] := vid[i.value].ports;
          return Oops;
        }
        JoinVid(i.value, pt);
      } else {
        NotFound(t, v);
        TakeVid(v, pt);
      }
    }

    /** edgx_br_vlan_add_pt. The null VID finds a free slot, and the driver follows its null FID. */
    method AddPort(v: nat, pt: nat, untagged: bool, pvid: bool) returns (st: Status)
      requires Valid() && v < N_VID
      modifies this`nvlans, this`slotOf, vid, fid, msti, hwPorts, hwFid
      ensures st == Oops <==> v == INVALID_VID && Reply(old(Abs()), AddPt(v, pt, untagged, pvid)) == Ok
      ensures st != Oops ==>
                && Valid()
                && st == Reply(old(Abs()), AddPt(v, pt, untagged, pvid)) && Abs() == Next(old(Abs()), AddPt(v, pt, untagged, pvid))
    {
      hide Sound, AbsOf, HwAgrees, FreshFid;
      AbsShape(Now());
      if nvlans >= maxVlans {
        return ENoMem;
      }
      if pvid && !untagged {
        return EInval;
      }
      st := Admit(v, pt);
    }

    /** A VID without ports is given up. */
    method GiveUp(i: nat)
      requires Valid() && i < maxVlans && 0 < vid[i].vid < N_VID
      modifies this`nvlans, this`slotOf, vid, fid, hwPorts
      ensures Valid() && vid[..] == old(vid[..])[i := Vlan(INVALID_VID, None, {})]
      ensures Abs() == old(Abs()).(vlans := old(Abs()).vlans - {old(vid[i].vid)})
    {
      hide Sound, AbsOf, Unlinked, HwAgrees;
      ghost var t, hw := Now(), hwPorts[..];
      Found(t, i);
      ghost var v := t.slots[i].vid;
      ClearSlot(i);
      nvlans := nvlans - 1;
      slotOf := slotOf - {v};
      SlotFreed(t, i, Now());
      HwRow(hw, hwFid[..], AbsOf(t).vlans, v, hwPorts[..], hwFid[..], AbsOf(Now()).vlans);
    }

    method ClearSlot(i: nat)
      requires Shape() && i < maxVlans && vid[i].vid < N_VID && (vid[i].fid.Some? ==> vid[i].fid.value < maxVlans)
      modifies vid, fid, hwPorts
      ensures vid[..] == old(vid[..])[i := Vlan(INVALID_VID, None, {})]
      ensures Tops(fid[..]) == old(Tops(fid[..])) && Lists(fid[..]) == Unlinked(old(Lists(fid[..])), old(vid[i].fid), i)
      ensures hwPorts[..] == old(hwPorts[..])[old(vid[i].vid) := {}]
    {
      hwPorts[vid[i].vid] := {};
      ghost var lists := Lists(fid[..]);
      if vid[i].fid.Some? {
        var f := vid[i].fid.value;
        fid[f] := fid[f].(vlanlist := Without(fid[f].vlanlist, i));
      }
      assert Lists(fid[..]) == Unlinked(lists, vid[i].fid, i);
      vid[i] := Vlan(INVALID_VID, None, {});
    }

    /** A port leaves a VID in use, which is given up with its last port. */
    method LeaveVid(i: nat, pt: nat)
      requires Valid() && i < maxVlans && 0 < vid[i].vid < N_VID && vid[i].vid in Abs().vlans
      modifies this`nvlans, this`slotOf, vid, fid, hwPorts
      ensures Valid() && Abs() == Next(old(Abs()), DelPt(old(vid[i].vid), pt)) && pt !in vid[i].ports
      ensures forall j :: 0 <= j < maxVlans && j != i ==> vid[j] == old(vid[j])
    {
      hide Sound, AbsOf, HwAgrees;
      Found(Now(), i);
      var ports := vid[i].ports - {pt};
      if ports == {} {
        GiveUp(i);
      } else {
        ghost var p :| p in ports;
        SetPorts(i, ports);
      }
    }

    /** edgx_br_vlan_del_pt. The null VID finds a free slot, which the driver takes off a list it is not on. */
    method DelPort(v: nat, pt: nat) returns (st: Status)
      requires Valid() && v < N_VID
      modifies this`nvlans, this`slotOf, vid, fid, hwPorts
      ensures st == Oops <==> v == INVALID_VID && |old(Abs()).vlans| < maxVlans
      ensures st != Oops ==> Valid() && st == Reply(old(Abs()), DelPt(v, pt)) && Abs() == Next(old(Abs()), DelPt(v, pt))
      ensures st != Oops ==>
                forall j :: 0 <= j < maxVlans && pt in vid[j].ports ==> old(vid[j]).vid != v && vid[j] == old(vid[j])
      ensures forall j :: 0 <= j < maxVlans && old(vid[j]).vid != v ==> vid[j] == old(vid[j])
    {
      hide Sound, AbsOf, HwAgrees, Next;
      ghost var t := Now();
      AbsShape(t);
      var i := GetVlan(v);
      if i.None? {
        NotFound(t, v);
        RefusedKeeps(Abs(), DelPt(v, pt));
        return EInval;
      }
      Found(t, i.value);
      if vid[i.value].fid.None? {
        hwPorts[v] := {};
        return Oops;
      }
      forall j | 0 <= j < maxVlans && t.slots[j].vid == v
        ensures j == i.value
      {
        SlotUnique(t, i.value, j);
      }
      LeaveVid(i.value, pt);
      st := Ok;
    }

    /** edgx_br_vlan_purge_pt */
    method PurgePort(pt: nat)
      requires Valid()
      modifies this`nvlans, this`slotOf, vid, fid, hwPorts
      ensures Valid() && Abs() == Next(old(Abs()), PurgePt(pt))
    {
      hide Sound, AbsOf, HwAgrees, PartLeft, Left;
      ghost var a := Abs();
      PartLeftStart(Now(), pt);
      for i := 0 to maxVlans
        invariant Valid() && Abs() == a.(vlans := Abs().vlans) && PartLeft(a.vlans, Abs().vlans, pt)
        invariant forall j :: 0 <= j < i ==> pt !in vid[j].ports
      {
        if pt in vid[i].ports {
          Found(Now(), i);
          ghost var was := Abs().vlans;
          var v := vid[i].vid;
          var _ := DelPort(v, pt);
          PartLeftStep(a.vlans, was, v, pt);
        }
      }
      PortGone(Now(), pt);
      PartLeftAll(a.vlans, Abs().vlans, pt);
    }

    /** fid2vid_read. The loop that fills the rest of the buffer advances twice per turn, so every other
        entry past the list keeps what the buffer held. */
    method Fid2Vid(f: nat, buf: array<nat>) returns (cnt: Option<nat>)
      requires Valid() && buf.Length == maxVlans
      modifies buf
      ensures cnt == if f < maxVlans then Some(|fid[f].vlanlist|) else None
      ensures cnt.Some? ==> cnt.value <= buf.Length && IsVidList(buf[..cnt.value], Abs().vlans, f)
      ensures cnt.Some? ==> forall j :: cnt.value <= j < buf.Length ==>
                buf[j] == if (j - cnt.value) % 2 == 0 then INVALID_VID else old(buf[j])
    {
      hide Sound, AbsOf, HwAgrees, IsVidList;
      if f >= maxVlans {
        return None;
      }
      VidList(Now(), f);
      ghost var vids := VidsOn(Now(), f);
      var list := fid[f].vlanlist;
      var i := 0;
      while i < |list|
        invariant 0 <= i <= |list| && forall j :: 0 <= j < i ==> buf[j] == vids[j]
        invariant forall j :: i <= j < buf.Length ==> buf[j] == old(buf[j])
      {
        buf[i] := vid[list[i]].vid;
        i := i + 1;
      }
      assert buf[..|list|] == vids;
      while i < maxVlans
        invariant |list| <= i <= maxVlans + 1 && (i - |list|) % 2 == 0
        invariant buf[..|list|] == vids
        invariant forall j :: |list| <= j < buf.Length ==>
                    buf[j] == if j < i && (j - |list|) % 2 == 0 then INVALID_VID else old(buf[j])
      {
        buf[i] := INVALID_VID;
        i := i + 1;
        i := i + 1;
      }
      cnt := Some(|list|);
    }

    constructor (n: nat)
      requires n >= 2
      ensures Valid() && fresh(vid) && fresh(fid) && fresh(msti) && fresh(hwPorts) && fresh(hwFid)
      ensures maxVlans == n && maxMstis == (if n < MAX_SUPP_MSTI then n else MAX_SUPP_MSTI)
      ensures Abs() == Fresh(n, maxMstis)
    {
      var m := if n < MAX_SUPP_MSTI then n else MAX_SUPP_MSTI;
      maxVlans, maxMstis, nvlans := n, m, 0;
      vid := new Vlan[n](_ => Vlan(INVALID_VID, None, {}));
      fid := new Fid[n](_ => Fid([], None));
      msti := new Msti[m](_ => Msti(INVALID_MSTID, []));
      hwPorts := new set<nat>[N_VID](_ => {});
      hwFid := new nat[N_VID](_ => 0);
      slotOf := map[];
      treeAt := map[CIST_MSTID := CIST_IDX, TE_MSTID := TE_IDX];
      new;
      hide Sound, AbsOf, HwAgrees, Fresh;
      InitTrees();
    }

    /** The CIST and the TE tree are created, and all FIDs go to the CIST. */
    method InitTrees()
      requires Shape() && slotOf == map[] && treeAt == map[CIST_MSTID := CIST_IDX, TE_MSTID := TE_IDX] && maxVlans >= 2
      requires forall j :: 0 <= j < maxVlans ==> vid[j] == Vlan(INVALID_VID, None, {}) && fid[j] == Fid([], None)
      requires forall k :: 0 <= k < maxMstis ==> msti[k] == Msti(INVALID_MSTID, [])
      requires nvlans == 0 && forall v :: 0 <= v < N_VID ==> hwPorts[v] == {}
      modifies fid, msti
      ensures Valid() && Abs() == Fresh(maxVlans, maxMstis)
    {
      hide Sound, AbsOf, Partitioned, HwAgrees;
      msti[CIST_IDX] := msti[CIST_IDX].(mstid := CIST_MSTID);
      msti[TE_IDX] := msti[TE_IDX].(mstid := TE_MSTID);
      NothingLinked(fid[..], msti[..]);
      InitFids();
      FreshSound(Now(), maxVlans, maxMstis);
      NoPorts(hwPorts[..], hwFid[..]);
    }

    method InitFids()
      requires Shape() && Partitioned(Tops(fid[..]), FidLists(msti[..]))
      requires forall j :: 0 <= j < maxVlans ==> fid[j] == Fid([], None)
      modifies fid, msti
      ensures Partitioned(Tops(fid[..]), FidLists(msti[..]))
      ensures forall j :: 0 <= j < maxVlans ==> fid[j] == Fid([], Some(CIST_IDX))
      ensures forall k :: 0 <= k < maxMstis ==> msti[k].mstid == old(msti[k].mstid)
    {
      hide MoveTo, Partitioned;
      for i := 0 to maxVlans
        invariant Partitioned(Tops(fid[..]), FidLists(msti[..]))
        invariant forall j :: 0 <= j < maxVlans ==> fid[j] == Fid([], if j < i then Some(CIST_IDX) else None)
        invariant forall k :: 0 <= k < maxMstis ==> msti[k].mstid == old(msti[k].mstid)
      {
        AfterMove(Tops(fid[..]), FidLists(msti[..]), i, CIST_IDX);
        MoveFid2Msti(i, CIST_IDX);
        assert forall j :: 0 <= j < maxVlans ==> fid[j] == Fid(Lists(fid[..])[j], Tops(fid[..])[j]);
      }
    }

    method Handle(r: Request) returns (st: Status)
      requires Valid() && Legal(r)
      modifies this`nvlans, this`slotOf, this`treeAt, vid, fid, msti, hwPorts, hwFid
      ensures Valid() && st == Reply(old(Abs()), r) && Abs() == Next(old(Abs()), r)
    {
      hide Sound, AbsOf, HwAgrees;
      AbsShape(Now());
      match r
      case AddPt(v, pt, untagged, pvid) => st := AddPort(v, pt, untagged, pvid);
      case DelPt(v, pt) => st := DelPort(v, pt);
      case PurgePt(pt) =>
        PurgePort(pt);
        st := Ok;
      case Vid2Fid(v, f) => st := SetVid2Fid(v, f);
      case Fid2Msti(f, mstid) => st := SetFid2Msti(f, mstid);
      case CreateMsti(mstid) => st := CreateTree(mstid);
      case DeleteMsti(mstid) => st := DeleteTree(mstid);
    }
  }

  lemma MoveToSame(lists: seq<seq<nat>>, f: nat, x: nat)
    requires f < |lists|
    ensures MoveTo(lists, Some(f), f, x) == lists
  {
  }

  lemma MapSet(vlans: map<nat, Member>, v: nat, member: Member)
    ensures vlans[v := member] - {v} == vlans - {v}
  {
  }

  lemma VidsDiffer(t: Tables, i: nat, j: nat)
    requires Sound(t) && i < |t.slots| && j < |t.slots| && i != j && t.slots[i].vid != INVALID_VID
    ensures t.slots[i].vid != t.slots[j].vid
  {
    assert SlotOk(t.slots[i], i, t.slotOf) && SlotOk(t.slots[j], j, t.slotOf);
  }

  lemma SlotUnique(t: Tables, i: nat, j: nat)
    requires Sound(t) && i < |t.slots| && j < |t.slots| && t.slots[i].vid == t.slots[j].vid != INVALID_VID
    ensures i == j
  {
    assert SlotOk(t.slots[i], i, t.slotOf) && SlotOk(t.slots[j], j, t.slotOf);
  }

  /** Exactly the VIDs of one FID, each once. */
  predicate IsVidList(vids: seq<nat>, vlans: map<nat, Member>, f: nat) {
    && NoDup(vids)
    && (forall v :: v in vlans && vlans[v].fid == f ==> v in vids)
    && (forall v :: v in vids ==> v in vlans && vlans[v].fid == f)
  }

  /** The VIDs of the slots on a FID's list. */
  function VidsOn(t: Tables, f: nat): (r: seq<nat>)
    requires f < |t.fids| && forall j :: 0 <= j < |t.fids[f].vlanlist| ==> t.fids[f].vlanlist[j] < |t.slots|
    ensures |r| == |t.fids[f].vlanlist| && forall j :: 0 <= j < |r| ==> r[j] == t.slots[t.fids[f].vlanlist[j]].vid
  {
    var list := t.fids[f].vlanlist;
    seq(|list|, j requires 0 <= j < |list| => t.slots[list[j]].vid)
  }

  lemma VidList(t: Tables, f: nat)
    requires Sound(t) && f < |t.fids|
    ensures forall j :: 0 <= j < |t.fids[f].vlanlist| ==> t.fids[f].vlanlist[j] < |t.slots|
    ensures |t.fids[f].vlanlist| <= |t.slots| && IsVidList(VidsOn(t, f), AbsOf(t).vlans, f)
  {
    var list := t.fids[f].vlanlist;
    assert Lists(t.fids)[f] == list;
    forall i | i in list
      ensures i < |t.slots| && t.slots[i].fid == Some(f) && t.slots[i].vid != INVALID_VID
    {
      assert i in Lists(t.fids)[f];
      assert Backs(t.slots)[i] == Some(f);
      Found(t, i);
    }
    assert forall j :: 0 <= j < |list| ==> list[j] in list;
    ShortList(list, |t.slots|);
    var vids := VidsOn(t, f);
    forall j, k | 0 <= j < k < |vids|
      ensures vids[j] != vids[k]
    {
      assert list[j] in list && list[k] in list;
      VidsDiffer(t, list[j], list[k]);
    }
    forall v | v in vids
      ensures v in AbsOf(t).vlans && AbsOf(t).vlans[v].fid == f
    {
      var j :| 0 <= j < |vids| && vids[j] == v;
      assert list[j] in list;
      Found(t, list[j]);
    }
    AbsShape(t);
    forall v | v in AbsOf(t).vlans && AbsOf(t).vlans[v].fid == f
      ensures v in vids
    {
      var i := t.slotOf[v];
      Found(t, i);
      assert Backs(t.slots)[i] == Some(f);
      assert i in list;
      var j :| 0 <= j < |list| && list[j] == i;
      assert vids[j] == v;
    }
  }

  lemma ShortList(s: seq<nat>, n: nat)
    requires NoDup(s) && forall j :: 0 <= j < |s| ==> s[j] < n
    ensures |s| <= n
  {
    var at: map<nat, nat> := map i: nat | i in Below(|s|) :: s[i];
    assert at.Keys == Below(|s|);
    assert |at| == |at.Keys|;
    forall x, y | x in at && y in at && at[x] == at[y]
      ensures x == y
    {
      assert s[x] == s[y];
    }
    Injective(at, n);
  }

  /** A port has left some of its VLANs, and given up VIDs only where it was the last port. */
  ghost predicate PartLeft(vlans: map<nat, Member>, left: map<nat, Member>, pt: nat) {
    && (forall v :: v in left ==>
          v in vlans && left[v].fid == vlans[v].fid && left[v].ports - {pt} == vlans[v].ports - {pt} && left[v].ports <= vlans[v].ports)
    && (forall v, p :: v in vlans && p in vlans[v].ports && p != pt ==> v in left)
    && (forall v :: v in left ==> exists p :: p in left[v].ports)
  }

  lemma PartLeftStart(t: Tables, pt: nat)
    requires Sound(t)
    ensures PartLeft(AbsOf(t).vlans, AbsOf(t).vlans, pt)
  {
    ViewDefined(t.slots, t.slotOf);
    forall v | v in t.slotOf
      ensures exists p :: p in AbsOf(t).vlans[v].ports
    {
      assert SlotOk(t.slots[t.slotOf[v]], t.slotOf[v], t.slotOf);
    }
  }

  lemma PartLeftStep(vlans: map<nat, Member>, left: map<nat, Member>, v: nat, pt: nat)
    requires PartLeft(vlans, left, pt) && v in left
    ensures PartLeft(vlans, Left(left, v, pt), pt)
  {
    var next := Left(left, v, pt);
    forall w, p | w in vlans && p in vlans[w].ports && p != pt
      ensures w in next
    {
      if w == v {
        assert p in vlans[v].ports - {pt};
        assert p in left[v].ports;
      }
    }
    forall w | w in next
      ensures exists p :: p in next[w].ports
    {
      if w == v {
        var p :| p in left[v].ports - {pt};
        assert p in next[w].ports;
      }
    }
  }

  lemma PartLeftAll(vlans: map<nat, Member>, left: map<nat, Member>, pt: nat)
    requires PartLeft(vlans, left, pt) && forall v :: v in left ==> pt !in left[v].ports
    ensures left == LeftAll(vlans, pt)
  {
    var all := LeftAll(vlans, pt);
    forall v
      ensures v in left <==> v in all
    {
      if v in left {
        var p :| p in left[v].ports;
        assert p in vlans[v].ports - {pt};
      }
      if v in all {
        var p :| p in vlans[v].ports - {pt};
      }
    }
    forall v | v in left
      ensures left[v] == all[v]
    {
      assert left[v].ports == left[v].ports - {pt};
    }
  }

  lemma PortGone(t: Tables, pt: nat)
    requires Sound(t) && forall j :: 0 <= j < |t.slots| ==> pt !in t.slots[j].ports
    ensures forall v :: v in AbsOf(t).vlans ==> pt !in AbsOf(t).vlans[v].ports
  {
    ViewDefined(t.slots, t.slotOf);
  }

  lemma NothingLinked(fids: seq<Fid>, mstis: seq<Msti>)
    requires forall i :: 0 <= i < |fids| ==> fids[i].msti == None
    requires forall k :: 0 <= k < |mstis| ==> mstis[k].fidlist == []
    ensures Partitioned(Tops(fids), FidLists(mstis))
  {
  }

  lemma NoPorts(hwPorts: seq<set<nat>>, hwFid: seq<nat>)
    requires |hwPorts| == |hwFid| == N_VID && forall v :: 0 <= v < N_VID ==> hwPorts[v] == {}
    ensures HwAgrees(hwPorts, hwFid, map[])
  {
  }

  lemma FreshSound(t: Tables, n: nat, m: nat)
    requires n >= 2 && m >= 2 && |t.slots| == |t.fids| == n && |t.mstis| == m
    requires forall i :: 0 <= i < n ==> t.slots[i] == Vlan(INVALID_VID, None, {})
    requires forall i :: 0 <= i < n ==> t.fids[i].vlanlist == [] && t.fids[i].msti == Some(CIST_IDX)
    requires t.mstis[CIST_IDX].mstid == CIST_MSTID && t.mstis[TE_IDX].mstid == TE_MSTID
    requires forall k :: 2 <= k < m ==> t.mstis[k].mstid == INVALID_MSTID
    requires Partitioned(Tops(t.fids), FidLists(t.mstis))
    requires t.slotOf == map[] && t.treeAt == map[CIST_MSTID := CIST_IDX, TE_MSTID := TE_IDX]
    ensures Sound(t) && AbsOf(t) == Fresh(n, m)
  {
    assert Partitioned(Backs(t.slots), Lists(t.fids));
    assert TreeIds(Tops(t.fids), t.mstis) == Fresh(n, m).tree;
    assert t.treeAt.Keys == {CIST_MSTID, TE_MSTID};
  }

  lemma TreeKeys(treeAt: map<nat, nat>, was: nat, mstid: nat, k: nat)
    ensures (treeAt - {was}).Keys == treeAt.Keys - {was}
    ensures treeAt[mstid := k].Keys == treeAt.Keys + {mstid}
  {
  }

  lemma CistFirst(t: Tables)
    requires Sound(t)
    ensures |t.mstis| >= 2 && t.mstis[CIST_IDX].mstid == CIST_MSTID
  {
  }

  /** The searches for a free slot and an empty FID succeed whenever fewer VIDs than the maximum are in use. */
  lemma RoomForOne(t: Tables, slot: Option<nat>, free: Option<nat>)
    requires Sound(t) && |t.slotOf| < |t.slots|
    requires slot.None? ==> forall i :: 0 <= i < |t.slots| ==> t.slots[i].vid != INVALID_VID
    requires free.None? ==> forall f :: 0 <= f < |t.fids| ==> t.fids[f].vlanlist != []
    ensures slot.Some? && free.Some?
  {
    hide Partitioned, SlotsOk, TreesOk, FreshFid;
    FreeSlot(t.slots, t.slotOf);
    AbsShape(t);
    RoomLeft(AbsOf(t));
    ViewDefined(t.slots, t.slotOf);
    EmptyFid(t.slots, Lists(t.fids), t.slotOf, FreshFid(AbsOf(t)));
    Unused(AbsOf(t).vlans, FreshFid(AbsOf(t)));
  }

  lemma Unused(vlans: map<nat, Member>, f: nat)
    requires forall v :: v in vlans ==> vlans[v].fid != f
    ensures f !in UsedFids(vlans)
  {
  }

  // ---------------------------------------------------------------- runs

  /** Any history of legal requests on n VLANs: every reply and all that is allocated is what the
      requests mean. */
  method Run(n: nat, rs: seq<Request>) returns (b: BrVlan, sts: seq<Status>)
    requires n >= 2 && forall i :: 0 <= i < |rs| ==> Legal(rs[i])
    ensures b.Valid() && b.maxVlans == n && b.maxMstis == (if n < MAX_SUPP_MSTI then n else MAX_SUPP_MSTI)
    ensures sts == Replies(n, b.maxMstis, rs) && b.Abs() == After(n, b.maxMstis, rs)
  {
    hide Sound, AbsOf, HwAgrees, Next, Reply, Legal;
    b := new BrVlan(n);
    sts := [];
    for i := 0 to |rs|
      invariant b.Valid() && fresh(b) && fresh(b.vid) && fresh(b.fid) && fresh(b.msti) && fresh(b.hwPorts) && fresh(b.hwFid)
      invariant b.maxVlans == n && b.maxMstis == (if n < MAX_SUPP_MSTI then n else MAX_SUPP_MSTI)
      invariant sts == Replies(n, b.maxMstis, rs[..i]) && b.Abs() == After(n, b.maxMstis, rs[..i])
    {
      var st := b.Handle(rs[i]);
      assert rs[..i + 1][..i] == rs[..i];
      sts := sts + [st];
    }
    assert rs[..|rs|] == rs;
  }

  /** What the hardware forwards after any history: the ports of a VID are exactly its members, its FID
      field holds the VID's FID, and the VLAN count is the number of VIDs in use. */
  method HardwareAfter(n: nat, rs: seq<Request>, v: nat) returns (ports: set<nat>, fid: nat, used: nat)
    requires n >= 2 && 0 < v < N_VID && forall i :: 0 <= i < |rs| ==> Legal(rs[i])
    ensures var a := After(n, if n < MAX_SUPP_MSTI then n else MAX_SUPP_MSTI, rs);
            && used == |a.vlans|
            && ports == (if v in a.vlans then a.vlans[v].ports else {})
            && (v in a.vlans ==> fid == a.vlans[v].fid % FID_FIELD)
  {
    var b, _ := Run(n, rs);
    hide Sound, AbsOf, After;
    AbsShape(b.Now());
    assert |b.Abs().vlans| == b.nvlans;
    ports, fid, used := b.hwPorts[v], b.hwFid[v], b.nvlans;
  }

  /** What the FID-to-VID list shows after any history: exactly the VIDs of the FID, each once. Each VID in
      use is therefore on the list of its own FID and on no other. */
  method VidsAfter(n: nat, rs: seq<Request>, f: nat) returns (vids: seq<nat>)
    requires n >= 2 && f < n && forall i :: 0 <= i < |rs| ==> Legal(rs[i])
    ensures IsVidList(vids, After(n, if n < MAX_SUPP_MSTI then n else MAX_SUPP_MSTI, rs).vlans, f)
  {
    hide Sound, AbsOf, After, IsVidList, HwAgrees, Replies;
    var buf := new nat[n](_ => 0);
    var b, _ := Run(n, rs);
    var cnt := b.Fid2Vid(f, buf);
    vids := buf[..cnt.value];
  }

  /** Moving a VID after any history: it is accepted exactly if the VID is in use and the FID exists; the
      hardware then has the VID in that FID, with the members it had, and of all lists exactly that of the FID
      (here: the list of any FID g) shows it. */
  method MoveVidAfter(n: nat, rs: seq<Request>, v: nat, f: nat, g: nat)
    returns (st: Status, ports: set<nat>, field: nat, vids: seq<nat>)
    requires n >= 2 && 0 < v < N_VID && g < n && forall i :: 0 <= i < |rs| ==> Legal(rs[i])
    ensures var vlans := After(n, if n < MAX_SUPP_MSTI then n else MAX_SUPP_MSTI, rs).vlans;
            && st == (if v in vlans && f < n then Ok else EInval)
            && (st == Ok ==> ports == vlans[v].ports && field == f % FID_FIELD && (v in vids <==> g == f))
            && (forall w :: w in vlans && w != v ==> (w in vids <==> vlans[w].fid == g))
  {
    hide Sound, AbsOf, After, Replies, Reply, Next, HwAgrees;
    ghost var m := if n < MAX_SUPP_MSTI then n else MAX_SUPP_MSTI;
    var q := rs + [Vid2Fid(v, f)];
    MoveVid(n, m, rs, v, f);
    AfterOne(n, m, rs, Vid2Fid(v, f));
    var b, sts := Run(n, q);
    st := sts[|rs|];
    ports, field := b.hwPorts[v], b.hwFid[v];
    if st == Ok {
      HwRowIs(b, v);
    }
    var buf := new nat[n](_ => 0);
    var cnt := b.Fid2Vid(g, buf);
    vids := buf[..cnt.value];
  }

  lemma HwRowIs(b: BrVlan, v: nat)
    requires b.Valid() && v < N_VID && v in b.Abs().vlans
    ensures b.hwPorts[v] == b.Abs().vlans[v].ports && b.hwFid[v] == b.Abs().vlans[v].fid % FID_FIELD
  {
    hide Sound, AbsOf;
  }

  /** On a new bridge a FID can be moved to a tree that does not exist: it is then filed under the id of free
      tree slots, and the tables are broken. */
  method FidOnFreeTree() returns (b: BrVlan, st: Status, tree: nat)
    ensures st == Ok && tree == INVALID_MSTID && !b.TablesOk()
  {
    hide Sound, AbsOf;
    b := new BrVlan(3);
    AbsShape(b.Now());
    assert Fresh(3, 3).trees == {CIST_MSTID, TE_MSTID};
    st := b.SetFid2Msti(0, INVALID_MSTID);
    tree := b.msti[b.fid[0].msti.value].mstid;
  }

  /** One move of the null VID takes the last empty FID: with two VLANs of which one is in use, no
      further VID can be added although a slot is free. */
  lemma NullVidExhaustsFids()
    ensures var slots, lists := [Vlan(5, Some(0), {1}), Vlan(INVALID_VID, None, {})], [[0], []];
            && SlotsOk(slots, map[5 := 0]) && Partitioned(Backs(slots), lists)
            && forall f :: 0 <= f < 2 ==> MoveTo(lists, slots[1].fid, 1, 1)[f] != []
  {
    var slots: seq<Vlan> := [Vlan(5, Some(0), {1}), Vlan(INVALID_VID, None, {})];
    var lists: seq<seq<nat>> := [[0], []];
    assert 1 in slots[0].ports;
    assert SlotOk(slots[0], 0, map[5 := 0]) && SlotOk(slots[1], 1, map[5 := 0]);
    assert Backs(slots) == [Some(0), None];
    assert 0 in lists[0];
  }
}
