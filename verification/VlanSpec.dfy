/**
 * VLAN management on values: VIDs are allocated to FIDs and FIDs to spanning
 * tree instances (IEEE Std 802.1Q, section 8.8.8). What is allocated is a
 * function of the requests, given by `Reply` and `Next`; the tables that
 * hold it are linked lists with back pointers.
 */
module VlanSpec {
  import opened Common

  const INVALID_VID: nat := 0
  const N_VID: nat := 4096
  const CIST_MSTID: nat := 0
  const SPBM_MSTID: nat := 0xFFC
  const SPBV_MSTID: nat := 0xFFD
  const TE_MSTID: nat := 0xFFE
  const INVALID_MSTID: nat := 0xFFF
  const MAX_MSTID: nat := INVALID_MSTID
  const CIST_IDX: nat := 0
  const TE_IDX: nat := 1
  const MAX_SUPP_MSTI: nat := 64
  const FID_FIELD: nat := 64

  /** A VLAN slot: VID (0 when free), FID it is allocated to, member ports. */
  datatype Vlan = Vlan(vid: nat, fid: Option<nat>, ports: set<nat>)

  /** A FID: VLAN slots allocated to it, index of the tree it belongs to. */
  datatype Fid = Fid(vlanlist: seq<nat>, msti: Option<nat>)

  /** A spanning tree instance: its id (0xFFF when free) and its FIDs. */
  datatype Msti = Msti(mstid: nat, fidlist: seq<nat>)

  predicate IsReservedMstid(mstid: nat) {
    mstid in {CIST_MSTID, TE_MSTID, SPBM_MSTID, SPBV_MSTID, INVALID_MSTID}
  }

  // ---------------------------------------------------------------- what the requests mean

  datatype Member = Member(ports: set<nat>, fid: nat)

  /** VIDs in use, tree id of each FID, trees that exist, and room for trees. */
  datatype Alloc = Alloc(vlans: map<nat, Member>, tree: seq<nat>, trees: set<nat>, maxTrees: nat)

  datatype Request =
    | AddPt(vid: nat, pt: nat, untagged: bool, pvid: bool)
    | DelPt(vid: nat, pt: nat)
    | PurgePt(pt: nat)
    | Vid2Fid(vid: nat, fid: nat)
    | Fid2Msti(fid: nat, mstid: nat)
    | CreateMsti(mstid: nat)
    | DeleteMsti(mstid: nat)

  /** 12-bit VIDs other than the null VID, and no move to the id that marks a free tree. */
  predicate Legal(r: Request) {
    && ((r.AddPt? || r.DelPt? || r.Vid2Fid?) ==> 0 < r.vid < N_VID)
    && (r.Fid2Msti? ==> r.mstid != INVALID_MSTID)
  }

  function UsedFids(vlans: map<nat, Member>): set<nat> {
    set v | v in vlans :: vlans[v].fid
  }

  /** The lowest FID from `from` on that no VID uses; n if there is none. */
  function FirstUnused(used: set<nat>, from: nat, n: nat): (f: nat)
    requires from <= n
    ensures from <= f <= n
    ensures f < n ==> f !in used
    ensures forall g :: from <= g < f ==> g in used
    decreases n - from
  {
    if from < n && from in used then FirstUnused(used, from + 1, n) else from
  }

  function FreshFid(a: Alloc): nat {
    FirstUnused(UsedFids(a.vlans), 0, |a.tree|)
  }

  function Reply(a: Alloc, r: Request): Status {
    match r
    case AddPt(_, _, untagged, pvid) =>
      if |a.vlans| >= |a.tree| then ENoMem else if pvid && !untagged then EInval else Ok
    case DelPt(vid, _) => if vid in a.vlans then Ok else EInval
    case PurgePt(_) => Ok
    case Vid2Fid(vid, fid) => if fid < |a.tree| && vid in a.vlans then Ok else EInval
    case Fid2Msti(fid, mstid) => if fid < |a.tree| && mstid in a.trees then Ok else EInval
    case CreateMsti(mstid) =>
      if IsReservedMstid(mstid) || mstid in a.trees then EExist
      else if mstid >= MAX_MSTID then EInval
      else if |a.trees| >= a.maxTrees then ENoMem else Ok
    case DeleteMsti(mstid) =>
      if IsReservedMstid(mstid) then EAcces
      else if mstid !in a.trees || mstid in a.tree then EBusy else Ok
  }

  /** The VIDs left when a port leaves one VLAN; a VID without ports is given up. */
  function Left(vlans: map<nat, Member>, vid: nat, pt: nat): map<nat, Member>
    requires vid in vlans
  {
    var ports := vlans[vid].ports - {pt};
    if ports == {} then vlans - {vid} else vlans[vid := vlans[vid].(ports := ports)]
  }

  /** The VIDs left when a port leaves all VLANs. */
  function LeftAll(vlans: map<nat, Member>, pt: nat): map<nat, Member> {
    map v | v in vlans && vlans[v].ports - {pt} != {} :: vlans[v].(ports := vlans[v].ports - {pt})
  }

  function Next(a: Alloc, r: Request): Alloc {
    if Reply(a, r) != Ok then a
    else
      match r
      case AddPt(vid, pt, _, _) =>
        if vid in a.vlans then
          a.(vlans := a.vlans[vid := a.vlans[vid].(ports := a.vlans[vid].ports + {pt})])
        else
          var f := FreshFid(a);
          a.(vlans := a.vlans[vid := Member({pt}, f)],
             tree := if f < |a.tree| then a.tree[f := CIST_MSTID] else a.tree)
      case DelPt(vid, pt) => a.(vlans := Left(a.vlans, vid, pt))
      case PurgePt(pt) => a.(vlans := LeftAll(a.vlans, pt))
      case Vid2Fid(vid, fid) => a.(vlans := a.vlans[vid := a.vlans[vid].(fid := fid)])
      case Fid2Msti(fid, mstid) => a.(tree := a.tree[fid := mstid])
      case CreateMsti(mstid) => a.(trees := a.trees + {mstid})
      case DeleteMsti(mstid) => a.(trees := a.trees - {mstid})
  }

  lemma RefusedKeeps(a: Alloc, r: Request)
    requires Reply(a, r) != Ok
    ensures Next(a, r) == a
  {
  }

  function Fresh(n: nat, m: nat): Alloc {
    Alloc(map[], seq(n, _ => CIST_MSTID), {CIST_MSTID, TE_MSTID}, m)
  }

  /** The allocation after a history of requests. */
  function After(n: nat, m: nat, rs: seq<Request>): Alloc {
    if rs == [] then Fresh(n, m) else Next(After(n, m, rs[..|rs| - 1]), rs[|rs| - 1])
  }

  /** The replies to a history of requests. */
  function Replies(n: nat, m: nat, rs: seq<Request>): (sts: seq<Status>)
    ensures |sts| == |rs|
  {
    if rs == [] then []
    else Replies(n, m, rs[..|rs| - 1]) + [Reply(After(n, m, rs[..|rs| - 1]), rs[|rs| - 1])]
  }

  lemma AfterOne(n: nat, m: nat, rs: seq<Request>, r: Request)
    ensures After(n, m, rs + [r]) == Next(After(n, m, rs), r)
    ensures Replies(n, m, rs + [r]) == Replies(n, m, rs) + [Reply(After(n, m, rs), r)]
  {
    assert (rs + [r])[..|rs|] == rs;
  }

  ghost predicate AllocOk(a: Alloc, n: nat) {
    && |a.tree| == n
    && VlansOk(a.vlans, n)
    && |a.trees| <= a.maxTrees
    && CIST_MSTID in a.trees && TE_MSTID in a.trees && INVALID_MSTID !in a.trees
    && (forall f :: 0 <= f < n ==> a.tree[f] in a.trees)
  }

  // ---------------------------------------------------------------- the pigeonhole argument

  lemma {:induction false} ValuesFewer(f: map<nat, nat>)
    ensures |f.Values| <= |f|
  {
    if f != map[] {
      var x :| x in f;
      var g := f - {x};
      ValuesFewer(g);
      assert g.Keys == f.Keys - {x};
      assert |g| == |g.Keys| && |f| == |f.Keys|;
      assert f.Values == g.Values + {f[x]} by {
        forall y | y in f.Values ensures y in g.Values + {f[x]} {
          var k :| k in f && f[k] == y;
          assert k != x ==> k in g && g[k] == y;
        }
      }
    }
  }

  function Below(n: nat): (s: set<nat>)
    ensures |s| == n && forall i :: i in s <==> 0 <= i < n
  {
    if n == 0 then {} else Below(n - 1) + {n - 1}
  }

  /** A map with fewer than n keys misses one of n values. */
  lemma OneMissed(f: map<nat, nat>, n: nat) returns (i: nat)
    requires |f| < n
    ensures i < n && i !in f.Values
  {
    ValuesFewer(f);
    if Below(n) <= f.Values {
      SubsetCard(Below(n), f.Values);
    }
    i :| i in Below(n) && i !in f.Values;
  }

  /** A FID without VIDs is left whenever fewer VIDs than FIDs are in use. */
  lemma RoomLeft(a: Alloc)
    requires |a.vlans| < |a.tree|
    ensures FreshFid(a) < |a.tree| && forall v :: v in a.vlans ==> a.vlans[v].fid != FreshFid(a)
  {
    var f := map v | v in a.vlans :: a.vlans[v].fid;
    assert f.Keys == a.vlans.Keys;
    assert |f| == |f.Keys| && |a.vlans| == |a.vlans.Keys|;
    var i := OneMissed(f, |a.tree|);
    forall v | v in a.vlans
      ensures a.vlans[v].fid != i
    {
      assert f[v] in f.Values;
    }
    assert i !in UsedFids(a.vlans);
    forall v | v in a.vlans
      ensures a.vlans[v].fid in UsedFids(a.vlans)
    {
    }
  }

  // ---------------------------------------------------------------- what every run keeps

  ghost predicate VlansOk(vlans: map<nat, Member>, n: nat) {
    && |vlans| <= n
    && forall v :: v in vlans ==> 0 < v < N_VID && vlans[v].fid < n && exists p :: p in vlans[v].ports
  }

  lemma VlanSet(vlans: map<nat, Member>, n: nat, vid: nat, member: Member)
    requires VlansOk(vlans, n) && 0 < vid < N_VID && member.fid < n && exists p :: p in member.ports
    requires vid in vlans || |vlans| < n
    ensures VlansOk(vlans[vid := member], n)
  {
    var next := vlans[vid := member];
    assert next.Keys == vlans.Keys + {vid};
    assert |next| == |next.Keys| && |vlans| == |vlans.Keys|;
    assert vid in vlans ==> next.Keys == vlans.Keys;
  }

  lemma AddOk(a: Alloc, n: nat, r: Request)
    requires AllocOk(a, n) && Legal(r) && r.AddPt? && Reply(a, r) == Ok
    ensures AllocOk(Next(a, r), n) && Next(a, r).maxTrees == a.maxTrees
  {
    hide FreshFid, VlansOk;
    RoomLeft(a);
    if r.vid in a.vlans {
      assert r.pt in a.vlans[r.vid].ports + {r.pt};
      MemberOk(a.vlans, n, r.vid);
    } else {
      assert r.pt in {r.pt};
    }
    VlanSet(a.vlans, n, r.vid, Next(a, r).vlans[r.vid]);
  }

  lemma TreesStayOk(a: Alloc, n: nat, r: Request)
    requires AllocOk(a, n) && (r.CreateMsti? || r.DeleteMsti?) && Reply(a, r) == Ok
    ensures AllocOk(Next(a, r), n) && Next(a, r).maxTrees == a.maxTrees
  {
    hide VlansOk;
    if r.DeleteMsti? {
      SubsetCard(a.trees - {r.mstid}, a.trees);
    }
  }

  lemma NextOk(a: Alloc, n: nat, r: Request)
    requires AllocOk(a, n) && Legal(r)
    ensures AllocOk(Next(a, r), n) && Next(a, r).maxTrees == a.maxTrees
  {
    hide FreshFid, VlansOk, Left, LeftAll;
    if Reply(a, r) == Ok {
      match r
      case AddPt(_, _, _, _) => AddOk(a, n, r);
      case DelPt(vid, pt) => LeftOk(a.vlans, n, vid, pt);
      case PurgePt(pt) => LeftAllOk(a.vlans, n, pt);
      case Vid2Fid(vid, fid) =>
        MemberOk(a.vlans, n, vid);
        VlanSet(a.vlans, n, vid, Next(a, r).vlans[vid]);
      case Fid2Msti(_, _) =>
      case CreateMsti(_) => TreesStayOk(a, n, r);
      case DeleteMsti(_) => TreesStayOk(a, n, r);
    }
  }

  lemma MemberOk(vlans: map<nat, Member>, n: nat, vid: nat)
    requires VlansOk(vlans, n) && vid in vlans
    ensures vlans[vid].fid < n && exists p :: p in vlans[vid].ports
  {
  }

  lemma LeftOk(vlans: map<nat, Member>, n: nat, vid: nat, pt: nat)
    requires VlansOk(vlans, n) && vid in vlans
    ensures VlansOk(Left(vlans, vid, pt), n)
  {
    var ports := vlans[vid].ports - {pt};
    if ports == {} {
      var left := vlans - {vid};
      SubsetCard(left.Keys, vlans.Keys);
      assert |left| == |left.Keys| && |vlans| == |vlans.Keys|;
    } else {
      var p :| p in ports;
      VlanSet(vlans, n, vid, vlans[vid].(ports := ports));
    }
  }

  lemma LeftAllOk(vlans: map<nat, Member>, n: nat, pt: nat)
    requires VlansOk(vlans, n)
    ensures VlansOk(LeftAll(vlans, pt), n)
  {
    var left := LeftAll(vlans, pt);
    SubsetCard(left.Keys, vlans.Keys);
    assert |left| == |left.Keys| && |vlans| == |vlans.Keys|;
    forall v | v in left ensures exists p :: p in left[v].ports {
      var p :| p in vlans[v].ports - {pt};
      assert p in left[v].ports;
    }
  }

  lemma {:induction false} AfterOk(n: nat, m: nat, rs: seq<Request>)
    requires m >= 2 && forall i :: 0 <= i < |rs| ==> Legal(rs[i])
    ensures AllocOk(After(n, m, rs), n) && After(n, m, rs).maxTrees == m
  {
    hide AllocOk, Next, Legal;
    if rs == [] {
      FreshOk(n, m);
    } else {
      AfterOk(n, m, rs[..|rs| - 1]);
      NextOk(After(n, m, rs[..|rs| - 1]), n, rs[|rs| - 1]);
    }
  }

  lemma FreshOk(n: nat, m: nat)
    requires m >= 2
    ensures AllocOk(Fresh(n, m), n)
  {
    var trees := {CIST_MSTID, TE_MSTID};
    assert trees - {CIST_MSTID} == {TE_MSTID};
    assert |trees| == 2;
  }

  /** After any history a port can be added to a new VID exactly when fewer VIDs than the maximum are in
      use; the VID then gets a FID of its own, and that FID is in the CIST. */
  lemma NewVidGetsOwnFid(n: nat, m: nat, rs: seq<Request>, vid: nat, pt: nat, untagged: bool)
    requires m >= 2 && 0 < vid < N_VID && forall i :: 0 <= i < |rs| ==> Legal(rs[i])
    requires vid !in After(n, m, rs).vlans
    ensures var a, r := After(n, m, rs), AddPt(vid, pt, untagged, false);
            var b := Next(a, r);
            && (Reply(a, r) == Ok <==> |a.vlans| < n)
            && (Reply(a, r) != Ok ==> Reply(a, r) == ENoMem && b == a)
            && (Reply(a, r) == Ok ==>
                  && vid in b.vlans && b.vlans[vid].ports == {pt} && b.vlans[vid].fid < n
                  && (forall v :: v in b.vlans && v != vid ==>
                        v in a.vlans && b.vlans[v] == a.vlans[v] && b.vlans[v].fid != b.vlans[vid].fid)
                  && |b.tree| == n && b.tree[b.vlans[vid].fid] == CIST_MSTID
                  && (forall f :: 0 <= f < n && f != b.vlans[vid].fid ==> b.tree[f] == a.tree[f]) && b.trees == a.trees)
  {
    hide FreshFid;
    var a := After(n, m, rs);
    AfterOk(n, m, rs);
    if |a.vlans| < n {
      RoomLeft(a);
    }
  }

  /** The room check comes before the search for the VID: when all VIDs are in use a port cannot join any of
      them, although joining needs no room. Otherwise it can always join. */
  lemma JoinRefusedWhenFull(n: nat, m: nat, rs: seq<Request>, vid: nat, pt: nat, untagged: bool)
    requires m >= 2 && forall i :: 0 <= i < |rs| ==> Legal(rs[i])
    requires vid in After(n, m, rs).vlans
    ensures var a, r := After(n, m, rs), AddPt(vid, pt, untagged, false);
            && (Reply(a, r) == ENoMem <==> |a.vlans| == n)
            && (Reply(a, r) == Ok <==> |a.vlans| < n)
            && (|a.vlans| < n ==> vid in Next(a, r).vlans && Next(a, r).vlans[vid].ports == a.vlans[vid].ports + {pt})
  {
    AfterOk(n, m, rs);
  }

  /** Two VIDs of one port each use up two slots: the second port is then refused on both. */
  lemma FullBridgeRefusesJoin()
    ensures var rs := [AddPt(5, 1, true, false), AddPt(6, 1, true, false)];
            var a := After(2, 2, rs);
            && a.vlans.Keys == {5, 6}
            && Reply(a, AddPt(5, 2, true, false)) == ENoMem && Reply(a, AddPt(6, 2, true, false)) == ENoMem
  {
    var r0, r1 := AddPt(5, 1, true, false), AddPt(6, 1, true, false);
    var rs := [r0, r1];
    assert rs[..1] == [r0] && [r0][..0] == [];
    var a0 := After(2, 2, []);
    var a1 := After(2, 2, [r0]);
    assert a1 == Next(a0, r0) && After(2, 2, rs) == Next(a1, r1);
    assert a1.vlans.Keys == {5};
    assert |a1.vlans| == |a1.vlans.Keys| == 1;
    assert After(2, 2, rs).vlans.Keys == {5, 6};
    assert |After(2, 2, rs).vlans| == |After(2, 2, rs).vlans.Keys| == 2;
  }

  // ---------------------------------------------------------------- moves and trees

  /** After any history a VID is moved exactly if it is in use and the FID exists; the VID is in that FID then,
      and nothing else has changed. */
  lemma MoveVid(n: nat, m: nat, rs: seq<Request>, vid: nat, fid: nat)
    requires m >= 2 && forall i :: 0 <= i < |rs| ==> Legal(rs[i])
    ensures var a, r := After(n, m, rs), Vid2Fid(vid, fid);
            var b := Next(a, r);
            && (Reply(a, r) == Ok <==> vid in a.vlans && fid < n) && (Reply(a, r) != Ok ==> Reply(a, r) == EInval && b == a)
            && (Reply(a, r) == Ok ==>
                  && b.vlans.Keys == a.vlans.Keys && b.vlans[vid].fid == fid && b.vlans[vid].ports == a.vlans[vid].ports
                  && (forall v :: v in a.vlans && v != vid ==> b.vlans[v] == a.vlans[v])
                  && b.tree == a.tree && b.trees == a.trees)
  {
    AfterOk(n, m, rs);
  }

  /** A FID is moved exactly if it exists and the tree does; it is on that tree then, and nothing else has changed. */
  lemma MoveFid(n: nat, m: nat, rs: seq<Request>, fid: nat, mstid: nat)
    requires m >= 2 && forall i :: 0 <= i < |rs| ==> Legal(rs[i])
    ensures var a, r := After(n, m, rs), Fid2Msti(fid, mstid);
            var b := Next(a, r);
            && (Reply(a, r) == Ok <==> fid < n && mstid in a.trees) && (Reply(a, r) != Ok ==> Reply(a, r) == EInval && b == a)
            && (Reply(a, r) == Ok ==>
                  && |b.tree| == n && b.tree[fid] == mstid && (forall f :: 0 <= f < n && f != fid ==> b.tree[f] == a.tree[f])
                  && b.vlans == a.vlans && b.trees == a.trees)
  {
    AfterOk(n, m, rs);
  }

  /** A tree is created exactly for an id below 0xFFF that is neither reserved nor taken, with room for one more
      tree. */
  lemma TreeCreated(n: nat, m: nat, rs: seq<Request>, mstid: nat)
    requires m >= 2 && forall i :: 0 <= i < |rs| ==> Legal(rs[i])
    ensures var a, r := After(n, m, rs), CreateMsti(mstid);
            && (Reply(a, r) == Ok <==> mstid !in {0, 0xFFC, 0xFFD, 0xFFE} && mstid < 0xFFF && mstid !in a.trees && |a.trees| < m)
            && Next(a, r) == (if Reply(a, r) == Ok then a.(trees := a.trees + {mstid}) else a)
  {
    hide After, AllocOk;
    AfterOk(n, m, rs);
  }

  /** A tree is deleted exactly if it is not reserved, exists and has no FID. */
  lemma TreeDeleted(n: nat, m: nat, rs: seq<Request>, mstid: nat)
    ensures var a, r := After(n, m, rs), DeleteMsti(mstid);
            && (Reply(a, r) == Ok <==>
                  mstid !in {0, 0xFFC, 0xFFD, 0xFFE, 0xFFF} && mstid in a.trees && forall f :: 0 <= f < |a.tree| ==> a.tree[f] != mstid)
            && Next(a, r) == (if Reply(a, r) == Ok then a.(trees := a.trees - {mstid}) else a)
  {
    hide After;
  }

  /** Only a move of its VID changes the FID of a VID that stays in use. */
  lemma FidStays(a: Alloc, r: Request, vid: nat)
    requires vid in a.vlans && vid in Next(a, r).vlans && !(r.Vid2Fid? && r.vid == vid)
    ensures Next(a, r).vlans[vid].fid == a.vlans[vid].fid
  {
    hide FreshFid;
  }

  // ---------------------------------------------------------------- membership

  /** A port was added to a VID, and neither it nor the port's membership was given up since. */
  predicate Joined(n: nat, m: nat, rs: seq<Request>, vid: nat, pt: nat) {
    exists i :: 0 <= i < |rs| && Adds(rs[i], Replies(n, m, rs)[i], vid, pt) && forall j :: i < j < |rs| ==> !Drops(rs[j], vid, pt)
  }

  predicate Adds(r: Request, st: Status, vid: nat, pt: nat) {
    r.AddPt? && r.vid == vid && r.pt == pt && st == Ok
  }

  predicate Drops(r: Request, vid: nat, pt: nat) {
    r == DelPt(vid, pt) || r == PurgePt(pt)
  }

  predicate IsMember(a: Alloc, vid: nat, pt: nat) {
    vid in a.vlans && pt in a.vlans[vid].ports
  }

  lemma MemberStep(a: Alloc, r: Request, vid: nat, pt: nat)
    ensures IsMember(Next(a, r), vid, pt) <==> Adds(r, Reply(a, r), vid, pt) || (IsMember(a, vid, pt) && !Drops(r, vid, pt))
  {
    hide FreshFid;
    if r == PurgePt(pt) || (r.PurgePt? && IsMember(a, vid, pt)) {
      assert IsMember(a, vid, pt) && r.pt != pt ==> pt in a.vlans[vid].ports - {r.pt};
    }
    if r.DelPt? && r.vid == vid && IsMember(a, vid, pt) {
      assert r.pt != pt ==> pt in a.vlans[vid].ports - {r.pt};
    }
  }

  lemma JoinedStep(n: nat, m: nat, rs: seq<Request>, r: Request, vid: nat, pt: nat)
    ensures Joined(n, m, rs + [r], vid, pt) <==>
            Adds(r, Reply(After(n, m, rs), r), vid, pt) || (Joined(n, m, rs, vid, pt) && !Drops(r, vid, pt))
  {
    hide Adds, Drops, Reply, After;
    var q := rs + [r];
    AfterOne(n, m, rs, r);
    if Joined(n, m, rs, vid, pt) && !Drops(r, vid, pt) {
      var i :| 0 <= i < |rs| && Adds(rs[i], Replies(n, m, rs)[i], vid, pt) && forall j :: i < j < |rs| ==> !Drops(rs[j], vid, pt);
      assert q[i] == rs[i] && Replies(n, m, q)[i] == Replies(n, m, rs)[i];
    }
    if Adds(r, Reply(After(n, m, rs), r), vid, pt) {
      assert q[|rs|] == r && Replies(n, m, q)[|rs|] == Reply(After(n, m, rs), r);
    }
    if Joined(n, m, q, vid, pt) {
      var i :| 0 <= i < |q| && Adds(q[i], Replies(n, m, q)[i], vid, pt) && forall j :: i < j < |q| ==> !Drops(q[j], vid, pt);
      if i < |rs| {
        assert q[i] == rs[i] && Replies(n, m, q)[i] == Replies(n, m, rs)[i] && q[|rs|] == r;
        assert forall j :: i < j < |rs| ==> q[j] == rs[j];
      }
    }
  }

  /** After any history a port is a member of a VID exactly if it was added and has not left since, by itself or
      when all its memberships were purged. */
  lemma {:induction false} MemberIff(n: nat, m: nat, rs: seq<Request>, vid: nat, pt: nat)
    ensures IsMember(After(n, m, rs), vid, pt) <==> Joined(n, m, rs, vid, pt)
  {
    hide Next, Adds, Drops;
    if rs != [] {
      hide IsMember, Joined;
      var k := |rs| - 1;
      MemberIff(n, m, rs[..k], vid, pt);
      assert rs == rs[..k] + [rs[k]];
      MemberStep(After(n, m, rs[..k]), rs[k], vid, pt);
      JoinedStep(n, m, rs[..k], rs[k], vid, pt);
    }
  }

  /** A VID is in use exactly as long as it has a member. */
  lemma InUseIff(n: nat, m: nat, rs: seq<Request>, vid: nat)
    requires m >= 2 && forall i :: 0 <= i < |rs| ==> Legal(rs[i])
    ensures vid in After(n, m, rs).vlans <==> exists pt :: Joined(n, m, rs, vid, pt)
  {
    hide Joined, After;
    AfterOk(n, m, rs);
    var a := After(n, m, rs);
    if vid in a.vlans {
      var p :| p in a.vlans[vid].ports;
      MemberIff(n, m, rs, vid, p);
    }
    if exists pt :: Joined(n, m, rs, vid, pt) {
      var pt :| Joined(n, m, rs, vid, pt);
      MemberIff(n, m, rs, vid, pt);
    }
  }

  /** After any history a port can leave a VID exactly if the VID is in use, and all its VIDs at any time. */
  lemma LeaveReplies(n: nat, m: nat, rs: seq<Request>, vid: nat, pt: nat)
    requires m >= 2 && forall i :: 0 <= i < |rs| ==> Legal(rs[i])
    ensures var a := After(n, m, rs);
            && Reply(a, DelPt(vid, pt)) == (if exists p :: Joined(n, m, rs, vid, p) then Ok else EInval)
            && Reply(a, PurgePt(pt)) == Ok
  {
    hide Joined, After;
    InUseIff(n, m, rs, vid);
  }

  ghost predicate OwnFids(vlans: map<nat, Member>) {
    forall v, w :: v in vlans && w in vlans && v != w ==> vlans[v].fid != vlans[w].fid
  }

  lemma NextOwnFids(a: Alloc, n: nat, r: Request)
    requires AllocOk(a, n) && !r.Vid2Fid? && OwnFids(a.vlans)
    ensures OwnFids(Next(a, r).vlans)
  {
    hide FreshFid, AllocOk;
    if r.AddPt? && Reply(a, r) == Ok {
      RoomLeft(a);
    }
  }

  /** Independent VLAN learning: as long as no request moves a VID, no two VIDs share a FID. */
  lemma {:induction false} IndependentLearning(n: nat, m: nat, rs: seq<Request>)
    requires m >= 2 && forall i :: 0 <= i < |rs| ==> Legal(rs[i]) && !rs[i].Vid2Fid?
    ensures OwnFids(After(n, m, rs).vlans)
  {
    hide OwnFids, Next, AllocOk;
    if rs == [] {
      assert OwnFids(map[]) by { NoneShared(); }
    } else {
      var before := rs[..|rs| - 1];
      IndependentLearning(n, m, before);
      AfterOk(n, m, before);
      NextOwnFids(After(n, m, before), n, rs[|rs| - 1]);
    }
  }

  lemma NoneShared()
    ensures OwnFids(map[])
  {
  }

  // ---------------------------------------------------------------- lists with back pointers

  predicate NoDup(s: seq<nat>) {
    forall i, j :: 0 <= i < j < |s| ==> s[i] != s[j]
  }

  /** list_del */
  function Without(s: seq<nat>, x: nat): seq<nat> {
    if s == [] then []
    else if s[0] == x then s[1..]
    else [s[0]] + Without(s[1..], x)
  }

  lemma {:induction false} WithoutIs(s: seq<nat>, x: nat)
    requires NoDup(s)
    ensures NoDup(Without(s, x)) && forall y :: y in Without(s, x) <==> y in s && y != x
  {
    if s != [] {
      var t := s[1..];
      WithoutIs(t, x);
      assert s == [s[0]] + t;
      assert s[0] !in t;
    }
  }

  /** Each list has no item twice; the items on a list are those whose back pointer names it. */
  ghost predicate Partitioned(back: seq<Option<nat>>, lists: seq<seq<nat>>) {
    && (forall l :: 0 <= l < |lists| ==> NoDup(lists[l]))
    && (forall l: nat, x: nat {:trigger x in lists[l]} :: l < |lists| && x in lists[l] ==> x < |back| && back[x] == Some(l))
    && (forall x :: 0 <= x < |back| && back[x].Some? ==> back[x].value < |lists| && x in lists[back[x].value])
  }

  function Unlinked(lists: seq<seq<nat>>, from: Option<nat>, x: nat): (r: seq<seq<nat>>)
    requires from.Some? ==> from.value < |lists|
  {
    if from.Some? then lists[from.value := Without(lists[from.value], x)] else lists
  }

  /** Move an item to the end of another list (list_del, list_add_tail, back pointer). */
  function MoveTo(lists: seq<seq<nat>>, from: Option<nat>, to: nat, x: nat): seq<seq<nat>>
    requires to < |lists| && (from.Some? ==> from.value < |lists|)
  {
    if from == Some(to) then lists
    else
      var mid := Unlinked(lists, from, x);
      mid[to := mid[to] + [x]]
  }

  lemma AfterUnlink(back: seq<Option<nat>>, lists: seq<seq<nat>>, x: nat)
    requires Partitioned(back, lists) && x < |back|
    ensures back[x].Some? ==> back[x].value < |lists|
    ensures Partitioned(back[x := None], Unlinked(lists, back[x], x))
  {
    hide Without;
    var from := back[x];
    if from.Some? {
      WithoutIs(lists[from.value], x);
      RelistOk(back, lists, back[x := None], from.value, Without(lists[from.value], x), x);
    } else {
      assert back[x := None] == back;
    }
  }

  /** One list changes by one item, and that item's back pointer follows. */
  lemma RelistOk(back: seq<Option<nat>>, lists: seq<seq<nat>>, back': seq<Option<nat>>, l: nat, list: seq<nat>, x: nat)
    requires Partitioned(back, lists) && x < |back| && l < |lists| && NoDup(list)
    requires |back'| == |back| && forall y :: 0 <= y < |back| && y != x ==> back'[y] == back[y]
    requires forall y: nat :: y != x ==> (y in list <==> y in lists[l])
    requires (back[x] == None || back[x] == Some(l)) && back'[x] == (if x in list then Some(l) else None)
    ensures Partitioned(back', lists[l := list])
  {
    var next := lists[l := list];
    forall k: nat, y: nat | k < |next| && y in next[k]
      ensures y < |back'| && back'[y] == Some(k)
    {
      assert y == x || y in lists[k];
      assert k != l ==> y in lists[k];
    }
  }

  lemma AfterMove(back: seq<Option<nat>>, lists: seq<seq<nat>>, x: nat, to: nat)
    requires Partitioned(back, lists) && x < |back| && to < |lists|
    ensures back[x].Some? ==> back[x].value < |lists|
    ensures Partitioned(back[x := Some(to)], MoveTo(lists, back[x], to, x))
  {
    if back[x] == Some(to) {
      assert back[x := Some(to)] == back;
    } else {
      AfterUnlink(back, lists, x);
      hide Without, Unlinked;
      var mid := Unlinked(lists, back[x], x);
      assert |mid| == |lists| by { UnlinkedLength(lists, back[x], x); }
      AfterLink(back[x := None], mid, x, to);
      assert back[x := None][x := Some(to)] == back[x := Some(to)];
    }
  }

  lemma UnlinkedLength(lists: seq<seq<nat>>, from: Option<nat>, x: nat)
    requires from.Some? ==> from.value < |lists|
    ensures |Unlinked(lists, from, x)| == |lists|
  {
  }

  lemma AfterLink(back: seq<Option<nat>>, lists: seq<seq<nat>>, x: nat, to: nat)
    requires Partitioned(back, lists) && x < |back| && to < |lists| && back[x] == None
    ensures Partitioned(back[x := Some(to)], lists[to := lists[to] + [x]])
  {
    var tail := lists[to] + [x];
    assert x !in lists[to];
    assert NoDup(tail);
    assert forall y :: y in tail <==> y in lists[to] || y == x;
    RelistOk(back, lists, back[x := Some(to)], to, tail, x);
  }
}
