/**
 * Stream identification (clause 6 of IEEE Std 802.1CB-2017): search trees of
 * ordinals, of tag/MAC/VID entries and of reserved hash slots, and the hardware
 * table they drive.
 */
module StreamIdent {
  import opened Common
  import Arith

  const INVALID_STRHDL: nat := 0xffff
  const MAX_ORD: nat := 0xffff

  datatype Tag = Tagged | Priority | All

  datatype Ident = Ident(mac: nat, tag: Tag, vid: nat) {
    predicate Valid() {
      mac < 0x1_0000_0000_0000 && vid < 0x10000
    }
  }

  /** sid_tmvt_o_entry: what one ordinal contributes to its tag/MAC/VID entry. */
  datatype Sub = Sub(strHdl: nat, ports: set<nat>)

  datatype Slot = Slot(row: nat, col: nat)

  /** sid_tmvt_entry; a second slot is reserved for tag "all" only. */
  datatype Tmvt = Tmvt(id: Ident, subs: map<nat, Sub>, slot0: Slot, slot1: Option<Slot>) {
    predicate Owns(s: Slot) {
      s == slot0 || slot1 == Some(s)
    }
  }

  datatype Ht = Ht(owner: int, used: bool)

  datatype TabEntry = TabEntry(used: bool, matchVlan: bool, mac: nat, vid: nat, strHdl: seq<nat>)

  /** Sizes, and the hash of (MAC, tagged, VID) before it is cut to the number of table rows. */
  datatype Config = Config(nrows: nat, portCnt: nat, maxStreams: nat, hash: (nat, bool, nat) -> (nat, nat, nat, nat)) {
    predicate Valid() {
      nrows > 0
    }
  }

  function TagCode(t: Tag): nat {
    match t case Tagged => 1 case Priority => 2 case All => 3
  }

  /** params_to_tmvt_key: MAC, two bits of tag and fourteen bits of VID. */
  function KeyOf(id: Ident): int {
    id.mac * 65536 + TagCode(id.tag) * 16384 + id.vid % 16384
  }

  lemma KeyInjective(a: Ident, b: Ident)
    requires a.vid < 16384 && b.vid < 16384 && KeyOf(a) == KeyOf(b)
    ensures a == b
  {
    assert TagCode(a.tag) == TagCode(b.tag);
  }

  /** Keys tell all identifications with VIDs below a limit apart exactly when the limit is at most 2^14. */
  lemma KeysDistinctIff(limit: nat)
    requires limit <= 0x10000
    ensures (forall a: Ident, b: Ident :: a.Valid() && b.Valid() && a.vid < limit && b.vid < limit && KeyOf(a) == KeyOf(b) ==> a == b)
            <==> limit <= 16384
  {
    if limit <= 16384 {
      forall a: Ident, b: Ident | a.Valid() && b.Valid() && a.vid < limit && b.vid < limit && KeyOf(a) == KeyOf(b)
        ensures a == b
      {
        KeyInjective(a, b);
      }
    } else {
      var a, b := Ident(0, Tagged, 16384), Ident(0, Tagged, 0);
      assert KeyOf(a) == KeyOf(b) && a != b;
    }
  }

  predicate MatchVlan(tag: Tag, vid: nat) {
    tag == Tagged && vid != 0
  }

  /** edgx_sid_calc_tab_rows: columns 0 and 1 only take tagged entries with a VID. */
  function Candidate(cfg: Config, id: Ident, sub: Tag, col: nat): Option<Slot>
    requires cfg.Valid() && col < 4
  {
    var h := cfg.hash(id.mac, sub == Tagged, id.vid);
    if col < 2 && !MatchVlan(sub, id.vid) then None
    else Some(Slot((if col == 0 then h.0 else if col == 1 then h.1 else if col == 2 then h.2 else h.3) % cfg.nrows, col))
  }

  predicate IsCandidate(cfg: Config, id: Ident, sub: Tag, s: Slot)
    requires cfg.Valid()
  {
    s.col < 4 && Candidate(cfg, id, sub, s.col) == Some(s)
  }

  /** The kind of frame the first slot of an entry is for; the second one is for priority-tagged frames. */
  function FirstTag(tag: Tag): Tag {
    if tag == All then Tagged else tag
  }

  // ---------------------------------------------------------------- wanted hardware rows

  predicate Serves(s: Sub, port: nat) {
    s.strHdl != INVALID_STRHDL && port + 1 in s.ports
  }

  function Serving(subs: map<nat, Sub>, port: nat): set<nat> {
    set o | o in subs && Serves(subs[o], port)
  }

  /** The handle of the lowest ordinal that has a valid handle and the port, 0 if there is none. */
  function PortHdl(subs: map<nat, Sub>, port: nat): nat {
    var o := Least(Serving(subs, port));
    if o.Some? then subs[o.value].strHdl else 0
  }

  predicate AnyServed(subs: map<nat, Sub>, portCnt: nat) {
    exists i :: 0 <= i < portCnt && Serving(subs, i) != {}
  }

  predicate RowMatches(cfg: Config, e: TabEntry, t: Tmvt, sub: Tag) {
    && e.used && e.mac == t.id.mac && e.vid == t.id.vid && e.matchVlan == MatchVlan(sub, t.id.vid)
    && |e.strHdl| == cfg.portCnt
    && forall i :: 0 <= i < cfg.portCnt ==> e.strHdl[i] == PortHdl(t.subs, i)
  }

  // ---------------------------------------------------------------- agreement of the trees

  ghost predicate OrdsAgree(ords: map<nat, int>, tmvts: map<int, Tmvt>) {
    && (forall o :: o in ords ==> ords[o] in tmvts && o in tmvts[ords[o]].subs)
    && (forall k, o :: k in tmvts && o in tmvts[k].subs ==> o in ords && ords[o] == k)
  }

  /** One slot at a hash candidate of the entry, or two distinct ones for tag "all". */
  ghost predicate SlotsOf(cfg: Config, t: Tmvt)
    requires cfg.Valid()
  {
    && IsCandidate(cfg, t.id, FirstTag(t.id.tag), t.slot0)
    && (t.id.tag == All <==> t.slot1.Some?)
    && (t.slot1.Some? ==> t.slot1.value != t.slot0 && IsCandidate(cfg, t.id, Priority, t.slot1.value))
  }

  ghost predicate SlotsAgree(cfg: Config, tmvts: map<int, Tmvt>, hts: map<Slot, Ht>)
    requires cfg.Valid()
  {
    && (forall k :: k in tmvts ==> SlotsOf(cfg, tmvts[k]))
    && (forall k, s :: k in tmvts && tmvts[k].Owns(s) ==> s in hts && hts[s].owner == k)
    && (forall s :: s in hts ==> hts[s].owner in tmvts && tmvts[hts[s].owner].Owns(s))
  }

  ghost predicate KeysAgree(tmvts: map<int, Tmvt>) {
    forall k :: k in tmvts ==> KeyOf(tmvts[k].id) == k
  }

  /** PortHdl when only some ordinals are looked at. */
  function PartHdl(subs: map<nat, Sub>, done: set<nat>, port: nat): nat {
    var o := Least(Serving(subs, port) * done);
    if o.Some? then subs[o.value].strHdl else 0
  }

  lemma PartHdlStep(subs: map<nat, Sub>, done: set<nat>, o: nat, port: nat)
    requires o in subs && o !in done && forall d :: d in done ==> o < d
    ensures PartHdl(subs, done + {o}, port) == if Serves(subs[o], port) then subs[o].strHdl else PartHdl(subs, done, port)
  {
    var s := Serving(subs, port);
    if Serves(subs[o], port) {
      assert o in s * (done + {o});
      assert Least(s * (done + {o})) == Some(o);
    } else {
      assert s * (done + {o}) == s * done;
    }
  }

  /** The loops of sid_gen_port_str_hdls: ordinals from the last to the first, lower ones overwrite. */
  method GenHdls(subs: map<nat, Sub>, portCnt: nat) returns (hdl: seq<nat>, found: bool)
    ensures |hdl| == portCnt && forall i :: 0 <= i < portCnt ==> hdl[i] == PortHdl(subs, i)
    ensures found <==> AnyServed(subs, portCnt)
  {
    hdl := seq(portCnt, _ => 0);
    found := false;
    var rest := subs.Keys;
    while rest != {}
      invariant rest <= subs.Keys && |hdl| == portCnt
      invariant forall o, d :: o in rest && d in subs.Keys - rest ==> o < d
      invariant forall i :: 0 <= i < portCnt ==> hdl[i] == PartHdl(subs, subs.Keys - rest, i)
      invariant found <==> exists i :: 0 <= i < portCnt && Serving(subs, i) * (subs.Keys - rest) != {}
      decreases rest
    {
      var o := Greatest(rest);
      var toe := subs[o];
      ghost var done := subs.Keys - rest;
      ghost var hdl0, found0 := hdl, found;
      for i := 0 to portCnt
        invariant |hdl| == portCnt
        invariant forall j :: 0 <= j < i ==> hdl[j] == if Serves(toe, j) then toe.strHdl else hdl0[j]
        invariant forall j :: i <= j < portCnt ==> hdl[j] == hdl0[j]
        invariant found <==> found0 || exists j :: 0 <= j < i && Serves(toe, j)
      {
        if toe.strHdl != INVALID_STRHDL && i + 1 in toe.ports {
          hdl := hdl[i := toe.strHdl];
          found := true;
          assert Serves(toe, i);
        }
      }
      rest := rest - {o};
      assert subs.Keys - rest == done + {o};
      forall i | 0 <= i < portCnt
        ensures hdl[i] == PartHdl(subs, subs.Keys - rest, i)
      {
        PartHdlStep(subs, done, o, i);
      }
      FoundStep(subs, done, o, portCnt);
    }
    assert subs.Keys - rest == subs.Keys;
    forall i | 0 <= i < portCnt
      ensures Serving(subs, i) * subs.Keys == Serving(subs, i)
    {
    }
  }

  lemma FoundStep(subs: map<nat, Sub>, done: set<nat>, o: nat, portCnt: nat)
    requires o in subs
    ensures (exists i :: 0 <= i < portCnt && Serving(subs, i) * (done + {o}) != {})
            <==> (exists i :: 0 <= i < portCnt && Serving(subs, i) * done != {}) || (exists j :: 0 <= j < portCnt && Serves(subs[o], j))
  {
    forall i | 0 <= i < portCnt
      ensures Serving(subs, i) * (done + {o}) != {} <==> Serving(subs, i) * done != {} || Serves(subs[o], i)
    {
      var s := Serving(subs, i);
      if s * done != {} {
        var x :| x in s * done;
        assert x in s * (done + {o});
      } else if Serves(subs[o], i) {
        assert o in s * (done + {o});
      } else {
        assert s * (done + {o}) == {};
      }
    }
  }

  // ---------------------------------------------------------------- changes to the trees

  /** The slots of an entry, reserved and unused. */
  function Reserve(hts: map<Slot, Ht>, k: int, t: Tmvt): map<Slot, Ht> {
    var one := hts[t.slot0 := Ht(k, false)];
    if t.slot1.Some? then one[t.slot1.value := Ht(k, false)] else one
  }

  lemma AgreeAfterEnter(cfg: Config, tmvts: map<int, Tmvt>, hts: map<Slot, Ht>, k: int, t: Tmvt)
    requires cfg.Valid() && SlotsAgree(cfg, tmvts, hts) && SlotsOf(cfg, t)
    requires k !in tmvts && forall s :: t.Owns(s) ==> s !in hts
    ensures SlotsAgree(cfg, tmvts[k := t], Reserve(hts, k, t))
  {
    hide SlotsOf;
    assert t.Owns(t.slot0) && (t.slot1.Some? ==> t.Owns(t.slot1.value));
  }

  lemma OrdsAfterEnter(ords: map<nat, int>, tmvts: map<int, Tmvt>, k: int, t: Tmvt)
    requires OrdsAgree(ords, tmvts) && k !in tmvts && t.subs == map[]
    ensures OrdsAgree(ords, tmvts[k := t])
  {
  }

  /** The slots of an entry are free again. */
  function Unreserve(hts: map<Slot, Ht>, t: Tmvt): map<Slot, Ht> {
    (if t.slot1.Some? then hts - {t.slot1.value} else hts) - {t.slot0}
  }

  lemma AgreeAfterLeave(cfg: Config, tmvts: map<int, Tmvt>, hts: map<Slot, Ht>, k: int)
    requires cfg.Valid() && SlotsAgree(cfg, tmvts, hts) && k in tmvts
    ensures SlotsAgree(cfg, tmvts - {k}, Unreserve(hts, tmvts[k]))
  {
    hide SlotsOf;
    var t := tmvts[k];
    var hts1 := Unreserve(hts, t);
    assert t.Owns(t.slot0) && (t.slot1.Some? ==> t.Owns(t.slot1.value));
    forall j, s | j in tmvts - {k} && (tmvts - {k})[j].Owns(s)
      ensures s in hts1 && hts1[s].owner == j
    {
      assert tmvts[j].Owns(s) && hts[s].owner == j && hts[t.slot0].owner == k;
    }
    forall s | s in hts1
      ensures hts1[s].owner in tmvts - {k} && (tmvts - {k})[hts1[s].owner].Owns(s)
    {
      assert s in hts && !t.Owns(s);
    }
  }

  lemma OwnSlots(cfg: Config, tmvts: map<int, Tmvt>, hts: map<Slot, Ht>, k: int)
    requires cfg.Valid() && SlotsAgree(cfg, tmvts, hts) && k in tmvts
    ensures SlotsOf(cfg, tmvts[k]) && forall s :: tmvts[k].Owns(s) ==> s in hts && hts[s].owner == k
    ensures tmvts[k].slot0 in hts && (tmvts[k].slot1.Some? ==> tmvts[k].slot1.value in hts && tmvts[k].slot1.value != tmvts[k].slot0)
  {
    hide IsCandidate;
    var t := tmvts[k];
    assert t.Owns(t.slot0) && (t.slot1.Some? ==> t.Owns(t.slot1.value));
  }

  lemma OrdsAfterLeave(ords: map<nat, int>, tmvts: map<int, Tmvt>, k: int)
    requires OrdsAgree(ords, tmvts) && k in tmvts && tmvts[k].subs == map[]
    ensures OrdsAgree(ords, tmvts - {k})
  {
  }

  function SetSub(tmvts: map<int, Tmvt>, k: int, o: nat, sub: Sub): map<int, Tmvt>
    requires k in tmvts
  {
    tmvts[k := tmvts[k].(subs := tmvts[k].subs[o := sub])]
  }

  lemma OrdsAfterSetSub(ords: map<nat, int>, tmvts: map<int, Tmvt>, k: int, o: nat, sub: Sub)
    requires OrdsAgree(ords, tmvts) && k in tmvts && (o in ords ==> ords[o] == k)
    ensures OrdsAgree(ords[o := k], SetSub(tmvts, k, o, sub))
  {
  }

  /** Two forests of entries that differ in ordinals only. */
  ghost predicate SameSlots(a: map<int, Tmvt>, b: map<int, Tmvt>) {
    a.Keys == b.Keys && forall k :: k in a ==> a[k].id == b[k].id && a[k].slot0 == b[k].slot0 && a[k].slot1 == b[k].slot1
  }

  lemma SlotsAfterSubs(cfg: Config, a: map<int, Tmvt>, b: map<int, Tmvt>, hts: map<Slot, Ht>)
    requires cfg.Valid() && SameSlots(a, b) && SlotsAgree(cfg, a, hts) && KeysAgree(a)
    ensures SlotsAgree(cfg, b, hts) && KeysAgree(b)
  {
    hide IsCandidate, KeyOf;
    assert forall k :: k in b ==> SlotsOf(cfg, a[k]) && b[k].id == a[k].id;
  }

  function DropSub(tmvts: map<int, Tmvt>, k: int, o: nat): map<int, Tmvt>
    requires k in tmvts
  {
    tmvts[k := tmvts[k].(subs := tmvts[k].subs - {o})]
  }

  lemma SlotsAfterFlags(cfg: Config, tmvts: map<int, Tmvt>, a: map<Slot, Ht>, b: map<Slot, Ht>)
    requires cfg.Valid() && SlotsAgree(cfg, tmvts, a)
    requires a.Keys == b.Keys && forall s :: s in a ==> a[s].owner == b[s].owner
    ensures SlotsAgree(cfg, tmvts, b)
  {
    hide SlotsOf;
  }

  lemma OrdsAfterDropSub(ords: map<nat, int>, tmvts: map<int, Tmvt>, o: nat)
    requires OrdsAgree(ords, tmvts) && o in ords
    ensures OrdsAgree(ords - {o}, DropSub(tmvts, ords[o], o))
  {
  }

  // ---------------------------------------------------------------- where entries are kept

  /** The slots of an entry. */
  datatype Places = Places(slot0: Slot, slot1: Option<Slot>)

  /** The first candidate slot from a column on that is not taken. */
  function FirstFree(cfg: Config, id: Ident, sub: Tag, taken: set<Slot>, col: nat): Option<Slot>
    requires cfg.Valid() && col <= 4
    decreases 4 - col
  {
    if col == 4 then None
    else
      var c := Candidate(cfg, id, sub, col);
      if c.Some? && c.value !in taken then c else FirstFree(cfg, id, sub, taken, col + 1)
  }

  /** The places of a new entry. The first slot of tag "all" is chosen without looking at the second one. */
  function Reserved(cfg: Config, taken: set<Slot>, id: Ident, mem: Mem): (Status, Option<Places>)
    requires cfg.Valid()
  {
    var s := FirstFree(cfg, id, FirstTag(id.tag), taken, 0);
    if s.None? then (ENoSpc, None)
    else if !mem.ht0 then (ENoMem, None)
    else if id.tag != All then (Ok, Some(Places(s.value, None)))
    else
      var t := FirstFree(cfg, id, Priority, taken + {s.value}, 0);
      if t.None? then (ENoSpc, None)
      else if !mem.ht1 then (ENoMem, None)
      else (Ok, Some(Places(s.value, t)))
  }

  function Placed(cfg: Config, taken: set<Slot>, id: Ident, mem: Mem): (Status, Option<Places>)
    requires cfg.Valid()
  {
    if !mem.tmvt then (ENoMem, None) else Reserved(cfg, taken, id, mem)
  }

  lemma {:induction false} FirstFreeIs(cfg: Config, id: Ident, sub: Tag, taken: set<Slot>, col: nat)
    requires cfg.Valid() && col <= 4
    ensures var s := FirstFree(cfg, id, sub, taken, col);
            && (s.None? <==> forall i :: col <= i < 4 && Candidate(cfg, id, sub, i).Some? ==> Candidate(cfg, id, sub, i).value in taken)
            && (s.Some? ==> IsCandidate(cfg, id, sub, s.value) && s.value !in taken && col <= s.value.col)
    decreases 4 - col
  {
    hide Candidate;
    if col < 4 {
      FirstFreeIs(cfg, id, sub, taken, col + 1);
      CandidateCol(cfg, id, sub, col);
    }
  }

  lemma CandidateCol(cfg: Config, id: Ident, sub: Tag, col: nat)
    requires cfg.Valid() && col < 4
    ensures Candidate(cfg, id, sub, col).Some? ==> Candidate(cfg, id, sub, col).value.col == col
  {
  }

  /** A candidate that is free, after columns that are not, is the first free one. */
  lemma {:induction false} FirstFreeAt(cfg: Config, id: Ident, sub: Tag, taken: set<Slot>, col: nat, at: nat)
    requires cfg.Valid() && col <= at < 4
    requires forall i :: col <= i < at && Candidate(cfg, id, sub, i).Some? ==> Candidate(cfg, id, sub, i).value in taken
    requires Candidate(cfg, id, sub, at).Some? && Candidate(cfg, id, sub, at).value !in taken
    ensures FirstFree(cfg, id, sub, taken, col) == Candidate(cfg, id, sub, at)
    decreases at - col
  {
    hide Candidate;
    if col < at {
      FirstFreeAt(cfg, id, sub, taken, col + 1, at);
    }
  }

  function PlacesOf(tmvts: map<int, Tmvt>): map<int, Places> {
    map k | k in tmvts :: Places(tmvts[k].slot0, tmvts[k].slot1)
  }

  function Taken(places: map<int, Places>): set<Slot> {
    (set k | k in places :: places[k].slot0) + (set k | k in places && places[k].slot1.Some? :: places[k].slot1.value)
  }

  lemma TakenIsReserved(cfg: Config, tmvts: map<int, Tmvt>, hts: map<Slot, Ht>)
    requires cfg.Valid() && SlotsAgree(cfg, tmvts, hts)
    ensures Taken(PlacesOf(tmvts)) == hts.Keys
  {
    hide SlotsOf;
    var places := PlacesOf(tmvts);
    forall s
      ensures s in Taken(places) <==> s in hts
    {
      if s in Taken(places) {
        var k :| k in places && (places[k].slot0 == s || places[k].slot1 == Some(s));
        assert tmvts[k].Owns(s);
      }
      if s in hts {
        var k := hts[s].owner;
        assert tmvts[k].Owns(s) && places[k] == Places(tmvts[k].slot0, tmvts[k].slot1);
      }
    }
  }

  // ---------------------------------------------------------------- the driver

  /** The combinations of tag and VID that a create accepts. */
  predicate Supported(id: Ident) {
    id.tag == Tagged || id.vid == 0
  }

  /** What a user configured under one ordinal. */
  datatype Item = Item(id: Ident, strHdl: nat, ports: set<nat>)

  /** Which of the allocations of a create succeed. */
  datatype Mem = Mem(tmvt: bool, ht0: bool, ht1: bool, ord: bool)

  /** What the user has configured. */
  function ItemsOf(ords: map<nat, int>, tmvts: map<int, Tmvt>): map<nat, Item> {
    map o | o in ords && ords[o] in tmvts && o in tmvts[ords[o]].subs ::
      Item(tmvts[ords[o]].id, tmvts[ords[o]].subs[o].strHdl, tmvts[ords[o]].subs[o].ports)
  }

  lemma ItemsAfterEnter(ords: map<nat, int>, tmvts: map<int, Tmvt>, k: int, t: Tmvt)
    requires OrdsAgree(ords, tmvts) && k !in tmvts
    ensures ItemsOf(ords, tmvts[k := t]) == ItemsOf(ords, tmvts)
  {
  }

  lemma ItemsAfterSetSub(ords: map<nat, int>, tmvts: map<int, Tmvt>, k: int, o: nat, sub: Sub)
    requires OrdsAgree(ords, tmvts) && k in tmvts && (o in ords ==> ords[o] == k)
    ensures ItemsOf(ords[o := k], SetSub(tmvts, k, o, sub)) == ItemsOf(ords, tmvts)[o := Item(tmvts[k].id, sub.strHdl, sub.ports)]
  {
  }

  lemma ItemsAfterDropSub(ords: map<nat, int>, tmvts: map<int, Tmvt>, o: nat)
    requires OrdsAgree(ords, tmvts) && o in ords
    ensures ItemsOf(ords - {o}, DropSub(tmvts, ords[o], o)) == ItemsOf(ords, tmvts) - {o}
  {
  }

  lemma ItemsAfterLeave(ords: map<nat, int>, tmvts: map<int, Tmvt>, k: int)
    requires OrdsAgree(ords, tmvts) && k in tmvts && tmvts[k].subs == map[]
    ensures ItemsOf(ords, tmvts - {k}) == ItemsOf(ords, tmvts)
  {
  }

  lemma EnteredItemsSame(ords: map<nat, int>, a: map<int, Tmvt>, b: map<int, Tmvt>, k: int)
    requires OrdsAgree(ords, a) && (b == a || (k !in a && k in b && b == a[k := b[k]]))
    ensures ItemsOf(ords, b) == ItemsOf(ords, a)
  {
    if b != a {
      ItemsAfterEnter(ords, a, k, b[k]);
    }
  }

  lemma OrdinalItem(ords: map<nat, int>, tmvts: map<int, Tmvt>, o: nat)
    requires OrdsAgree(ords, tmvts) && o in ords
    ensures ords[o] in tmvts && o in tmvts[ords[o]].subs && o in ItemsOf(ords, tmvts)
    ensures ItemsOf(ords, tmvts)[o].id == tmvts[ords[o]].id
  {
  }

  /** The ordinals configured with a key are those of the entry of that key. */
  lemma FiledOrdinals(ords: map<nat, int>, tmvts: map<int, Tmvt>, id: Ident)
    requires OrdsAgree(ords, tmvts) && KeysAgree(tmvts)
    ensures SameKey(ItemsOf(ords, tmvts), id) == if KeyOf(id) in tmvts then tmvts[KeyOf(id)].subs.Keys else {}
  {
    hide KeyOf;
    var filed := if KeyOf(id) in tmvts then tmvts[KeyOf(id)].subs.Keys else {};
    forall o
      ensures o in SameKey(ItemsOf(ords, tmvts), id) <==> o in filed
    {
      if o in ords {
        OrdinalItem(ords, tmvts, o);
        OwnKey(tmvts, ords[o]);
      }
    }
  }

  lemma ConfiguredOrdinals(ords: map<nat, int>, tmvts: map<int, Tmvt>)
    requires OrdsAgree(ords, tmvts)
    ensures ItemsOf(ords, tmvts).Keys == ords.Keys && PlacesOf(tmvts).Keys == tmvts.Keys
  {
  }

  lemma OwnKey(tmvts: map<int, Tmvt>, k: int)
    requires KeysAgree(tmvts) && k in tmvts
    ensures KeyOf(tmvts[k].id) == k
  {
  }

  lemma LeftOne(tmvts: map<int, Tmvt>, k: int)
    ensures PlacesOf(tmvts - {k}) == PlacesOf(tmvts) - {k}
  {
  }

  lemma PlacesEntered(tmvts: map<int, Tmvt>, k: int, t: Tmvt)
    ensures PlacesOf(tmvts[k := t]) == PlacesOf(tmvts)[k := Places(t.slot0, t.slot1)]
  {
  }

  lemma SamePlaces(a: map<int, Tmvt>, b: map<int, Tmvt>)
    requires SameSlots(a, b)
    ensures PlacesOf(a) == PlacesOf(b)
  {
    assert PlacesOf(a).Keys == PlacesOf(b).Keys;
    assert forall k :: k in a ==> PlacesOf(a)[k] == PlacesOf(b)[k];
  }

  lemma NothingLeft(cfg: Config, tmvts: map<int, Tmvt>, hts: map<Slot, Ht>)
    requires cfg.Valid() && OrdsAgree(map[], tmvts) && SlotsAgree(cfg, tmvts, hts)
    requires forall k :: k in tmvts ==> exists o :: o in tmvts[k].subs
    ensures tmvts == map[] && hts == map[]
  {
    forall k | k in tmvts
      ensures false
    {
      var o :| o in tmvts[k].subs;
    }
    assert tmvts == map[];
  }

  lemma AbsentOrdinal(ords: map<nat, int>, tmvts: map<int, Tmvt>, k: int, o: nat)
    requires OrdsAgree(ords, tmvts) && o !in ords && k in tmvts
    ensures o !in tmvts[k].subs
  {
  }

  // ---------------------------------------------------------------- requests

  datatype Request =
    | Create(o: nat, id: Ident, isNull: bool, mem: Mem)
    | Delete(o: nat)
    | SetHdl(o: nat, hdl: nat)
    | SetPort(o: nat, port: nat, outFacIn: bool, clear: bool)

  predicate SmallVids(items: map<nat, Item>) {
    forall o :: o in items ==> items[o].id.vid < 16384
  }

  /** Configured ordinals whose identification has the same key. */
  function SameKey(items: map<nat, Item>, id: Ident): set<nat> {
    set o | o in items && KeyOf(items[o].id) == KeyOf(id)
  }

  /** The identification a new ordinal is filed under: that of the ordinals that share its key, its own if
      there are none. */
  function IdentFor(items: map<nat, Item>, id: Ident): Ident {
    var o := Least(SameKey(items, id));
    if o.Some? then items[o.value].id else id
  }

  /** A new ordinal is filed under its own identification whatever is configured with VIDs below 2^14 ... */
  lemma OwnIdent(items: map<nat, Item>, id: Ident)
    requires SmallVids(items) && id.vid < 16384
    ensures IdentFor(items, id) == id
  {
    var o := Least(SameKey(items, id));
    if o.Some? {
      KeyInjective(items[o.value].id, id);
    }
  }

  /** ... and exactly if no ordinal with the same key and another identification came first. */
  lemma OwnIdentIff(items: map<nat, Item>, id: Ident)
    requires forall o, p :: o in items && p in items && KeyOf(items[o].id) == KeyOf(items[p].id) ==> items[o].id == items[p].id
    ensures IdentFor(items, id) == id <==> forall o :: o in items && KeyOf(items[o].id) == KeyOf(id) ==> items[o].id == id
  {
    hide KeyOf;
    var o := Least(SameKey(items, id));
    forall p | p in items && KeyOf(items[p].id) == KeyOf(id)
      ensures o.Some? && items[o.value].id == items[p].id
    {
      assert p in SameKey(items, id);
    }
  }

  /** What an accepted request does to the configured items; a rejected one does nothing. */
  function Configure(items: map<nat, Item>, r: Request, st: Status): map<nat, Item> {
    if st != Ok then items
    else
      match r
      case Create(o, id, _, _) => items[o := Item(IdentFor(items, id), INVALID_STRHDL, {})]
      case Delete(o) => items - {o}
      case SetHdl(o, hdl) => if o in items then items[o := items[o].(strHdl := hdl)] else items
      case SetPort(o, port, _, clear) =>
        if o in items
        then items[o := items[o].(ports := if clear then items[o].ports - {port} else items[o].ports + {port})]
        else items
  }

  /** The user's view of a bridge: what is configured, and the slots of each key in use. */
  datatype Bridge = Bridge(items: map<nat, Item>, places: map<int, Places>)

  /** The reply to a request. */
  function Reply(cfg: Config, b: Bridge, r: Request): Status
    requires cfg.Valid()
  {
    match r
    case Create(o, id, isNull, mem) =>
      var placed := if KeyOf(id) in b.places then Ok else Placed(cfg, Taken(b.places), id, mem).0;
      if o > MAX_ORD || !Supported(id) || !isNull then EInval
      else if o in b.items then EExist
      else if placed != Ok then placed
      else if !mem.ord then ENoMem else Ok
    case Delete(o) => if o > MAX_ORD then EInval else if o !in b.items then ENoEnt else Ok
    case SetHdl(o, hdl) =>
      if o > MAX_ORD then EInval else if o !in b.items then ENoEnt else if hdl >= cfg.maxStreams then EInval else Ok
    case SetPort(o, port, outFacIn, _) =>
      if port > cfg.portCnt || !outFacIn then EInval else if o !in b.items then ENoEnt else Ok
  }

  /** The slots of an ordinal's key are given up if no other ordinal has that key. */
  function LeftPlaces(b: Bridge, o: nat): map<int, Places>
    requires o in b.items
  {
    if SameKey(b.items - {o}, b.items[o].id) == {} then b.places - {KeyOf(b.items[o].id)} else b.places
  }

  /** Slots are reserved with the first ordinal of a key and released with the last one. */
  function PlacesAfter(cfg: Config, b: Bridge, r: Request): map<int, Places>
    requires cfg.Valid()
  {
    if Reply(cfg, b, r) != Ok then b.places
    else
      match r
      case Create(o, id, _, mem) =>
        if KeyOf(id) in b.places then b.places
        else b.places[KeyOf(id) := Placed(cfg, Taken(b.places), id, mem).1.value]
      case Delete(o) => LeftPlaces(b, o)
      case _ => b.places
  }

  function Step(cfg: Config, b: Bridge, r: Request): (Status, Bridge)
    requires cfg.Valid()
  {
    var st := Reply(cfg, b, r);
    (st, Bridge(Configure(b.items, r, st), PlacesAfter(cfg, b, r)))
  }

  function After(cfg: Config, rs: seq<Request>): Bridge
    requires cfg.Valid()
  {
    if rs == [] then Bridge(map[], map[]) else Step(cfg, After(cfg, rs[..|rs| - 1]), rs[|rs| - 1]).1
  }

  /** The replies to a history of requests. */
  function Replies(cfg: Config, rs: seq<Request>): (sts: seq<Status>)
    requires cfg.Valid()
    ensures |sts| == |rs|
  {
    if rs == [] then []
    else Replies(cfg, rs[..|rs| - 1]) + [Reply(cfg, After(cfg, rs[..|rs| - 1]), rs[|rs| - 1])]
  }

  const UNUSED_ENTRY: TabEntry := TabEntry(false, false, 0, 0, [])

  class SidBridge {
    const cfg: Config
    var ords: map<nat, int>            // rb_o_root
    var tmvts: map<int, Tmvt>          // rb_tmvt_root
    var hts: map<Slot, Ht>             // rb_ht_root
    var totalCnt: int
    const tab: array2<TabEntry>        // hardware

    ghost predicate Shape() {
      cfg.Valid() && tab.Length0 == cfg.nrows && tab.Length1 == 4
    }

    ghost predicate Trees()
      requires Shape()
      reads this`ords, this`tmvts, this`hts, this`totalCnt
    {
      OrdsAgree(ords, tmvts) && SlotsAgree(cfg, tmvts, hts) && KeysAgree(tmvts) && totalCnt == |ords|
    }

    /** The `used` flags of reserved slots mirror the hardware; all other hardware rows are unused. */
    ghost predicate FlagsMirror()
      requires Shape()
      reads this`hts, tab
    {
      && (forall s :: s in hts ==> s.row < cfg.nrows && s.col < 4)
      && (forall r, c :: 0 <= r < cfg.nrows && 0 <= c < 4 ==>
            (tab[r, c].used <==> Slot(r, c) in hts && hts[Slot(r, c)].used))
    }

    /** A hardware row of an entry holds the handles that its ordinals ask for, or is unused if they ask for none. */
    ghost predicate SlotOk(t: Tmvt, sub: Tag, s: Slot)
      requires Shape()
      reads tab
    {
      s.row < cfg.nrows && s.col < 4
      && if AnyServed(t.subs, cfg.portCnt) then RowMatches(cfg, tab[s.row, s.col], t, sub) else !tab[s.row, s.col].used
    }

    ghost predicate RowOk(t: Tmvt)
      requires Shape()
      reads tab
    {
      SlotOk(t, FirstTag(t.id.tag), t.slot0) && (t.slot1.Some? ==> SlotOk(t, Priority, t.slot1.value))
    }

    ghost predicate RowsOk(but: set<int>)
      requires Shape()
      reads this`tmvts, tab
    {
      forall k :: k in tmvts && k !in but ==> RowOk(tmvts[k])
    }

    ghost predicate NoneEmpty(but: set<int>)
      reads this`tmvts
    {
      forall k :: k in tmvts && k !in but ==> exists o :: o in tmvts[k].subs
    }

    ghost predicate Valid()
      reads this, tab
    {
      Shape() && Trees() && FlagsMirror() && RowsOk({}) && NoneEmpty({})
    }

    ghost function Abs(): Bridge
      reads this`ords, this`tmvts
    {
      Bridge(ItemsOf(ords, tmvts), PlacesOf(tmvts))
    }

    constructor (cfg: Config)
      requires cfg.Valid()
      ensures Valid() && this.cfg == cfg && Abs() == Bridge(map[], map[]) && fresh(tab)
    {
      this.cfg := cfg;
      ords, tmvts, hts, totalCnt := map[], map[], map[], 0;
      tab := new TabEntry[cfg.nrows, 4]((r, c) => UNUSED_ENTRY);
    }

    // ---------------------------------------------------------------- hash slots

    /** sid_ht_deactivate */
    method HtDeactivate(s: Slot)
      requires Shape() && FlagsMirror() && s in hts
      modifies this`hts, tab
      ensures FlagsMirror() && hts == old(hts)[s := old(hts)[s].(used := false)]
      ensures forall r, c :: 0 <= r < cfg.nrows && 0 <= c < 4 && Slot(r, c) != s ==> tab[r, c] == old(tab[r, c])
      ensures !old(hts)[s].used ==> tab[s.row, s.col] == old(tab[s.row, s.col])
    {
      if !hts[s].used {
        return;
      }
      tab[s.row, s.col] := UNUSED_ENTRY;
      hts := hts[s := hts[s].(used := false)];
    }

    /** sid_ht_activate */
    method HtActivate(s: Slot, sub: Tag, t: Tmvt, hdl: seq<nat>)
      requires Shape() && FlagsMirror() && s in hts
      requires |hdl| == cfg.portCnt && forall i :: 0 <= i < cfg.portCnt ==> hdl[i] == PortHdl(t.subs, i)
      modifies this`hts, tab
      ensures FlagsMirror() && hts == old(hts)[s := old(hts)[s].(used := true)]
      ensures RowMatches(cfg, tab[s.row, s.col], t, sub)
      ensures forall r, c :: 0 <= r < cfg.nrows && 0 <= c < 4 && Slot(r, c) != s ==> tab[r, c] == old(tab[r, c])
    {
      tab[s.row, s.col] := TabEntry(true, MatchVlan(sub, t.id.vid), t.id.mac, t.id.vid, hdl);
      hts := hts[s := hts[s].(used := true)];
    }

    /** The rows of an entry, written with its handles. */
    method ActivateRows(t: Tmvt, hdl: seq<nat>)
      requires Shape() && FlagsMirror() && SlotsOf(cfg, t) && forall s :: t.Owns(s) ==> s in hts
      requires |hdl| == cfg.portCnt && (forall i :: 0 <= i < cfg.portCnt ==> hdl[i] == PortHdl(t.subs, i)) && AnyServed(t.subs, cfg.portCnt)
      modifies this`hts, tab
      ensures FlagsMirror() && RowOk(t)
      ensures hts.Keys == old(hts).Keys && forall s :: s in hts ==> hts[s].owner == old(hts)[s].owner
      ensures forall r, c :: 0 <= r < cfg.nrows && 0 <= c < 4 && !t.Owns(Slot(r, c)) ==> tab[r, c] == old(tab[r, c])
    {
      hide PortHdl, AnyServed, IsCandidate, MatchVlan, RowMatches;
      assert t.Owns(t.slot0) && (t.slot1.Some? ==> t.Owns(t.slot1.value));
      if t.id.tag == All {
        HtActivate(t.slot0, Tagged, t, hdl);
        HtActivate(t.slot1.value, Priority, t, hdl);
      } else {
        HtActivate(t.slot0, t.id.tag, t, hdl);
      }
    }

    /** The rows of an entry, cleared. */
    method DeactivateRows(t: Tmvt)
      requires Shape() && FlagsMirror() && SlotsOf(cfg, t) && forall s :: t.Owns(s) ==> s in hts
      requires !AnyServed(t.subs, cfg.portCnt)
      modifies this`hts, tab
      ensures FlagsMirror() && RowOk(t)
      ensures hts.Keys == old(hts).Keys && forall s :: s in hts ==> hts[s].owner == old(hts)[s].owner
      ensures forall r, c :: 0 <= r < cfg.nrows && 0 <= c < 4 && !t.Owns(Slot(r, c)) ==> tab[r, c] == old(tab[r, c])
    {
      hide AnyServed, IsCandidate, RowMatches;
      assert t.Owns(t.slot0) && (t.slot1.Some? ==> t.Owns(t.slot1.value));
      HtDeactivate(t.slot0);
      if t.id.tag == All {
        HtDeactivate(t.slot1.value);
      }
    }

    /** sid_gen_port_str_hdls: recompute the rows of one entry. */
    method GenPortStrHdls(k: int)
      requires Shape() && FlagsMirror() && k in tmvts && SlotsOf(cfg, tmvts[k]) && forall s :: tmvts[k].Owns(s) ==> s in hts
      modifies this`hts, tab
      ensures FlagsMirror() && RowOk(tmvts[k])
      ensures hts.Keys == old(hts).Keys && forall s :: s in hts ==> hts[s].owner == old(hts)[s].owner
      ensures forall r, c :: 0 <= r < cfg.nrows && 0 <= c < 4 && !tmvts[k].Owns(Slot(r, c)) ==> tab[r, c] == old(tab[r, c])
    {
      hide PortHdl, AnyServed, SlotsOf, FlagsMirror, RowOk;
      var t := tmvts[k];
      var hdl, found := GenHdls(t.subs, cfg.portCnt);
      if found {
        ActivateRows(t, hdl);
      } else {
        DeactivateRows(t);
      }
    }

    /** sid_ht_release */
    method HtRelease(s: Slot)
      requires Shape() && FlagsMirror() && s in hts
      modifies this`hts, tab
      ensures FlagsMirror() && hts == old(hts) - {s}
      ensures forall r, c :: 0 <= r < cfg.nrows && 0 <= c < 4 && Slot(r, c) != s ==> tab[r, c] == old(tab[r, c])
      ensures !old(hts)[s].used ==> tab[s.row, s.col] == old(tab[s.row, s.col])
    {
      if hts[s].used {
        HtDeactivate(s);
      }
      hts := hts - {s};
    }

    /** sid_ht_create: reserve the first free candidate column. */
    method HtCreate(k: int, id: Ident, sub: Tag, mem: bool) returns (st: Status, s: Slot)
      requires Shape() && FlagsMirror()
      modifies this`hts
      ensures var free := FirstFree(cfg, id, sub, old(hts).Keys, 0);
              && st == (if free.None? then ENoSpc else if !mem then ENoMem else Ok)
              && (st == Ok ==> free == Some(s))
      ensures st == ENoSpc <==> forall i :: 0 <= i < 4 && Candidate(cfg, id, sub, i).Some? ==> Candidate(cfg, id, sub, i).value in old(hts)
      ensures st != Ok ==> hts == old(hts)
      ensures st == Ok ==> IsCandidate(cfg, id, sub, s) && s !in old(hts) && hts == old(hts)[s := Ht(k, false)] && FlagsMirror()
    {
      var i := 0;
      s := Slot(0, 0);
      while i < 4
        modifies {}
        invariant 0 <= i <= 4
        invariant forall j :: 0 <= j < i && Candidate(cfg, id, sub, j).Some? ==> Candidate(cfg, id, sub, j).value in hts
      {
        var c := Candidate(cfg, id, sub, i);
        if c.Some? && c.value !in hts {
          s := c.value;
          break;
        }
        i := i + 1;
      }
      FirstFreeIs(cfg, id, sub, hts.Keys, 0);
      if i == 4 {
        return ENoSpc, s;
      }
      assert Candidate(cfg, id, sub, i).value !in hts;
      FirstFreeAt(cfg, id, sub, hts.Keys, 0, i);
      if !mem {
        return ENoMem, s;
      }
      hts := hts[s := Ht(k, false)];
      FreshFlag(old(hts), s, k);
      st := Ok;
    }

    lemma FreshFlag(h: map<Slot, Ht>, s: Slot, k: int)
      requires Shape() && s.row < cfg.nrows && s.col < 4 && s !in h && hts == h[s := Ht(k, false)]
      requires forall x :: x in h ==> x.row < cfg.nrows && x.col < 4
      requires forall r, c :: 0 <= r < cfg.nrows && 0 <= c < 4 ==> (tab[r, c].used <==> Slot(r, c) in h && h[Slot(r, c)].used)
      ensures FlagsMirror()
    {
    }

    // ---------------------------------------------------------------- tag/MAC/VID entries

    /** The reservations of sid_tmvt_create: on failure everything is as before. */
    method ReserveSlots(k: int, id: Ident, mem: Mem) returns (st: Status, s0: Slot, s1: Option<Slot>)
      requires Shape() && FlagsMirror()
      modifies this`hts, tab
      ensures FlagsMirror()
      ensures forall r, c :: 0 <= r < cfg.nrows && 0 <= c < 4 ==> tab[r, c] == old(tab[r, c])
      ensures (st, if st == Ok then Some(Places(s0, s1)) else None) == Reserved(cfg, old(hts).Keys, id, mem)
      ensures st != Ok ==> hts == old(hts)
      ensures st == Ok ==> var t := Tmvt(id, map[], s0, s1);
                           SlotsOf(cfg, t) && hts == Reserve(old(hts), k, t) && forall s :: t.Owns(s) ==> s !in old(hts)
    {
      hide IsCandidate, Candidate, FirstFree;
      s1 := None;
      if id.tag == All {
        st, s0 := HtCreate(k, id, Tagged, mem.ht0);
        if st != Ok {
          return;
        }
        assert hts.Keys == old(hts).Keys + {s0};
        var second;
        st, second := HtCreate(k, id, Priority, mem.ht1);
        if st != Ok {
          HtRelease(s0);
          return;
        }
        s1 := Some(second);
      } else {
        st, s0 := HtCreate(k, id, id.tag, mem.ht0);
      }
    }

    /** sid_tmvt_create */
    method TmvtCreate(k: int, id: Ident, mem: Mem) returns (st: Status)
      requires Shape() && Trees() && FlagsMirror() && k !in tmvts && k == KeyOf(id)
      modifies this`hts, this`tmvts, tab
      ensures Trees() && FlagsMirror()
      ensures forall r, c :: 0 <= r < cfg.nrows && 0 <= c < 4 ==> tab[r, c] == old(tab[r, c])
      ensures st == Placed(cfg, old(hts).Keys, id, mem).0
      ensures st == Ok ==> k in tmvts && Some(Places(tmvts[k].slot0, tmvts[k].slot1)) == Placed(cfg, old(hts).Keys, id, mem).1
      ensures st != Ok ==> hts == old(hts) && tmvts == old(tmvts)
      ensures st == Ok ==> k in tmvts && tmvts == old(tmvts)[k := tmvts[k]] && tmvts[k].id == id && tmvts[k].subs == map[]
      ensures st == Ok ==> hts == Reserve(old(hts), k, tmvts[k]) && forall s :: tmvts[k].Owns(s) ==> s !in old(hts)
    {
      hide IsCandidate, KeyOf, FlagsMirror, SlotsOf, SlotsAgree, OrdsAgree, Reserved;
      if !mem.tmvt {
        return ENoMem;
      }
      var s0, s1;
      st, s0, s1 := ReserveSlots(k, id, mem);
      if st != Ok {
        return;
      }
      var t := Tmvt(id, map[], s0, s1);
      AgreeAfterEnter(cfg, tmvts, old(hts), k, t);
      OrdsAfterEnter(ords, tmvts, k, t);
      tmvts := tmvts[k := t];
    }

    method ReleaseSlots(t: Tmvt)
      requires Shape() && FlagsMirror() && t.slot0 in hts
      requires t.slot1.Some? ==> t.slot1.value in hts && t.slot1.value != t.slot0
      modifies this`hts, tab
      ensures FlagsMirror() && hts == Unreserve(old(hts), t)
      ensures forall r, c :: 0 <= r < cfg.nrows && 0 <= c < 4 ==>
                tab[r, c] == old(tab[r, c]) || (t.Owns(Slot(r, c)) && Slot(r, c) in old(hts) && old(hts)[Slot(r, c)].used)
    {
      if t.slot1.Some? {
        HtRelease(t.slot1.value);
      }
      HtRelease(t.slot0);
    }

    /** sid_tmvt_release */
    method TmvtRelease(k: int)
      requires Shape() && Trees() && FlagsMirror() && k in tmvts && tmvts[k].subs == map[]
      modifies this`hts, this`tmvts, tab
      ensures Trees() && FlagsMirror()
      ensures tmvts == old(tmvts) - {k} && hts == Unreserve(old(hts), old(tmvts)[k])
      ensures forall r, c :: 0 <= r < cfg.nrows && 0 <= c < 4 ==>
                tab[r, c] == old(tab[r, c])
                || (old(tmvts)[k].Owns(Slot(r, c)) && Slot(r, c) in old(hts) && old(hts)[Slot(r, c)].used)
    {
      hide IsCandidate, KeyOf, FlagsMirror, SlotsAgree, OrdsAgree, Unreserve;
      var t := tmvts[k];
      OwnSlots(cfg, tmvts, hts, k);
      AgreeAfterLeave(cfg, tmvts, hts, k);
      OrdsAfterLeave(ords, tmvts, k);
      ReleaseSlots(t);
      tmvts := tmvts - {k};
    }

    // ---------------------------------------------------------------- ordinals

    /** sid_o_create */
    method OCreate(o: nat, k: int, mem: bool) returns (st: Status)
      requires Shape() && Trees() && o !in ords && k in tmvts
      modifies this`ords, this`tmvts, this`totalCnt
      ensures Trees()
      ensures st == if mem then Ok else ENoMem
      ensures st == Ok ==> ords == old(ords)[o := k] && tmvts == SetSub(old(tmvts), k, o, Sub(INVALID_STRHDL, {}))
      ensures st != Ok ==> unchanged(`ords) && unchanged(`tmvts) && unchanged(`totalCnt)
    {
      hide SlotsAgree, OrdsAgree;
      if !mem {
        return ENoMem;
      }
      var sub := Sub(INVALID_STRHDL, {});
      OrdsAfterSetSub(ords, tmvts, k, o, sub);
      SlotsAfterSubs(cfg, tmvts, SetSub(tmvts, k, o, sub), hts);
      ords := ords[o := k];
      tmvts := SetSub(tmvts, k, o, sub);
      totalCnt := totalCnt + 1;
      st := Ok;
    }

    /** sid_o_release */
    method ORelease(o: nat)
      requires Shape() && Trees() && o in ords
      modifies this`ords, this`tmvts, this`totalCnt
      ensures Trees()
      ensures ords == old(ords) - {o} && tmvts == DropSub(old(tmvts), old(ords)[o], o)
    {
      assert ords[o] in tmvts;
      hide SlotsAgree, OrdsAgree;
      OrdsAfterDropSub(ords, tmvts, o);
      SlotsAfterSubs(cfg, tmvts, DropSub(tmvts, ords[o], o), hts);
      tmvts := DropSub(tmvts, ords[o], o);
      ords := ords - {o};
      totalCnt := totalCnt - 1;
    }

    /** Entries that ask the same of every port have the same rows. */
    lemma SameRows(a: Tmvt, b: Tmvt)
      requires Shape() && RowOk(a)
      requires a.id == b.id && a.slot0 == b.slot0 && a.slot1 == b.slot1
      requires forall i :: Serving(a.subs, i) == Serving(b.subs, i) && PortHdl(a.subs, i) == PortHdl(b.subs, i)
      ensures RowOk(b)
    {
      hide Serving, PortHdl;
    }

    lemma FreshOrdinalAsksNothing(subs: map<nat, Sub>, o: nat, i: nat)
      requires o !in subs
      ensures Serving(subs[o := Sub(INVALID_STRHDL, {})], i) == Serving(subs, i)
      ensures PortHdl(subs[o := Sub(INVALID_STRHDL, {})], i) == PortHdl(subs, i)
    {
    }

    // ---------------------------------------------------------------- user requests

    /** A just entered entry asks for nothing, and its reserved rows are unused. */
    lemma FreshEntryRows(h: map<Slot, Ht>, k: int)
      requires Shape() && FlagsMirror() && k in tmvts && tmvts[k].subs == map[] && hts == Reserve(h, k, tmvts[k])
      requires SlotsOf(cfg, tmvts[k])
      ensures RowOk(tmvts[k])
    {
      var t := tmvts[k];
      assert t.slot0 in hts && !hts[t.slot0].used;
      assert t.slot1.Some? ==> t.slot1.value in hts && !hts[t.slot1.value].used;
      assert Slot(t.slot0.row, t.slot0.col) == t.slot0;
      forall i | 0 <= i < cfg.portCnt
        ensures Serving(t.subs, i) == {}
      {
      }
    }

    /** Find the entry of a key or make one. */
    method Enter(k: int, id: Ident, mem: Mem) returns (st: Status)
      requires Valid() && k == KeyOf(id)
      modifies this`tmvts, this`hts, tab
      ensures Shape() && Trees() && FlagsMirror() && RowsOk({}) && NoneEmpty({k})
      ensures forall r, c :: 0 <= r < cfg.nrows && 0 <= c < 4 ==> tab[r, c] == old(tab[r, c])
      ensures k !in old(tmvts) ==> st == Placed(cfg, old(hts).Keys, id, mem).0
      ensures k !in old(tmvts) && st == Ok ==>
                k in tmvts && Some(Places(tmvts[k].slot0, tmvts[k].slot1)) == Placed(cfg, old(hts).Keys, id, mem).1
      ensures st != Ok ==> tmvts == old(tmvts) && hts == old(hts)
      ensures k in old(tmvts) ==> st == Ok && tmvts == old(tmvts) && hts == old(hts)
      ensures st == Ok && k !in old(tmvts) ==>
                && k in tmvts && tmvts == old(tmvts)[k := tmvts[k]] && tmvts[k].id == id && tmvts[k].subs == map[]
                && hts == Reserve(old(hts), k, tmvts[k]) && forall s :: tmvts[k].Owns(s) ==> s !in old(hts)
    {
      hide OrdsAgree, SlotsAgree, KeysAgree, KeyOf, RowMatches, AnyServed, FlagsMirror, Placed;
      if k in tmvts {
        return Ok;
      }
      st := TmvtCreate(k, id, mem);
      if st == Ok {
        OwnSlots(cfg, tmvts, hts, k);
        FreshEntryRows(old(hts), k);
      }
    }

    /** The rollback of a create whose ordinal could not be made: the entry just entered goes again. */
    method Undo(k: int, ghost h: map<Slot, Ht>)
      requires Shape() && Trees() && FlagsMirror() && RowsOk({}) && NoneEmpty({k})
      requires k in tmvts && tmvts[k].subs == map[]
      requires hts == Reserve(h, k, tmvts[k]) && forall s :: tmvts[k].Owns(s) ==> s !in h
      modifies this`tmvts, this`hts, tab
      ensures Valid()
      ensures tmvts == old(tmvts) - {k} && hts == h
      ensures forall r, c :: 0 <= r < cfg.nrows && 0 <= c < 4 ==> tab[r, c] == old(tab[r, c])
    {
      hide OrdsAgree, SlotsAgree, KeysAgree, RowMatches, AnyServed, FlagsMirror;
      var t := tmvts[k];
      OwnSlots(cfg, tmvts, hts, k);
      assert Unreserve(Reserve(h, k, t), t) == h by {
        assert t.Owns(t.slot0) && (t.slot1.Some? ==> t.Owns(t.slot1.value));
      }
      assert forall s :: t.Owns(s) ==> s in hts && !hts[s].used;
      TmvtRelease(k);
    }

    /** The ordinal just made asks for nothing: rows stay right. */
    lemma RowsAfterFreshOrdinal(tmvts0: map<int, Tmvt>, k: int, o: nat)
      requires Shape() && k in tmvts0 && o !in tmvts0[k].subs
      requires tmvts == SetSub(tmvts0, k, o, Sub(INVALID_STRHDL, {}))
      requires forall j :: j in tmvts0 ==> RowOk(tmvts0[j])
      ensures RowsOk({})
    {
      hide RowMatches, AnyServed, PortHdl;
      forall i {
        FreshOrdinalAsksNothing(tmvts0[k].subs, o, i);
      }
      SameRows(tmvts0[k], tmvts[k]);
      assert forall j :: j in tmvts && j != k ==> tmvts[j] == tmvts0[j];
    }

    /** sid_ident_params_write: a failed create leaves all trees and the hardware as before. */
    method Create(o: nat, id: Ident, isNull: bool, mem: Mem) returns (st: Status)
      requires Valid()
      modifies this`ords, this`tmvts, this`hts, this`totalCnt, tab
      ensures Valid()
      ensures st == if o > MAX_ORD || !Supported(id) || !isNull then EInval
                    else if o in old(ords) then EExist
                    else if KeyOf(id) !in old(tmvts) && Placed(cfg, old(hts).Keys, id, mem).0 != Ok
                      then Placed(cfg, old(hts).Keys, id, mem).0
                    else if !mem.ord then ENoMem else Ok
      ensures st == Ok ==>
                PlacesOf(tmvts) == if KeyOf(id) in old(tmvts) then PlacesOf(old(tmvts))
                                   else PlacesOf(old(tmvts))[KeyOf(id) := Placed(cfg, old(hts).Keys, id, mem).1.value]
      ensures st == Ok ==> o !in old(ords) && KeyOf(id) in tmvts
                           && ItemsOf(ords, tmvts) == ItemsOf(old(ords), old(tmvts))[o := Item(tmvts[KeyOf(id)].id, INVALID_STRHDL, {})]
      ensures st == Ok ==> tmvts[KeyOf(id)].id == if KeyOf(id) in old(tmvts) then old(tmvts)[KeyOf(id)].id else id
      ensures st != Ok ==> unchanged(`ords) && unchanged(`tmvts) && unchanged(`hts) && unchanged(`totalCnt)
      ensures forall r, c :: 0 <= r < cfg.nrows && 0 <= c < 4 ==> tab[r, c] == old(tab[r, c])
    {
      hide OrdsAgree, SlotsAgree, KeysAgree, RowOk, FlagsMirror, ItemsOf, PlacesOf, KeyOf, Reserve, Placed;
      if o > MAX_ORD || !Supported(id) || !isNull {
        return EInval;
      }
      if o in ords {
        return EExist;
      }
      var k := KeyOf(id);
      var isNew := k !in tmvts;
      st := Enter(k, id, mem);
      if st != Ok {
        return;
      }
      EnteredItemsSame(ords, old(tmvts), tmvts, k);
      AbsentOrdinal(ords, tmvts, k, o);
      ghost var entered := tmvts;
      st := OCreate(o, k, mem.ord);
      if st == Ok {
        ItemsAfterSetSub(old(ords), entered, k, o, Sub(INVALID_STRHDL, {}));
        PlacesEntered(old(tmvts), k, entered[k]);
        SamePlaces(entered, tmvts);
        RowsAfterFreshOrdinal(entered, k, o);
        assert o in tmvts[k].subs;
        assert forall j :: j in tmvts && j != k ==> tmvts[j] == entered[j];
        assert NoneEmpty({});
      } else if isNew {
        Undo(k, old(hts));
        assert tmvts == old(tmvts);
      } else {
        assert tmvts == old(tmvts);
        assert NoneEmpty({});
      }
    }

    /** Regenerate the rows of the one entry whose ordinals have changed. */
    method Refresh(k: int)
      requires Shape() && Trees() && FlagsMirror() && RowsOk({k}) && k in tmvts
      modifies this`hts, tab
      ensures Trees() && FlagsMirror() && RowsOk({})
    {
      hide OrdsAgree, SlotsAgree, KeysAgree, RowMatches, AnyServed, FlagsMirror;
      OwnSlots(cfg, tmvts, hts, k);
      forall j | j in tmvts && j != k
        ensures !tmvts[k].Owns(tmvts[j].slot0) && (tmvts[j].slot1.Some? ==> !tmvts[k].Owns(tmvts[j].slot1.value))
      {
        OwnSlots(cfg, tmvts, hts, j);
        assert tmvts[j].Owns(tmvts[j].slot0) && (tmvts[j].slot1.Some? ==> tmvts[j].Owns(tmvts[j].slot1.value));
      }
      GenPortStrHdls(k);
      SlotsAfterFlags(cfg, tmvts, old(hts), hts);
      forall j | j in tmvts
        ensures RowOk(tmvts[j])
      {
        if j != k {
          assert old(RowOk(tmvts[j]));
        }
      }
    }

    /** sid_delete_write */
    method Delete(o: nat) returns (st: Status)
      requires Valid()
      modifies this`ords, this`tmvts, this`hts, this`totalCnt, tab
      ensures Valid()
      ensures st == if o > MAX_ORD then EInval else if o in old(ords) then Ok else ENoEnt
      ensures ItemsOf(ords, tmvts) == if st == Ok then ItemsOf(old(ords), old(tmvts)) - {o} else ItemsOf(old(ords), old(tmvts))
      ensures PlacesOf(tmvts) == if st == Ok then LeftPlaces(old(Abs()), o) else PlacesOf(old(tmvts))
    {
      hide LeftPlaces;
      if o > MAX_ORD {
        return EInval;
      }
      if o !in ords {
        return ENoEnt;
      }
      Remove(o);
      st := Ok;
    }

    /** Remove an ordinal, and its entry if it was the last one. */
    method Remove(o: nat)
      requires Valid() && o in ords
      modifies this`ords, this`tmvts, this`hts, this`totalCnt, tab
      ensures Valid() && ords == old(ords) - {o}
      ensures ItemsOf(ords, tmvts) == ItemsOf(old(ords), old(tmvts)) - {o}
      ensures PlacesOf(tmvts) == LeftPlaces(old(Abs()), o)
    {
      hide OrdsAgree, SlotsAgree, KeysAgree, RowOk, FlagsMirror, ItemsOf, KeyOf, PlacesOf, SameKey;
      OrdinalItem(ords, tmvts, o);
      var k := ords[o];
      OwnKey(tmvts, k);
      ItemsAfterDropSub(ords, tmvts, o);
      ORelease(o);
      SamePlaces(old(tmvts), tmvts);
      FiledOrdinals(ords, tmvts, old(tmvts)[k].id);
      assert forall j :: j in tmvts && j != k ==> tmvts[j] == old(tmvts)[j];
      Refresh(k);
      if tmvts[k].subs == map[] {
        ItemsAfterLeave(ords, tmvts, k);
        LeftOne(tmvts, k);
        Leave(k);
      } else {
        SomeSub(tmvts[k].subs);
      }
    }

    lemma SomeSub(subs: map<nat, Sub>)
      requires subs != map[]
      ensures exists o :: o in subs
    {
      assert subs.Keys == {} ==> subs == map[];
      var o :| o in subs.Keys;
    }

    method Leave(k: int)
      requires Shape() && Trees() && FlagsMirror() && RowsOk({}) && NoneEmpty({k})
      requires k in tmvts && tmvts[k].subs == map[]
      modifies this`tmvts, this`hts, tab
      ensures Valid() && tmvts == old(tmvts) - {k}
    {
      hide OrdsAgree, SlotsAgree, KeysAgree, RowMatches, AnyServed, FlagsMirror;
      OwnSlots(cfg, tmvts, hts, k);
      forall j | j in tmvts && j != k
        ensures !tmvts[k].Owns(tmvts[j].slot0) && (tmvts[j].slot1.Some? ==> !tmvts[k].Owns(tmvts[j].slot1.value))
      {
        OwnSlots(cfg, tmvts, hts, j);
        assert tmvts[j].Owns(tmvts[j].slot0) && (tmvts[j].slot1.Some? ==> tmvts[j].Owns(tmvts[j].slot1.value));
      }
      TmvtRelease(k);
      forall j | j in tmvts
        ensures RowOk(tmvts[j])
      {
        assert old(RowOk(tmvts[j]));
      }
    }

    /** Replace what an ordinal contributes and refresh the rows of its entry. */
    method ChangeSub(o: nat, sub: Sub)
      requires Valid() && o in ords
      modifies this`tmvts, this`hts, tab
      ensures Valid()
      ensures ItemsOf(ords, tmvts) == ItemsOf(ords, old(tmvts))[o := Item(ItemsOf(ords, old(tmvts))[o].id, sub.strHdl, sub.ports)]
      ensures PlacesOf(tmvts) == PlacesOf(old(tmvts))
    {
      hide OrdsAgree, SlotsAgree, KeysAgree, RowOk, FlagsMirror, ItemsOf, PlacesOf;
      OrdinalItem(ords, tmvts, o);
      var k := ords[o];
      OrdsAfterSetSub(ords, tmvts, k, o, sub);
      SlotsAfterSubs(cfg, tmvts, SetSub(tmvts, k, o, sub), hts);
      ItemsAfterSetSub(ords, tmvts, k, o, sub);
      assert ords[o := k] == ords;
      tmvts := SetSub(tmvts, k, o, sub);
      SamePlaces(old(tmvts), tmvts);
      assert forall j :: j in tmvts && j != k ==> tmvts[j] == old(tmvts)[j];
      assert o in tmvts[k].subs;
      assert NoneEmpty({});
      Refresh(k);
    }

    /** sid_set_strhdl_write */
    method SetStrHdl(o: nat, hdl: nat) returns (st: Status)
      requires Valid()
      modifies this`tmvts, this`hts, tab
      ensures Valid()
      ensures st == if o > MAX_ORD then EInval else if o !in ords then ENoEnt else if hdl >= cfg.maxStreams then EInval else Ok
      ensures var was := ItemsOf(ords, old(tmvts));
              ItemsOf(ords, tmvts) == if st == Ok && o in was then was[o := was[o].(strHdl := hdl)] else was
      ensures st == Ok ==> o in ItemsOf(ords, old(tmvts))
      ensures PlacesOf(tmvts) == PlacesOf(old(tmvts))
    {
      if o > MAX_ORD {
        return EInval;
      }
      if o !in ords {
        return ENoEnt;
      }
      if hdl >= cfg.maxStreams {
        return EInval;
      }
      assert ords[o] in tmvts && o in tmvts[ords[o]].subs;
      ChangeSub(o, tmvts[ords[o]].subs[o].(strHdl := hdl));
      st := Ok;
    }

    /** sid_port_pos_set; only the Out-Fac-In position is supported. */
    method PortPosSet(o: nat, port: nat, outFacIn: bool, clear: bool) returns (st: Status)
      requires Valid()
      modifies this`tmvts, this`hts, tab
      ensures Valid()
      ensures st == if port > cfg.portCnt || !outFacIn then EInval else if o !in ords then ENoEnt else Ok
      ensures var was := ItemsOf(ords, old(tmvts));
              ItemsOf(ords, tmvts) == if st == Ok && o in was
                                      then was[o := was[o].(ports := if clear then was[o].ports - {port} else was[o].ports + {port})]
                                      else was
      ensures st == Ok ==> o in ItemsOf(ords, old(tmvts))
      ensures PlacesOf(tmvts) == PlacesOf(old(tmvts))
    {
      if port > cfg.portCnt || !outFacIn {
        return EInval;
      }
      if o !in ords {
        return ENoEnt;
      }
      assert ords[o] in tmvts && o in tmvts[ords[o]].subs;
      var sub := tmvts[ords[o]].subs[o];
      ChangeSub(o, sub.(ports := if clear then sub.ports - {port} else sub.ports + {port}));
      st := Ok;
    }

    /** sid_release_all: no entry, reserved slot or used hardware row is left. */
    method ReleaseAll()
      requires Valid()
      modifies this`ords, this`tmvts, this`hts, this`totalCnt, tab
      ensures Valid() && ords == map[] && tmvts == map[] && hts == map[] && totalCnt == 0
      ensures forall r, c :: 0 <= r < cfg.nrows && 0 <= c < 4 ==> !tab[r, c].used
    {
      while ords != map[]
        invariant Valid()
        decreases |ords|
      {
        SomeOrd(ords);
        var o := Least(ords.Keys).value;
        assert |ords - {o}| < |ords|;
        Remove(o);
      }
      NothingLeft(cfg, tmvts, hts);
    }

    lemma SomeOrd(m: map<nat, int>)
      requires m != map[]
      ensures m.Keys != {}
    {
      assert m.Keys == {} ==> m == map[];
    }

    method Handle(r: Request) returns (st: Status)
      requires Valid()
      modifies this`ords, this`tmvts, this`hts, this`totalCnt, tab
      ensures Valid()
      ensures (st, Abs()) == Step(cfg, old(Abs()), r)
    {
      hide RowsOk, NoneEmpty, FlagsMirror, ItemsOf, PlacesOf, IdentFor, OrdsAgree, SlotsAgree, KeysAgree, KeyOf, Placed, Taken, LeftPlaces;
      ConfiguredOrdinals(ords, tmvts);
      match r {
        case Create(o, id, isNull, mem) =>
          FiledIdent(id);
          TakenIsReserved(cfg, tmvts, hts);
          st := Create(o, id, isNull, mem);
        case Delete(o) =>
          st := Delete(o);
        case SetHdl(o, hdl) =>
          st := SetStrHdl(o, hdl);
        case SetPort(o, port, outFacIn, clear) =>
          st := PortPosSet(o, port, outFacIn, clear);
      }
    }

    /** An entry found under a key carries the identification of the ordinals that are filed there. */
    lemma FiledIdent(id: Ident)
      requires Valid()
      ensures IdentFor(ItemsOf(ords, tmvts), id) == if KeyOf(id) in tmvts then tmvts[KeyOf(id)].id else id
    {
      hide SlotsAgree, FlagsMirror, RowsOk, KeyOf;
      var items, k := ItemsOf(ords, tmvts), KeyOf(id);
      forall o | o in items
        ensures KeyOf(items[o].id) == ords[o] && ords[o] in tmvts && items[o].id == tmvts[ords[o]].id
      {
        OrdinalItem(ords, tmvts, o);
      }
      if k in tmvts {
        var o :| o in tmvts[k].subs;
        assert o in ords && ords[o] == k;
        OrdinalItem(ords, tmvts, o);
        assert o in SameKey(items, id);
      }
    }
  }

  // ---------------------------------------------------------------- whole runs

  /** The items that are configured after a history of requests with these results. */
  function Configured(rs: seq<Request>, sts: seq<Status>): map<nat, Item>
    requires |rs| == |sts|
  {
    if rs == [] then map[]
    else Configure(Configured(rs[..|rs| - 1], sts[..|sts| - 1]), rs[|rs| - 1], sts[|sts| - 1])
  }

  // ---------------------------------------------------------------- when there is no space

  /** Every candidate slot for a kind of frame is taken. */
  predicate AllTaken(cfg: Config, id: Ident, sub: Tag, taken: set<Slot>)
    requires cfg.Valid()
  {
    forall i :: 0 <= i < 4 && Candidate(cfg, id, sub, i).Some? ==> Candidate(cfg, id, sub, i).value in taken
  }

  /** Slots that a new entry could have: free candidates, and two different ones for tag "all". */
  predicate Fits(cfg: Config, id: Ident, taken: set<Slot>, p: Places)
    requires cfg.Valid()
  {
    && IsCandidate(cfg, id, FirstTag(id.tag), p.slot0) && p.slot0 !in taken
    && (id.tag == All <==> p.slot1.Some?)
    && (p.slot1.Some? ==> p.slot1.value != p.slot0 && IsCandidate(cfg, id, Priority, p.slot1.value) && p.slot1.value !in taken)
  }

  lemma NoSpaceIff(cfg: Config, id: Ident, taken: set<Slot>, mem: Mem)
    requires cfg.Valid()
    ensures var sub := FirstTag(id.tag);
            Placed(cfg, taken, id, mem).0 == ENoSpc <==>
            mem.tmvt && (AllTaken(cfg, id, sub, taken)
                         || (mem.ht0 && id.tag == All && AllTaken(cfg, id, Priority, taken + {FirstFree(cfg, id, sub, taken, 0).value})))
  {
    hide FirstFree, Candidate;
    FirstFreeIs(cfg, id, FirstTag(id.tag), taken, 0);
    var s := FirstFree(cfg, id, FirstTag(id.tag), taken, 0);
    if s.Some? {
      FirstFreeIs(cfg, id, Priority, taken + {s.value}, 0);
    }
  }

  const ENOUGH: Mem := Mem(true, true, true, true)

  /** The choice of the first slot spoils the second one: the only free candidate of priority-tagged frames is
      the one in column 2 just taken, although column 3 would have done for the tagged ones. */
  predicate Spoilt(cfg: Config, id: Ident, taken: set<Slot>)
    requires cfg.Valid()
  {
    && id.tag == All
    && Candidate(cfg, id, Tagged, 2) == Candidate(cfg, id, Priority, 2) && Candidate(cfg, id, Tagged, 2).value !in taken
    && Candidate(cfg, id, Tagged, 3).value !in taken && Candidate(cfg, id, Priority, 3).value in taken
  }

  /** Without a memory failure an entry finds its slots exactly if there are any for it and the choice of the
      first one does not spoil the second one. */
  lemma PlacedIff(cfg: Config, id: Ident, taken: set<Slot>)
    requires cfg.Valid() && Supported(id)
    ensures Placed(cfg, taken, id, ENOUGH).0 == Ok <==> (exists p :: Fits(cfg, id, taken, p)) && !Spoilt(cfg, id, taken)
  {
    var sub := FirstTag(id.tag);
    FirstFreeIs(cfg, id, sub, taken, 0);
    var s := FirstFree(cfg, id, sub, taken, 0);
    if s.Some? {
      FirstFreeIs(cfg, id, Priority, taken + {s.value}, 0);
      var t := FirstFree(cfg, id, Priority, taken + {s.value}, 0);
      if id.tag != All {
        assert Fits(cfg, id, taken, Places(s.value, None));
      } else if t.Some? {
        assert Fits(cfg, id, taken, Places(s.value, t));
      }
    }
  }

  /** Two hashes that differ in bit 5. */
  predicate Bit5Apart(a: nat, b: nat) {
    a == if b / 32 % 2 == 0 then b + 32 else b - 32
  }

  /** The tag of a frame inverts bit 5 of the hashes of columns 2 and 3 alike. */
  predicate TagBit(cfg: Config, id: Ident) {
    var h, g := cfg.hash(id.mac, true, id.vid), cfg.hash(id.mac, false, id.vid);
    Bit5Apart(h.2, g.2) && Bit5Apart(h.3, g.3)
  }

  lemma ApartRows(a: nat, b: nat, n: nat)
    requires n > 0 && (a == b + 32 || b == a + 32)
    ensures a % n == b % n <==> 32 % n == 0
  {
    var x, y := if a < b then a else b, if a < b then b else a;
    assert x == x / n * n + x % n && y == y / n * n + y % n && 32 == 32 / n * n + 32 % n;
    if x % n == y % n {
      assert (y / n - x / n) * n == y / n * n - x / n * n;
      Arith.DivUnique(32, n, y / n - x / n);
    }
    if 32 % n == 0 {
      assert (x / n + 32 / n) * n == x / n * n + 32 / n * n;
      Arith.DivUnique(y, n, x / n + 32 / n);
    }
  }

  /** As the tag inverts the same bit in both columns, the choice of the first slot never spoils the second. */
  lemma TagBitSpoilsNothing(cfg: Config, id: Ident, taken: set<Slot>)
    requires cfg.Valid() && TagBit(cfg, id)
    ensures !Spoilt(cfg, id, taken)
  {
    var h, g := cfg.hash(id.mac, true, id.vid), cfg.hash(id.mac, false, id.vid);
    ApartRows(h.2, g.2, cfg.nrows);
    ApartRows(h.3, g.3, cfg.nrows);
  }

  /** Slots are reserved for exactly the keys of configured ordinals. */
  ghost predicate PlacesAgree(b: Bridge) {
    forall id :: KeyOf(id) in b.places <==> SameKey(b.items, id) != {}
  }

  lemma FiledUnderKey(items: map<nat, Item>, id: Ident)
    ensures KeyOf(IdentFor(items, id)) == KeyOf(id)
  {
  }

  lemma PlacesStep(cfg: Config, b: Bridge, r: Request)
    requires cfg.Valid() && PlacesAgree(b)
    ensures PlacesAgree(Step(cfg, b, r).1)
  {
    hide KeyOf, IdentFor, Placed, Taken;
    var c := Step(cfg, b, r).1;
    if r.Create? {
      FiledUnderKey(b.items, r.id);
    }
    forall id
      ensures KeyOf(id) in c.places <==> SameKey(c.items, id) != {}
    {
      if Reply(cfg, b, r) == Ok {
        match r
        case Create(o, made, _, _) =>
          assert SameKey(c.items, id) == SameKey(b.items, id) + if KeyOf(made) == KeyOf(id) then {o} else {};
        case Delete(o) =>
          assert SameKey(c.items, id) == SameKey(b.items, id) - {o};
          assert SameKey(b.items - {o}, b.items[o].id) == SameKey(b.items, b.items[o].id) - {o};
          assert o in SameKey(b.items, b.items[o].id);
          if KeyOf(id) == KeyOf(b.items[o].id) {
            assert SameKey(b.items, id) == SameKey(b.items, b.items[o].id);
          }
        case _ =>
          assert SameKey(c.items, id) == SameKey(b.items, id);
      }
    }
  }

  lemma {:induction false} PlacesAfterAgree(cfg: Config, rs: seq<Request>)
    requires cfg.Valid()
    ensures PlacesAgree(After(cfg, rs))
  {
    hide Step, PlacesAgree;
    if rs == [] {
      NothingPlaced();
    } else {
      PlacesAfterAgree(cfg, rs[..|rs| - 1]);
      PlacesStep(cfg, After(cfg, rs[..|rs| - 1]), rs[|rs| - 1]);
    }
  }

  lemma NothingPlaced()
    ensures PlacesAgree(Bridge(map[], map[]))
  {
  }

  /** After every history a well-formed create of a new ordinal is refused, unless memory runs out, exactly if
      no configured ordinal has its key and no free slots fit it. */
  lemma CreateReply(cfg: Config, rs: seq<Request>, o: nat, id: Ident)
    requires cfg.Valid() && TagBit(cfg, id)
    ensures var b := After(cfg, rs);
            Reply(cfg, b, Create(o, id, true, ENOUGH)) ==
              if o > MAX_ORD || !Supported(id) then EInval
              else if o in b.items then EExist
              else if SameKey(b.items, id) != {} || exists p :: Fits(cfg, id, Taken(b.places), p) then Ok
              else ENoSpc
  {
    hide KeyOf, Taken, Fits, Spoilt, FirstFree, TagBit;
    var b := After(cfg, rs);
    PlacesAfterAgree(cfg, rs);
    assert KeyOf(id) in b.places <==> SameKey(b.items, id) != {};
    if Supported(id) {
      PlacedIff(cfg, id, Taken(b.places));
      TagBitSpoilsNothing(cfg, id, Taken(b.places));
    }
  }

  /** A history in which the second ordinal is filed under the identification of the first one, which it did
      not ask for. */
  lemma SecondVidIsMistaken(cfg: Config)
    requires cfg.Valid()
    ensures var rs := [Create(1, Ident(0, Tagged, 0), true, ENOUGH), Create(2, Ident(0, Tagged, 16384), true, ENOUGH)];
            Replies(cfg, rs) == [Ok, Ok] && 2 in After(cfg, rs).items && After(cfg, rs).items[2].id == Ident(0, Tagged, 0)
  {
    var first, second := Create(1, Ident(0, Tagged, 0), true, ENOUGH), Create(2, Ident(0, Tagged, 16384), true, ENOUGH);
    var rs := [first, second];
    assert rs[..1] == [first] && [first][..0] == [];
    CreateOnEmpty(cfg, 1, Ident(0, Tagged, 0));
    var b := After(cfg, [first]);
    assert Replies(cfg, [first]) == [Ok];
    assert b.items == map[1 := Item(Ident(0, Tagged, 0), INVALID_STRHDL, {})] && KeyOf(Ident(0, Tagged, 16384)) in b.places;
    assert SameKey(b.items, Ident(0, Tagged, 16384)) == {1};
  }

  lemma CreateOnEmpty(cfg: Config, o: nat, id: Ident)
    requires cfg.Valid() && id.tag == Tagged && o <= MAX_ORD
    ensures var r := Step(cfg, Bridge(map[], map[]), Create(o, id, true, ENOUGH));
            r.0 == Ok && r.1.items == map[o := Item(id, INVALID_STRHDL, {})] && KeyOf(id) in r.1.places
  {
    hide KeyOf;
    FirstFreeIs(cfg, id, Tagged, {}, 0);
    assert Candidate(cfg, id, Tagged, 2).Some?;
    assert SameKey(map[], id) == {};
  }

  lemma {:induction false} AfterIsConfigured(cfg: Config, rs: seq<Request>)
    requires cfg.Valid()
    ensures After(cfg, rs).items == Configured(rs, Replies(cfg, rs))
  {
    hide Reply, PlacesAfter, Configure;
    if rs != [] {
      AfterIsConfigured(cfg, rs[..|rs| - 1]);
      var sts := Replies(cfg, rs);
      assert sts[..|sts| - 1] == Replies(cfg, rs[..|rs| - 1]);
    }
  }

  /** Ordinals of one identification that have a valid handle and a port. */
  function Asking(items: map<nat, Item>, id: Ident, port: nat): set<nat> {
    set o | o in items && items[o].id == id && items[o].strHdl != INVALID_STRHDL && port + 1 in items[o].ports
  }

  /** The handle of the lowest of them, 0 if there is none. */
  function WantedHdl(items: map<nat, Item>, id: Ident, port: nat): nat {
    var o := Least(Asking(items, id, port));
    if o.Some? then items[o.value].strHdl else 0
  }

  /** An entry collects exactly the ordinals of its identification. */
  lemma AskingIsServing(ords: map<nat, int>, tmvts: map<int, Tmvt>, k: int, port: nat)
    requires OrdsAgree(ords, tmvts) && KeysAgree(tmvts) && k in tmvts
    ensures Asking(ItemsOf(ords, tmvts), tmvts[k].id, port) == Serving(tmvts[k].subs, port)
    ensures WantedHdl(ItemsOf(ords, tmvts), tmvts[k].id, port) == PortHdl(tmvts[k].subs, port)
  {
    hide KeyOf;
    var items := ItemsOf(ords, tmvts);
    var a, b := Asking(items, tmvts[k].id, port), Serving(tmvts[k].subs, port);
    forall o
      ensures o in a <==> o in b
    {
      if o in a {
        assert KeyOf(tmvts[ords[o]].id) == ords[o] && KeyOf(tmvts[k].id) == k;
      }
    }
    assert a == b;
  }

  /** Every history of requests is answered, and leaves the bridge, as the specification says. */
  method Run(cfg: Config, rs: seq<Request>) returns (b: SidBridge, sts: seq<Status>)
    requires cfg.Valid()
    ensures b.Valid() && b.cfg == cfg && sts == Replies(cfg, rs) && b.Abs() == After(cfg, rs)
    ensures ItemsOf(b.ords, b.tmvts) == Configured(rs, sts)
  {
    hide SidBridge.Valid, SidBridge.Abs, Reply, Configure, PlacesAfter;
    b := new SidBridge(cfg);
    sts := [];
    for i := 0 to |rs|
      invariant b.Valid() && b.cfg == cfg && fresh(b) && fresh(b.tab)
      invariant sts == Replies(cfg, rs[..i]) && b.Abs() == After(cfg, rs[..i])
    {
      var st := b.Handle(rs[i]);
      assert rs[..i + 1][..i] == rs[..i];
      sts := sts + [st];
    }
    assert rs[..|rs|] == rs;
    AfterIsConfigured(cfg, rs);
    AbsItems(b);
  }

  lemma AbsItems(b: SidBridge)
    ensures b.Abs().items == ItemsOf(b.ords, b.tmvts)
  {
  }

  // ---------------------------------------------------------------- what was asked for last

  /** Something a user asks for: that an ordinal is configured, its handle, one of its ports. */
  datatype Ask = Present(o: nat) | HasHandle(o: nat, hdl: nat) | HasPort(o: nat, port: nat)

  predicate Makes(a: Ask, r: Request, st: Status) {
    && st == Ok && r.o == a.o
    && match a
       case Present(_) => r.Create?
       case HasHandle(_, hdl) => (r.SetHdl? && r.hdl == hdl) || (r.Create? && hdl == INVALID_STRHDL)
       case HasPort(_, port) => r.SetPort? && r.port == port && !r.clear
  }

  predicate Undoes(a: Ask, r: Request, st: Status) {
    && st == Ok && r.o == a.o
    && match a
       case Present(_) => r.Delete?
       case HasHandle(_, hdl) => r.Delete? || (r.SetHdl? && r.hdl != hdl) || (r.Create? && hdl != INVALID_STRHDL)
       case HasPort(_, port) => r.Delete? || r.Create? || (r.SetPort? && r.port == port && r.clear)
  }

  /** It was asked for and has not been undone since. */
  predicate Stands(rs: seq<Request>, sts: seq<Status>, a: Ask)
    requires |rs| == |sts|
  {
    exists i :: 0 <= i < |rs| && Makes(a, rs[i], sts[i]) && forall j :: i < j < |rs| ==> !Undoes(a, rs[j], sts[j])
  }

  predicate Holds(items: map<nat, Item>, a: Ask) {
    && a.o in items
    && match a
       case Present(_) => true
       case HasHandle(o, hdl) => items[o].strHdl == hdl
       case HasPort(o, port) => port in items[o].ports
  }

  lemma HoldsStep(cfg: Config, b: Bridge, r: Request, a: Ask)
    requires cfg.Valid()
    ensures var st := Reply(cfg, b, r);
            Holds(Configure(b.items, r, st), a) <==> Makes(a, r, st) || (Holds(b.items, a) && !Undoes(a, r, st))
  {
    hide Placed, IdentFor, KeyOf;
  }

  lemma StandsStep(rs: seq<Request>, sts: seq<Status>, r: Request, st: Status, a: Ask)
    requires |rs| == |sts|
    ensures Stands(rs + [r], sts + [st], a) <==> Makes(a, r, st) || (Stands(rs, sts, a) && !Undoes(a, r, st))
  {
    hide Makes, Undoes;
    var q, u := rs + [r], sts + [st];
    if Makes(a, r, st) {
      assert q[|rs|] == r && u[|rs|] == st;
    }
    if Stands(rs, sts, a) && !Undoes(a, r, st) {
      var i :| 0 <= i < |rs| && Makes(a, rs[i], sts[i]) && forall j :: i < j < |rs| ==> !Undoes(a, rs[j], sts[j]);
      assert q[i] == rs[i] && u[i] == sts[i];
    }
    if Stands(q, u, a) {
      var i :| 0 <= i < |q| && Makes(a, q[i], u[i]) && forall j :: i < j < |q| ==> !Undoes(a, q[j], u[j]);
      if i < |rs| {
        assert q[i] == rs[i] && u[i] == sts[i] && q[|rs|] == r && u[|rs|] == st;
        assert forall j :: i < j < |rs| ==> q[j] == rs[j] && u[j] == sts[j];
      }
    }
  }

  /** After any history ordinals, handles and ports are configured exactly as they were last asked for, by
      requests that were accepted. */
  lemma {:induction false} HoldsIff(cfg: Config, rs: seq<Request>, a: Ask)
    requires cfg.Valid()
    ensures Holds(After(cfg, rs).items, a) <==> Stands(rs, Replies(cfg, rs), a)
  {
    hide Configure, Reply, PlacesAfter, Makes, Undoes;
    if rs != [] {
      hide Holds, Stands;
      var n := |rs| - 1;
      HoldsIff(cfg, rs[..n], a);
      var b := After(cfg, rs[..n]);
      assert rs == rs[..n] + [rs[n]];
      HoldsStep(cfg, b, rs[n], a);
      StandsStep(rs[..n], Replies(cfg, rs[..n]), rs[n], Reply(cfg, b, rs[n]), a);
    }
  }

  /** After any history a change or a delete is accepted exactly for a configured ordinal and values in range. */
  lemma ChangeReplies(cfg: Config, rs: seq<Request>, o: nat, hdl: nat, port: nat, outFacIn: bool, clear: bool)
    requires cfg.Valid()
    ensures var b, there := After(cfg, rs), Stands(rs, Replies(cfg, rs), Present(o));
            && (there ==> o <= 0xffff)
            && Reply(cfg, b, Delete(o)) == (if there then Ok else if o <= 0xffff then ENoEnt else EInval)
            && (Reply(cfg, b, SetHdl(o, hdl)) == Ok <==> there && hdl < cfg.maxStreams)
            && (Reply(cfg, b, SetHdl(o, hdl)) == ENoEnt <==> !there && o <= 0xffff)
            && (Reply(cfg, b, SetPort(o, port, outFacIn, clear)) == Ok <==> there && port <= cfg.portCnt && outFacIn)
            && (Reply(cfg, b, SetPort(o, port, outFacIn, clear)) == ENoEnt <==> !there && port <= cfg.portCnt && outFacIn)
  {
    hide Stands, After, Replies;
    HoldsIff(cfg, rs, Present(o));
    ItemsInRange(cfg, rs);
  }

  /** Every history keeps ordinals, handles and ports in the ranges of the hardware. */
  lemma {:induction false} ItemsInRange(cfg: Config, rs: seq<Request>)
    requires cfg.Valid()
    ensures forall o :: o in After(cfg, rs).items ==> InRange(cfg, o, After(cfg, rs).items[o])
  {
    hide Placed, PlacesAfter, KeyOf, IdentFor;
    if rs != [] {
      ItemsInRange(cfg, rs[..|rs| - 1]);
      var b, r := After(cfg, rs[..|rs| - 1]), rs[|rs| - 1];
      assert After(cfg, rs).items == Configure(b.items, r, Reply(cfg, b, r));
    }
  }

  predicate InRange(cfg: Config, o: nat, item: Item) {
    && o <= 0xffff && (item.strHdl == INVALID_STRHDL || item.strHdl < cfg.maxStreams)
    && forall p :: p in item.ports ==> p <= cfg.portCnt
  }

  /** The ordinals whose handles an identification can have on a port of the hardware, which counts ports from 0:
      those configured for it with a valid handle and the user's port of the next number. */
  lemma AskingIff(cfg: Config, rs: seq<Request>, id: Ident, port: nat, o: nat)
    requires cfg.Valid()
    ensures var items, sts := After(cfg, rs).items, Replies(cfg, rs);
            o in Asking(items, id, port) <==>
              && Stands(rs, sts, Present(o)) && Stands(rs, sts, HasPort(o, port + 1))
              && !Stands(rs, sts, HasHandle(o, INVALID_STRHDL))
              && o in items && items[o].id == id
  {
    hide Stands, After, Replies;
    HoldsIff(cfg, rs, Present(o));
    HoldsIff(cfg, rs, HasPort(o, port + 1));
    HoldsIff(cfg, rs, HasHandle(o, INVALID_STRHDL));
  }

  /** A hardware row serves an identification: it is used exactly when some of its ordinals ask for a
      handle on some port, and then carries, port by port, the handle of the lowest one. */
  predicate IdentRow(cfg: Config, e: TabEntry, items: map<nat, Item>, id: Ident, sub: Tag) {
    && (e.used <==> exists i :: 0 <= i < cfg.portCnt && Asking(items, id, i) != {})
    && (e.used ==> e.mac == id.mac && e.vid == id.vid && e.matchVlan == MatchVlan(sub, id.vid) && |e.strHdl| == cfg.portCnt)
    && (e.used ==> forall i :: 0 <= i < cfg.portCnt ==> e.strHdl[i] == WantedHdl(items, id, i))
  }

  lemma SlotIsIdentRow(b: SidBridge, k: int, sub: Tag, s: Slot)
    requires b.Shape() && b.Trees() && k in b.tmvts && b.SlotOk(b.tmvts[k], sub, s)
    ensures IdentRow(b.cfg, b.tab[s.row, s.col], ItemsOf(b.ords, b.tmvts), b.tmvts[k].id, sub)
  {
    hide SlotsAgree, OrdsAgree, KeysAgree, ItemsOf, Asking, Serving, PortHdl, WantedHdl;
    forall i | 0 <= i < b.cfg.portCnt
      ensures Asking(ItemsOf(b.ords, b.tmvts), b.tmvts[k].id, i) == Serving(b.tmvts[k].subs, i)
      ensures WantedHdl(ItemsOf(b.ords, b.tmvts), b.tmvts[k].id, i) == PortHdl(b.tmvts[k].subs, i)
    {
      AskingIsServing(b.ords, b.tmvts, k, i);
    }
  }

  /** The last accepted create of an ordinal asked for this identification. */
  predicate AskedFor(rs: seq<Request>, sts: seq<Status>, o: nat, id: Ident)
    requires |rs| == |sts|
  {
    exists i :: 0 <= i < |rs| && IsCreate(rs[i], sts[i], o) && rs[i].id == id
                && forall j :: i < j < |rs| ==> !IsCreate(rs[j], sts[j], o)
  }

  predicate IsCreate(r: Request, st: Status, o: nat) {
    r.Create? && st == Ok && r.o == o
  }

  lemma AskedStays(rs: seq<Request>, sts: seq<Status>, r: Request, st: Status, o: nat, id: Ident)
    requires |rs| == |sts|
    ensures IsCreate(r, st, o) ==> AskedFor(rs + [r], sts + [st], o, r.id)
    ensures !IsCreate(r, st, o) && AskedFor(rs, sts, o, id) ==> AskedFor(rs + [r], sts + [st], o, id)
  {
    var q, u := rs + [r], sts + [st];
    if IsCreate(r, st, o) {
      assert q[|rs|] == r && u[|rs|] == st;
    } else if AskedFor(rs, sts, o, id) {
      var i :| 0 <= i < |rs| && IsCreate(rs[i], sts[i], o) && rs[i].id == id
               && forall j :: i < j < |rs| ==> !IsCreate(rs[j], sts[j], o);
      assert q[i] == rs[i] && u[i] == sts[i];
      assert forall j :: i < j < |rs| ==> q[j] == rs[j] && u[j] == sts[j];
    }
  }

  /** As long as only VIDs below 2^14 are created, every configured ordinal has the identification that its
      last accepted create asked for. */
  lemma {:induction false} ConfiguredAsAsked(rs: seq<Request>, sts: seq<Status>)
    requires |rs| == |sts| && forall i :: 0 <= i < |rs| && rs[i].Create? ==> rs[i].id.vid < 16384
    ensures SmallVids(Configured(rs, sts))
    ensures forall o :: o in Configured(rs, sts) ==> AskedFor(rs, sts, o, Configured(rs, sts)[o].id)
  {
    hide IdentFor, AskedFor;
    if rs != [] {
      var n := |rs| - 1;
      ConfiguredAsAsked(rs[..n], sts[..n]);
      var items := Configured(rs[..n], sts[..n]);
      if rs[n].Create? {
        OwnIdent(items, rs[n].id);
      }
      assert rs == rs[..n] + [rs[n]] && sts == sts[..n] + [sts[n]];
      forall o | o in Configured(rs, sts)
        ensures AskedFor(rs, sts, o, Configured(rs, sts)[o].id)
      {
        AskedStays(rs[..n], sts[..n], rs[n], sts[n], o, Configured(rs, sts)[o].id);
      }
    }
  }

  /** The hardware rows behind an ordinal after any history of requests are those of the identification it
      is filed under; an ordinal that is not configured has none. */
  method HardwareAfter(cfg: Config, rs: seq<Request>, o: nat) returns (sts: seq<Status>, rows: seq<TabEntry>)
    requires cfg.Valid()
    ensures sts == Replies(cfg, rs)
    ensures o !in Configured(rs, sts) ==> rows == []
    ensures o in Configured(rs, sts) ==>
              var id := Configured(rs, sts)[o].id;
              && |rows| == (if id.tag == All then 2 else 1)
              && IdentRow(cfg, rows[0], Configured(rs, sts), id, FirstTag(id.tag))
              && (id.tag == All ==> IdentRow(cfg, rows[1], Configured(rs, sts), id, Priority))
  {
    var b;
    b, sts := Run(cfg, rs);
    hide ItemsOf, IdentRow, Configured, KeysAgree, RowMatches, AnyServed, IsCandidate;
    rows := [];
    if o in b.ords {
      OrdinalItem(b.ords, b.tmvts, o);
      var k := b.ords[o];
      var t := b.tmvts[k];
      SlotIsIdentRow(b, k, FirstTag(t.id.tag), t.slot0);
      rows := [b.tab[t.slot0.row, t.slot0.col]];
      if t.slot1.Some? {
        SlotIsIdentRow(b, k, Priority, t.slot1.value);
        rows := rows + [b.tab[t.slot1.value.row, t.slot1.value.col]];
      }
    } else {
      NoItem(b.ords, b.tmvts, o);
    }
  }

  /** A used row stands for an identification: it lies at one of its hash candidates and is its row. */
  predicate StandsFor(cfg: Config, e: TabEntry, items: map<nat, Item>, id: Ident, s: Slot)
    requires cfg.Valid()
  {
    || (IsCandidate(cfg, id, FirstTag(id.tag), s) && IdentRow(cfg, e, items, id, FirstTag(id.tag)))
    || (id.tag == All && IsCandidate(cfg, id, Priority, s) && IdentRow(cfg, e, items, id, Priority))
  }

  /** Whatever row of the hardware table is looked at after any history: if it is used, it stands for the
      identification of a configured ordinal; and the driver's count is the number of those ordinals. */
  method TableAfter(cfg: Config, rs: seq<Request>, row: nat, col: nat) returns (sts: seq<Status>, e: TabEntry, cnt: int)
    requires cfg.Valid() && row < cfg.nrows && col < 4
    ensures sts == Replies(cfg, rs) && cnt == |Configured(rs, sts)|
    ensures e.used ==> exists o :: var items := Configured(rs, sts);
              o in items && StandsFor(cfg, e, items, items[o].id, Slot(row, col))
  {
    var b;
    b, sts := Run(cfg, rs);
    hide ItemsOf, StandsFor, Configured;
    ItemCount(b.ords, b.tmvts);
    if b.tab[row, col].used {
      UsedRow(b, row, col);
    }
    e, cnt := b.tab[row, col], b.totalCnt;
  }

  lemma UsedRow(b: SidBridge, row: nat, col: nat)
    requires b.Valid() && row < b.cfg.nrows && col < 4 && b.tab[row, col].used
    ensures exists o :: var items := ItemsOf(b.ords, b.tmvts);
              o in items && StandsFor(b.cfg, b.tab[row, col], items, items[o].id, Slot(row, col))
  {
    hide ItemsOf, IdentRow, KeysAgree, RowMatches, AnyServed, IsCandidate;
    var s := Slot(row, col);
    var k := b.hts[s].owner;
    var t := b.tmvts[k];
    var o :| o in t.subs;
    OrdinalItem(b.ords, b.tmvts, o);
    assert SlotsOf(b.cfg, t) && t.Owns(s);
    SlotIsIdentRow(b, k, if t.slot0 == s then FirstTag(t.id.tag) else Priority, s);
  }

  // ---------------------------------------------------------------- what frames find

  /** An address and a VID; VID 0 for frames without a VLAN tag and for priority-tagged ones. */
  datatype Frame = Frame(mac: nat, vid: nat)

  /** The slot of a column in which a frame is looked up. */
  function LookAt(cfg: Config, f: Frame, col: nat): Slot
    requires cfg.Valid() && col < 4
  {
    var h := cfg.hash(f.mac, f.vid != 0, f.vid);
    Slot((if col == 0 then h.0 else if col == 1 then h.1 else if col == 2 then h.2 else h.3) % cfg.nrows, col)
  }

  predicate Hits(e: TabEntry, f: Frame) {
    e.used && e.mac == f.mac && (e.matchVlan ==> e.vid == f.vid)
  }

  /** The frames that an identification is for. */
  predicate Identifies(id: Ident, f: Frame) {
    && f.mac == id.mac
    && match id.tag
       case Tagged => f.vid != 0 && (id.vid == 0 || f.vid == id.vid)
       case Priority => f.vid == 0
       case All => true
  }

  /** The VID does not enter the hashes of columns 2 and 3, and the tag inverts bit 5 of both. */
  ghost predicate HashOk(cfg: Config) {
    && (forall mac, tagged, v, w :: cfg.hash(mac, tagged, v).2 == cfg.hash(mac, tagged, w).2
                                    && cfg.hash(mac, tagged, v).3 == cfg.hash(mac, tagged, w).3)
    && (forall mac, v :: Bit5Apart(cfg.hash(mac, true, v).2, cfg.hash(mac, false, v).2)
                         && Bit5Apart(cfg.hash(mac, true, v).3, cfg.hash(mac, false, v).3))
  }

  /** Columns 0 and 1 are open to tagged frames of one VID only, columns 2 and 3 to all. */
  lemma CandidateColumns(cfg: Config, id: Ident, sub: Tag, col: nat)
    requires cfg.Valid() && col < 4
    ensures Candidate(cfg, id, sub, col).Some? <==> col >= 2 || (sub == Tagged && id.vid != 0)
  {
  }

  /** The rows in which frames with and without tag are looked up in columns 2 and 3 differ, if the table has a
      row number that bit 5 changes. */
  lemma TagMovesRow(cfg: Config, mac: nat, v: nat, w: nat)
    requires cfg.Valid() && HashOk(cfg)
    ensures var h, g := cfg.hash(mac, true, v), cfg.hash(mac, false, w);
            && (h.2 % cfg.nrows == g.2 % cfg.nrows <==> 32 % cfg.nrows == 0)
            && (h.3 % cfg.nrows == g.3 % cfg.nrows <==> 32 % cfg.nrows == 0)
  {
    var h, g := cfg.hash(mac, true, v), cfg.hash(mac, false, v);
    ApartRows(h.2, g.2, cfg.nrows);
    ApartRows(h.3, g.3, cfg.nrows);
  }

  /** A used row of an identification is found and hit by exactly the frames that the identification is for, of
      the kind that the slot is for. */
  lemma RowFindsFrames(cfg: Config, e: TabEntry, items: map<nat, Item>, id: Ident, sub: Tag, s: Slot, f: Frame)
    requires cfg.Valid() && HashOk(cfg) && 32 % cfg.nrows != 0 && Supported(id)
    requires sub == FirstTag(id.tag) || (id.tag == All && sub == Priority)
    requires IsCandidate(cfg, id, sub, s) && e.used && IdentRow(cfg, e, items, id, sub)
    ensures s == LookAt(cfg, f, s.col) && Hits(e, f) <==> Identifies(id, f) && (sub == Tagged <==> f.vid != 0)
  {
    hide Asking, WantedHdl, Bit5Apart;
    CandidateColumns(cfg, id, sub, s.col);
    TagMovesRow(cfg, id.mac, f.vid, id.vid);
    TagMovesRow(cfg, id.mac, id.vid, f.vid);
  }

  /** On a table whose rows bit 5 does not tell apart, one of at most 32 rows, the row of an identification for
      frames without tag is found and hit by tagged frames too. */
  lemma SmallTableConfuses(cfg: Config, e: TabEntry, items: map<nat, Item>, id: Ident, s: Slot, f: Frame)
    requires cfg.Valid() && HashOk(cfg) && 32 % cfg.nrows == 0 && Supported(id) && id.tag == Priority
    requires IsCandidate(cfg, id, Priority, s) && e.used && IdentRow(cfg, e, items, id, Priority)
    requires f.mac == id.mac && f.vid != 0
    ensures s == LookAt(cfg, f, s.col) && Hits(e, f) && !Identifies(id, f)
  {
    hide Asking, WantedHdl, Bit5Apart;
    CandidateColumns(cfg, id, Priority, s.col);
    TagMovesRow(cfg, id.mac, f.vid, id.vid);
  }

  lemma {:induction false} ItemsSupported(cfg: Config, rs: seq<Request>)
    requires cfg.Valid()
    ensures forall o :: o in After(cfg, rs).items ==> Supported(After(cfg, rs).items[o].id)
  {
    hide Placed, PlacesAfter, KeyOf;
    if rs != [] {
      ItemsSupported(cfg, rs[..|rs| - 1]);
    }
  }

  predicate AnyAsks(cfg: Config, items: map<nat, Item>, id: Ident) {
    exists i :: 0 <= i < cfg.portCnt && Asking(items, id, i) != {}
  }

  /** Whatever frame is looked up after any history of requests: on every port the handles found in the four
      columns are those wanted for configured identifications that are for the frame, and each of these that
      has a valid handle for some port is found. */
  method FrameAfter(cfg: Config, rs: seq<Request>, f: Frame, port: nat) returns (sts: seq<Status>, hdls: seq<Option<nat>>)
    requires cfg.Valid() && HashOk(cfg) && 32 % cfg.nrows != 0 && port < cfg.portCnt
    ensures sts == Replies(cfg, rs) && |hdls| == 4
    ensures var items := After(cfg, rs).items;
            && (forall c :: 0 <= c < 4 && hdls[c].Some? ==>
                  exists o :: o in items && Identifies(items[o].id, f) && hdls[c].value == WantedHdl(items, items[o].id, port))
            && (forall o :: o in items && Identifies(items[o].id, f) && AnyAsks(cfg, items, items[o].id) ==>
                  exists c :: 0 <= c < 4 && hdls[c] == Some(WantedHdl(items, items[o].id, port)))
  {
    var b;
    b, sts := Run(cfg, rs);
    hide After, Replies, Configured, ItemsOf, PlacesOf, Identifies, WantedHdl, AnyAsks, SidBridge.Valid;
    ItemsSupported(cfg, rs);
    hdls := Lookup(b, f, port);
  }

  method Lookup(b: SidBridge, f: Frame, port: nat) returns (hdls: seq<Option<nat>>)
    requires b.Valid() && HashOk(b.cfg) && 32 % b.cfg.nrows != 0 && port < b.cfg.portCnt
    requires forall o :: o in ItemsOf(b.ords, b.tmvts) ==> Supported(ItemsOf(b.ords, b.tmvts)[o].id)
    ensures |hdls| == 4
    ensures var items := ItemsOf(b.ords, b.tmvts);
            && (forall c :: 0 <= c < 4 && hdls[c].Some? ==>
                  exists o :: o in items && Identifies(items[o].id, f) && hdls[c].value == WantedHdl(items, items[o].id, port))
            && (forall o :: o in items && Identifies(items[o].id, f) && AnyAsks(b.cfg, items, items[o].id) ==>
                  exists c :: 0 <= c < 4 && hdls[c] == Some(WantedHdl(items, items[o].id, port)))
  {
    hide ItemsOf, Identifies, WantedHdl, AnyAsks, LookAt, Hits, HashOk, Supported, OrdsAgree, SlotsAgree, KeysAgree, RowMatches, AnyServed;
    hdls := [];
    for c := 0 to 4
      invariant |hdls| == c
      invariant forall d :: 0 <= d < c ==>
                  var s := LookAt(b.cfg, f, d);
                  && s.row < b.cfg.nrows
                  && (Hits(b.tab[s.row, d], f) ==> |b.tab[s.row, d].strHdl| == b.cfg.portCnt)
                  && hdls[d] == if Hits(b.tab[s.row, d], f) then Some(b.tab[s.row, d].strHdl[port]) else None
    {
      LookAtSlot(b.cfg, f, c);
      var s := LookAt(b.cfg, f, c);
      var e := b.tab[s.row, c];
      if Hits(e, f) {
        FoundRow(b, f, c, port);
        hdls := hdls + [Some(e.strHdl[port])];
      } else {
        hdls := hdls + [None];
      }
    }
    ghost var items := ItemsOf(b.ords, b.tmvts);
    forall c | 0 <= c < 4 && hdls[c].Some?
      ensures exists o :: o in items && Identifies(items[o].id, f) && hdls[c].value == WantedHdl(items, items[o].id, port)
    {
      FoundRow(b, f, c, port);
    }
    forall o | o in items && Identifies(items[o].id, f) && AnyAsks(b.cfg, items, items[o].id)
      ensures exists c :: 0 <= c < 4 && hdls[c] == Some(WantedHdl(items, items[o].id, port))
    {
      var c := RowIsFound(b, o, f, port);
    }
  }

  lemma LookAtSlot(cfg: Config, f: Frame, c: nat)
    requires cfg.Valid() && c < 4
    ensures LookAt(cfg, f, c).row < cfg.nrows && LookAt(cfg, f, c).col == c
  {
  }

  /** A row that a frame hits is that of a configured identification for the frame. */
  lemma FoundRow(b: SidBridge, f: Frame, c: nat, port: nat)
    requires b.Valid() && HashOk(b.cfg) && 32 % b.cfg.nrows != 0 && port < b.cfg.portCnt && c < 4
    requires forall o :: o in ItemsOf(b.ords, b.tmvts) ==> Supported(ItemsOf(b.ords, b.tmvts)[o].id)
    requires LookAt(b.cfg, f, c).row < b.cfg.nrows && Hits(b.tab[LookAt(b.cfg, f, c).row, c], f)
    ensures var e, items := b.tab[LookAt(b.cfg, f, c).row, c], ItemsOf(b.ords, b.tmvts);
            && |e.strHdl| == b.cfg.portCnt
            && exists o :: o in items && Identifies(items[o].id, f) && e.strHdl[port] == WantedHdl(items, items[o].id, port)
  {
    hide ItemsOf, Identifies, WantedHdl, HashOk, Supported, SidBridge.Valid, IsCandidate, Asking;
    LookAtSlot(b.cfg, f, c);
    var s := LookAt(b.cfg, f, c);
    hide LookAt;
    var items := ItemsOf(b.ords, b.tmvts);
    ValidShape(b);
    var e := b.tab[s.row, c];
    UsedRow(b, s.row, c);
    var o :| o in items && StandsFor(b.cfg, e, items, items[o].id, Slot(s.row, c));
    var id := items[o].id;
    assert Slot(s.row, c) == s;
    var sub := if IsCandidate(b.cfg, id, FirstTag(id.tag), s) && IdentRow(b.cfg, e, items, id, FirstTag(id.tag)) then FirstTag(id.tag) else Priority;
    RowFindsFrames(b.cfg, e, items, id, sub, s, f);
  }

  lemma ValidShape(b: SidBridge)
    requires b.Valid()
    ensures b.Shape() && b.Trees()
  {
  }

  /** The identification of an ordinal that asks for a handle is found by its frames. */
  lemma RowIsFound(b: SidBridge, o: nat, f: Frame, port: nat) returns (c: nat)
    requires b.Valid() && HashOk(b.cfg) && 32 % b.cfg.nrows != 0 && port < b.cfg.portCnt
    requires o in ItemsOf(b.ords, b.tmvts)
    requires var id := ItemsOf(b.ords, b.tmvts)[o].id;
             Supported(id) && Identifies(id, f) && AnyAsks(b.cfg, ItemsOf(b.ords, b.tmvts), id)
    ensures c < 4 && LookAt(b.cfg, f, c).row < b.cfg.nrows
    ensures var e := b.tab[LookAt(b.cfg, f, c).row, c];
            && Hits(e, f) && |e.strHdl| == b.cfg.portCnt
            && e.strHdl[port] == WantedHdl(ItemsOf(b.ords, b.tmvts), ItemsOf(b.ords, b.tmvts)[o].id, port)
  {
    hide ItemsOf, WantedHdl, HashOk, IsCandidate, Asking, LookAt, Hits, RowMatches, AnyServed, KeyOf;
    ConfiguredOrdinals(b.ords, b.tmvts);
    OrdinalItem(b.ords, b.tmvts, o);
    var k := b.ords[o];
    var t := b.tmvts[k];
    var sub := if t.id.tag == All && f.vid == 0 then Priority else FirstTag(t.id.tag);
    OwnSlots(b.cfg, b.tmvts, b.hts, k);
    var s := if t.id.tag == All && f.vid == 0 then t.slot1.value else t.slot0;
    SlotIsIdentRow(b, k, sub, s);
    c := s.col;
    RowFindsFrames(b.cfg, b.tab[s.row, s.col], ItemsOf(b.ords, b.tmvts), t.id, sub, s, f);
  }

  /** The slots behind two configured ordinals after any history: one each, two different ones for tag
      "all", always at hash candidates; the same ones for the same identification, no common one otherwise. */
  method SlotsAfter(cfg: Config, rs: seq<Request>, o: nat, p: nat) returns (sts: seq<Status>, a: seq<Slot>, b: seq<Slot>)
    requires cfg.Valid()
    ensures sts == Replies(cfg, rs)
    ensures o in Configured(rs, sts) ==> IdentSlots(cfg, Configured(rs, sts)[o].id, a)
    ensures p in Configured(rs, sts) ==> IdentSlots(cfg, Configured(rs, sts)[p].id, b)
    ensures o in Configured(rs, sts) && p in Configured(rs, sts) ==>
              if Configured(rs, sts)[o].id == Configured(rs, sts)[p].id then a == b else forall s :: s in a ==> s !in b
  {
    var d;
    d, sts := Run(cfg, rs);
    hide ItemsOf, Configured, IdentSlots, SlotSeq;
    a, b := [], [];
    if o in d.ords {
      OrdinalSlots(d, o, o);
      a := SlotSeq(d.tmvts[d.ords[o]]);
    } else {
      NoItem(d.ords, d.tmvts, o);
    }
    if p in d.ords {
      OrdinalSlots(d, p, p);
      b := SlotSeq(d.tmvts[d.ords[p]]);
    } else {
      NoItem(d.ords, d.tmvts, p);
    }
    if o in d.ords && p in d.ords {
      OrdinalSlots(d, o, p);
    }
  }

  lemma OrdinalSlots(d: SidBridge, o: nat, p: nat)
    requires d.Shape() && d.Trees() && o in d.ords && p in d.ords
    ensures d.ords[o] in d.tmvts && d.ords[p] in d.tmvts && o in ItemsOf(d.ords, d.tmvts) && p in ItemsOf(d.ords, d.tmvts)
    ensures var items, t, u := ItemsOf(d.ords, d.tmvts), d.tmvts[d.ords[o]], d.tmvts[d.ords[p]];
            && IdentSlots(d.cfg, items[o].id, SlotSeq(t))
            && if items[o].id == items[p].id then SlotSeq(t) == SlotSeq(u) else forall s :: s in SlotSeq(t) ==> s !in SlotSeq(u)
  {
    hide ItemsOf, IsCandidate, KeyOf, SlotsAgree;
    OrdinalItem(d.ords, d.tmvts, o);
    OrdinalItem(d.ords, d.tmvts, p);
    var t, u := d.tmvts[d.ords[o]], d.tmvts[d.ords[p]];
    OwnSlots(d.cfg, d.tmvts, d.hts, d.ords[o]);
    OwnSlots(d.cfg, d.tmvts, d.hts, d.ords[p]);
    assert KeyOf(t.id) == d.ords[o] && KeyOf(u.id) == d.ords[p];
    forall s | s in SlotSeq(t) && s in SlotSeq(u)
      ensures d.ords[o] == d.ords[p]
    {
      assert t.Owns(s) && u.Owns(s);
    }
  }

  predicate IdentSlots(cfg: Config, id: Ident, s: seq<Slot>)
    requires cfg.Valid()
  {
    && |s| == (if id.tag == All then 2 else 1)
    && IsCandidate(cfg, id, FirstTag(id.tag), s[0])
    && (id.tag == All ==> s[1] != s[0] && IsCandidate(cfg, id, Priority, s[1]))
  }

  function SlotSeq(t: Tmvt): (s: seq<Slot>)
    ensures forall x :: x in s ==> t.Owns(x)
  {
    [t.slot0] + if t.slot1.Some? then [t.slot1.value] else []
  }

  lemma ItemCount(ords: map<nat, int>, tmvts: map<int, Tmvt>)
    requires OrdsAgree(ords, tmvts)
    ensures |ItemsOf(ords, tmvts)| == |ords|
  {
    assert ItemsOf(ords, tmvts).Keys == ords.Keys;
    assert |ItemsOf(ords, tmvts)| == |ItemsOf(ords, tmvts).Keys| && |ords| == |ords.Keys|;
  }

  lemma NoItem(ords: map<nat, int>, tmvts: map<int, Tmvt>, o: nat)
    requires o !in ords
    ensures o !in ItemsOf(ords, tmvts)
  {
  }
}
