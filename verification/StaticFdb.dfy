/**
 * The static forwarding database: a hash table with four columns. A MAC
 * address has one candidate row per column; columns 0 and 1 hold addresses
 * for one VID, columns 2 and 3 addresses for all VIDs (VID 0).
 */
module StaticFdb {
  import opened Common

  const NCOLS: nat := 4
  const MAX_PORTS: nat := 16
  const VID_WILDCARD: nat := 0

  datatype Key = Key(mac: nat, vid: nat)

  /** A table slot. `used` and `matchVlan` are bits 15 and 12 of its general field. */
  datatype Smac = Smac(used: bool, matchVlan: bool, key: Key, ports: set<nat>)

  type Hash = (nat, Key) -> nat

  /** Candidate row of a key in a column; the row count is a power of two and masks the column hash. */
  function Row(hash: Hash, nrows: nat, c: nat, k: Key): (r: nat)
    requires nrows > 0
    ensures r < nrows
  {
    hash(c, k) % nrows
  }

  predicate ColIsVid(c: nat, vid: nat) {
    if vid == VID_WILDCARD then c >= 2 else c < 2
  }

  function SetGeneral(e: Smac): Smac {
    e.(used := e.ports != {}, matchVlan := e.key.vid != VID_WILDCARD)
  }

  // ---------------------------------------------------------------- what the requests mean

  datatype Request = Add(key: Key, pt: nat) | Del(key: Key, pt: nat)

  function PortsOf(m: map<Key, set<nat>>, k: Key): set<nat> {
    if k in m then m[k] else {}
  }

  function SetPorts(m: map<Key, set<nat>>, k: Key, ports: set<nat>): map<Key, set<nat>> {
    if ports == {} then m - {k} else m[k := ports]
  }

  function Next(m: map<Key, set<nat>>, r: Request, st: Status): map<Key, set<nat>> {
    match r
    case Add(k, pt) => if st == Ok then m[k := PortsOf(m, k) + {pt}] else m
    case Del(k, pt) => if k in m then SetPorts(m, k, m[k] - {pt}) else m
  }

  /** The forwarding map after a history of requests and their replies. */
  function Applied(rs: seq<Request>, sts: seq<Status>): map<Key, set<nat>>
    requires |rs| == |sts|
  {
    if rs == [] then map[]
    else
      var n := |rs| - 1;
      Next(Applied(rs[..n], sts[..n]), rs[n], sts[n])
  }

  /** Two other keys of the same class compete for both candidate slots of a key. */
  predicate Crowded(m: map<Key, set<nat>>, hash: Hash, nrows: nat, k: Key)
    requires nrows > 0
  {
    var c := if k.vid == VID_WILDCARD then 2 else 0;
    exists a, b :: a in m && b in m && a != b && a != k && b != k && Compete(hash, nrows, c, a, k) && Compete(hash, nrows, c + 1, b, k)
  }

  predicate Compete(hash: Hash, nrows: nat, c: nat, j: Key, k: Key)
    requires nrows > 0
  {
    ColIsVid(c, j.vid) && Row(hash, nrows, c, j) == Row(hash, nrows, c, k)
  }

  lemma Undone(m: map<Key, set<nat>>, k: Key, pt: nat)
    requires pt !in PortsOf(m, k) && (k in m ==> m[k] != {})
    ensures Next(Next(m, Add(k, pt), Ok), Del(k, pt), Ok) == m
  {
    assert PortsOf(m, k) + {pt} - {pt} == PortsOf(m, k);
    assert m[k := PortsOf(m, k) + {pt}] - {k} == m - {k};
  }

  /** A port was added to a key and not removed from it since. */
  predicate AddedLast(rs: seq<Request>, sts: seq<Status>, k: Key, pt: nat)
    requires |rs| == |sts|
  {
    exists i :: 0 <= i < |rs| && rs[i] == Add(k, pt) && sts[i] == Ok && forall j :: i < j < |rs| ==> rs[j] != Del(k, pt)
  }

  lemma AddedLastStep(rs: seq<Request>, sts: seq<Status>, r: Request, st: Status, k: Key, pt: nat)
    requires |rs| == |sts|
    ensures AddedLast(rs + [r], sts + [st], k, pt) <==>
            (r == Add(k, pt) && st == Ok) || (AddedLast(rs, sts, k, pt) && r != Del(k, pt))
  {
    var q, u := rs + [r], sts + [st];
    if r == Add(k, pt) && st == Ok {
      assert q[|rs|] == r && u[|rs|] == st;
    } else if AddedLast(rs, sts, k, pt) && r != Del(k, pt) {
      var i :| 0 <= i < |rs| && rs[i] == Add(k, pt) && sts[i] == Ok && forall j :: i < j < |rs| ==> rs[j] != Del(k, pt);
      assert q[i] == rs[i] && u[i] == sts[i];
    }
    if AddedLast(q, u, k, pt) {
      var i :| 0 <= i < |q| && q[i] == Add(k, pt) && u[i] == Ok && forall j :: i < j < |q| ==> q[j] != Del(k, pt);
      if i < |rs| {
        assert q[i] == rs[i] && u[i] == sts[i] && q[|rs|] == r;
        assert forall j :: i < j < |rs| ==> q[j] == rs[j];
      }
    }
  }

  /** A key has a port exactly if the port was added to it and has not been removed since. */
  lemma {:induction false} PortIff(rs: seq<Request>, sts: seq<Status>, k: Key, pt: nat)
    requires |rs| == |sts|
    ensures pt in PortsOf(Applied(rs, sts), k) <==> AddedLast(rs, sts, k, pt)
  {
    if rs != [] {
      var n := |rs| - 1;
      PortIff(rs[..n], sts[..n], k, pt);
      assert rs == rs[..n] + [rs[n]] && sts == sts[..n] + [sts[n]];
      AddedLastStep(rs[..n], sts[..n], rs[n], sts[n], k, pt);
      hide AddedLast;
    }
  }

  /** Keys without ports are not kept. */
  lemma {:induction false} KeysHavePorts(rs: seq<Request>, sts: seq<Status>, k: Key)
    requires |rs| == |sts|
    ensures k in Applied(rs, sts) <==> PortsOf(Applied(rs, sts), k) != {}
  {
    if rs != [] {
      var n := |rs| - 1;
      KeysHavePorts(rs[..n], sts[..n], k);
      if rs[n].Add? {
        assert rs[n].pt in PortsOf(Applied(rs[..n], sts[..n]), rs[n].key) + {rs[n].pt};
      }
    }
  }

  // ---------------------------------------------------------------- the table as a value

  type Cells = imap<(nat, nat), Smac>

  /** A used slot holds its key in one of the key's own candidate slots, and is that key's slot. */
  ghost predicate CellOk(e: Smac, r: nat, c: nat, colOf: map<Key, nat>, hash: Hash, nrows: nat)
    requires nrows > 0
  {
    e.used ==>
      && e.key in colOf && colOf[e.key] == c && Row(hash, nrows, c, e.key) == r && ColIsVid(c, e.key.vid)
      && e.matchVlan == (e.key.vid != VID_WILDCARD)
      && exists p :: p in e.ports
  }

  function Slot(colOf: map<Key, nat>, hash: Hash, nrows: nat, k: Key): (nat, nat)
    requires nrows > 0 && k in colOf
  {
    (Row(hash, nrows, colOf[k], k), colOf[k])
  }

  ghost predicate Held(colOf: map<Key, nat>, hash: Hash, nrows: nat, s: (nat, nat))
    requires nrows > 0
  {
    exists k :: k in colOf && Slot(colOf, hash, nrows, k) == s
  }

  /** Where a new key goes: the first column of its class in which no key holds its slot. */
  ghost function Home(colOf: map<Key, nat>, hash: Hash, nrows: nat, k: Key): Option<nat>
    requires nrows > 0
  {
    var c := if k.vid == VID_WILDCARD then 2 else 0;
    if !Held(colOf, hash, nrows, (Row(hash, nrows, c, k), c)) then Some(c)
    else if !Held(colOf, hash, nrows, (Row(hash, nrows, c + 1, k), c + 1)) then Some(c + 1)
    else None
  }

  /** The forwarding map, and the column of every key. */
  datatype Store = Store(ports: map<Key, set<nat>>, colOf: map<Key, nat>)

  ghost function Reply(s: Store, hash: Hash, nrows: nat, r: Request): Status
    requires nrows > 0
  {
    if r.Add? && r.key !in s.colOf && Home(s.colOf, hash, nrows, r.key).None? then ENoMem else Ok
  }

  /** A new key goes to its home; a key without ports leaves. */
  ghost function Step(s: Store, hash: Hash, nrows: nat, r: Request): (Status, Store)
    requires nrows > 0
  {
    var st := Reply(s, hash, nrows, r);
    var ports := Next(s.ports, r, st);
    var home := if r.Add? && r.key !in s.colOf then Home(s.colOf, hash, nrows, r.key) else None;
    (st, Store(ports, if home.Some? then s.colOf[r.key := home.value]
                      else if r.key in ports then s.colOf else s.colOf - {r.key}))
  }

  ghost function After(hash: Hash, nrows: nat, rs: seq<Request>): Store
    requires nrows > 0
  {
    if rs == [] then Store(map[], map[]) else Step(After(hash, nrows, rs[..|rs| - 1]), hash, nrows, rs[|rs| - 1]).1
  }

  /** The replies to a history of requests. */
  ghost function Replies(hash: Hash, nrows: nat, rs: seq<Request>): (sts: seq<Status>)
    requires nrows > 0
    ensures |sts| == |rs|
  {
    if rs == [] then []
    else Replies(hash, nrows, rs[..|rs| - 1]) + [Reply(After(hash, nrows, rs[..|rs| - 1]), hash, nrows, rs[|rs| - 1])]
  }

  ghost predicate KeyOk(cells: Cells, colOf: map<Key, nat>, hash: Hash, nrows: nat, k: Key)
    requires nrows > 0 && k in colOf
  {
    var s := Slot(colOf, hash, nrows, k);
    s in cells && cells[s].used && cells[s].key == k
  }

  /** `colOf` knows the column of every key in the table. */
  ghost predicate Indexed(cells: Cells, colOf: map<Key, nat>, hash: Hash, nrows: nat) {
    && nrows > 0
    && (forall s: (nat, nat) :: s in cells <==> s.0 < nrows && s.1 < NCOLS)
    && (forall s :: s in cells ==> CellOk(cells[s], s.0, s.1, colOf, hash, nrows))
    && (forall k :: k in colOf ==> KeyOk(cells, colOf, hash, nrows, k))
  }

  /** The forwarding map the table stands for. */
  ghost function View(cells: Cells, colOf: map<Key, nat>, hash: Hash, nrows: nat): (m: map<Key, set<nat>>)
    requires Indexed(cells, colOf, hash, nrows)
    ensures m.Keys == colOf.Keys && |m| == |colOf|
  {
    assert forall k :: k in colOf ==> KeyOk(cells, colOf, hash, nrows, k);
    var m := map k | k in colOf :: cells[Slot(colOf, hash, nrows, k)].ports;
    assert m.Keys == colOf.Keys;
    assert |m| == |m.Keys| && |colOf| == |colOf.Keys|;
    m
  }

  /** A slot of another key does not notice that key k comes, changes or goes. */
  lemma OtherCell(e: Smac, s: (nat, nat), colOf: map<Key, nat>, hash: Hash, nrows: nat, k: Key, c: nat, colOf': map<Key, nat>)
    requires nrows > 0 && CellOk(e, s.0, s.1, colOf, hash, nrows) && s != (Row(hash, nrows, c, k), c)
    requires k in colOf ==> colOf[k] == c
    requires colOf' == colOf - {k} || colOf' == colOf[k := c]
    ensures CellOk(e, s.0, s.1, colOf', hash, nrows)
  {
    hide Row, ColIsVid;
  }

  /** Another key keeps its slot. */
  lemma OtherKey(cells: Cells, colOf: map<Key, nat>, hash: Hash, nrows: nat, k: Key, at: (nat, nat), e: Smac, colOf': map<Key, nat>, j: Key)
    requires nrows > 0 && j != k && j in colOf' && (colOf' == colOf - {k} || colOf' == colOf[k := at.1])
    requires KeyOk(cells, colOf, hash, nrows, j) && at in cells && (cells[at].used ==> cells[at].key == k)
    ensures KeyOk(cells[at := e], colOf', hash, nrows, j)
    ensures Slot(colOf', hash, nrows, j) == Slot(colOf, hash, nrows, j)
    ensures cells[at := e][Slot(colOf, hash, nrows, j)] == cells[Slot(colOf, hash, nrows, j)]
  {
    hide Row;
  }

  /** One slot of a key is written. */
  lemma SlotWritten(cells: Cells, colOf: map<Key, nat>, hash: Hash, nrows: nat, k: Key, c: nat, e: Smac, colOf': map<Key, nat>)
    requires Indexed(cells, colOf, hash, nrows) && c < NCOLS
    requires if k in colOf then colOf[k] == c else !cells[(Row(hash, nrows, c, k), c)].used && ColIsVid(c, k.vid) && e.ports != {}
    requires e == SetGeneral(Smac(e.used, e.matchVlan, k, e.ports))
    requires colOf' == if e.ports == {} then colOf - {k} else colOf[k := c]
    ensures cells[(Row(hash, nrows, c, k), c)].used <==> k in colOf
    ensures Indexed(cells[(Row(hash, nrows, c, k), c) := e], colOf', hash, nrows)
    ensures View(cells[(Row(hash, nrows, c, k), c) := e], colOf', hash, nrows) == SetPorts(View(cells, colOf, hash, nrows), k, e.ports)
  {
    var at := (Row(hash, nrows, c, k), c);
    ThisSlot(cells, colOf, hash, nrows, k, c, e, colOf');
    var next := cells[at := e];
    hide *;
    forall s | s in next
      ensures CellOk(next[s], s.0, s.1, colOf', hash, nrows)
    {
      if s != at {
        CellThere(cells, colOf, hash, nrows, s);
        OtherCell(cells[s], s, colOf, hash, nrows, k, c, colOf');
      }
    }
    forall j | j in colOf' && j != k
      ensures KeyOk(next, colOf', hash, nrows, j)
      ensures Slot(colOf', hash, nrows, j) == Slot(colOf, hash, nrows, j)
      ensures next[Slot(colOf, hash, nrows, j)] == cells[Slot(colOf, hash, nrows, j)]
    {
      KeyThere(cells, colOf, hash, nrows, j);
      OtherKey(cells, colOf, hash, nrows, k, at, e, colOf', j);
    }
    IndexedThen(cells, next, colOf, colOf', hash, nrows);
    ViewThen(cells, next, colOf, colOf', hash, nrows, k, e.ports);
  }

  lemma CellThere(cells: Cells, colOf: map<Key, nat>, hash: Hash, nrows: nat, s: (nat, nat))
    requires Indexed(cells, colOf, hash, nrows) && s in cells
    ensures CellOk(cells[s], s.0, s.1, colOf, hash, nrows)
  {
  }

  lemma KeyThere(cells: Cells, colOf: map<Key, nat>, hash: Hash, nrows: nat, k: Key)
    requires Indexed(cells, colOf, hash, nrows) && k in colOf
    ensures KeyOk(cells, colOf, hash, nrows, k) && Slot(colOf, hash, nrows, k) in cells
  {
  }

  lemma IndexedThen(cells: Cells, next: Cells, colOf: map<Key, nat>, colOf': map<Key, nat>, hash: Hash, nrows: nat)
    requires Indexed(cells, colOf, hash, nrows) && next.Keys == cells.Keys
    requires forall s :: s in next ==> CellOk(next[s], s.0, s.1, colOf', hash, nrows)
    requires forall k :: k in colOf' ==> KeyOk(next, colOf', hash, nrows, k)
    ensures Indexed(next, colOf', hash, nrows)
  {
    hide CellOk, KeyOk;
  }

  lemma ViewAt(cells: Cells, colOf: map<Key, nat>, hash: Hash, nrows: nat, k: Key)
    requires Indexed(cells, colOf, hash, nrows) && k in colOf
    ensures Slot(colOf, hash, nrows, k) in cells && View(cells, colOf, hash, nrows)[k] == cells[Slot(colOf, hash, nrows, k)].ports
  {
    assert KeyOk(cells, colOf, hash, nrows, k);
  }

  lemma PointwiseSet(before: map<Key, set<nat>>, after: map<Key, set<nat>>, k: Key, ports: set<nat>)
    requires after.Keys == if ports == {} then before.Keys - {k} else before.Keys + {k}
    requires forall j :: j in after ==> after[j] == if j == k then ports else PortsOf(before, j)
    ensures after == SetPorts(before, k, ports)
  {
    assert after.Keys == SetPorts(before, k, ports).Keys;
  }

  lemma ViewThen(cells: Cells, next: Cells, colOf: map<Key, nat>, colOf': map<Key, nat>, hash: Hash, nrows: nat, k: Key, ports: set<nat>)
    requires Indexed(cells, colOf, hash, nrows) && Indexed(next, colOf', hash, nrows)
    requires colOf'.Keys == if ports == {} then colOf.Keys - {k} else colOf.Keys + {k}
    requires forall j :: j in colOf' && j != k ==>
               next[Slot(colOf', hash, nrows, j)].ports == cells[Slot(colOf, hash, nrows, j)].ports
    requires k in colOf' ==> next[Slot(colOf', hash, nrows, k)].ports == ports
    ensures View(next, colOf', hash, nrows) == SetPorts(View(cells, colOf, hash, nrows), k, ports)
  {
    hide CellOk, KeyOk, Slot, Indexed, View;
    var before, after := View(cells, colOf, hash, nrows), View(next, colOf', hash, nrows);
    forall j | j in after
      ensures j in colOf' && after[j] == if j == k then ports else PortsOf(before, j)
    {
      ViewAt(next, colOf', hash, nrows, j);
      if j != k {
        ViewAt(cells, colOf, hash, nrows, j);
      }
    }
    PointwiseSet(before, after, k, ports);
  }

  lemma ThisSlot(cells: Cells, colOf: map<Key, nat>, hash: Hash, nrows: nat, k: Key, c: nat, e: Smac, colOf': map<Key, nat>)
    requires Indexed(cells, colOf, hash, nrows) && c < NCOLS
    requires if k in colOf then colOf[k] == c else !cells[(Row(hash, nrows, c, k), c)].used && ColIsVid(c, k.vid) && e.ports != {}
    requires e == SetGeneral(Smac(e.used, e.matchVlan, k, e.ports))
    requires colOf' == if e.ports == {} then colOf - {k} else colOf[k := c]
    ensures var at := (Row(hash, nrows, c, k), c);
            && at in cells && (cells[at].used <==> k in colOf) && (cells[at].used ==> cells[at].key == k)
            && CellOk(e, at.0, at.1, colOf', hash, nrows)
            && (k in colOf' ==> KeyOk(cells[at := e], colOf', hash, nrows, k) && Slot(colOf', hash, nrows, k) == at)
  {
    hide Row;
    var at := (Row(hash, nrows, c, k), c);
    RowBound(hash, nrows, c, k);
    assert at in cells && CellOk(cells[at], at.0, at.1, colOf, hash, nrows);
    assert k in colOf ==> KeyOk(cells, colOf, hash, nrows, k);
    if e.ports != {} {
      var p :| p in e.ports;
    }
  }

  lemma RowBound(hash: Hash, nrows: nat, c: nat, k: Key)
    requires nrows > 0
    ensures Row(hash, nrows, c, k) < nrows
  {
  }

  /** A slot is in use exactly if a key has it. */
  lemma UsedIffHeld(cells: Cells, colOf: map<Key, nat>, hash: Hash, nrows: nat, s: (nat, nat))
    requires Indexed(cells, colOf, hash, nrows) && s in cells
    ensures cells[s].used <==> Held(colOf, hash, nrows, s)
  {
    hide Row, ColIsVid;
    CellThere(cells, colOf, hash, nrows, s);
    if cells[s].used {
      assert Slot(colOf, hash, nrows, cells[s].key) == s;
    }
    if Held(colOf, hash, nrows, s) {
      var k :| k in colOf && Slot(colOf, hash, nrows, k) == s;
      KeyThere(cells, colOf, hash, nrows, k);
    }
  }

  /** The first candidate slot of the class that is not in use is the home of a new key. */
  lemma HomeIsFirstFree(cells: Cells, colOf: map<Key, nat>, hash: Hash, nrows: nat, k: Key, e: seq<Smac>, col: Option<nat>)
    requires nrows > 0 && Indexed(cells, colOf, hash, nrows) && |e| == NCOLS
    requires forall c: nat :: c < NCOLS ==> (Row(hash, nrows, c, k), c) in cells && e[c] == cells[(Row(hash, nrows, c, k), c)]
    requires col.Some? ==> col.value < NCOLS && !e[col.value].used && ColIsVid(col.value, k.vid)
    requires forall c :: 0 <= c < (if col.Some? then col.value else NCOLS) && ColIsVid(c, k.vid) ==> e[c].used
    ensures Home(colOf, hash, nrows, k) == col
  {
    hide Row, Held, Indexed;
    forall c: nat | c < NCOLS
      ensures e[c].used <==> Held(colOf, hash, nrows, (Row(hash, nrows, c, k), c))
    {
      UsedIffHeld(cells, colOf, hash, nrows, (Row(hash, nrows, c, k), c));
    }
  }

  // ---------------------------------------------------------------- the table in place

  class Fdb {
    const nrows: nat
    const hash: Hash
    const table: array2<Smac>
    var sents: nat

    /** Which column holds a key. */
    ghost var colOf: map<Key, nat>

    ghost predicate Shape() {
      nrows > 0 && table.Length0 == nrows && table.Length1 == NCOLS
    }

    ghost function Cells(): Cells
      requires Shape()
      reads table
    {
      imap s: (nat, nat) | s.0 < nrows && s.1 < NCOLS :: table[s.0, s.1]
    }

    ghost predicate Valid()
      reads this, table
    {
      Shape() && Indexed(Cells(), colOf, hash, nrows) && sents == |colOf|
    }

    /** The forwarding map the table stands for. */
    ghost function Map(): map<Key, set<nat>>
      requires Valid()
      reads this, table
    {
      View(Cells(), colOf, hash, nrows)
    }

    ghost function Abs(): Store
      requires Valid()
      reads this, table
    {
      Store(Map(), colOf)
    }

    constructor (nrows: nat, hash: Hash)
      requires nrows > 0
      ensures Valid() && fresh(table) && this.nrows == nrows && this.hash == hash && Abs() == Store(map[], map[])
    {
      this.nrows, this.hash, sents := nrows, hash, 0;
      table := new Smac[nrows, NCOLS]((_, _) => Smac(false, false, Key(0, 0), {}));
      colOf := map[];
    }

    /** Read the candidate slots of a key. */
    method GetRows(k: Key) returns (e: seq<Smac>)
      requires Shape()
      ensures |e| == NCOLS && forall c :: 0 <= c < NCOLS ==> e[c] == table[Row(hash, nrows, c, k), c]
    {
      e := [];
      for c := 0 to NCOLS
        invariant |e| == c && forall d :: 0 <= d < c ==> e[d] == table[Row(hash, nrows, d, k), d]
      {
        e := e + [table[Row(hash, nrows, c, k), c]];
      }
    }

    /** The first candidate slot in use for a key. */
    method FdbFit(e: seq<Smac>, k: Key) returns (col: Option<nat>)
      requires |e| == NCOLS
      ensures col.Some? ==> col.value < NCOLS && e[col.value].used && e[col.value].key == k
      ensures col.None? ==> forall c :: 0 <= c < NCOLS ==> !(e[c].used && e[c].key == k)
    {
      for c := 0 to NCOLS
        invariant forall d :: 0 <= d < c ==> !(e[d].used && e[d].key == k)
      {
        if e[c].used && e[c].key == k {
          return Some(c);
        }
      }
      return None;
    }

    method FdbFree(e: seq<Smac>, vid: nat) returns (col: Option<nat>)
      requires |e| == NCOLS
      ensures col.Some? ==> col.value < NCOLS && !e[col.value].used && ColIsVid(col.value, vid)
      ensures forall c :: 0 <= c < (if col.Some? then col.value else NCOLS) && ColIsVid(c, vid) ==> e[c].used
    {
      for c := 0 to NCOLS
        invariant forall d :: 0 <= d < c && ColIsVid(d, vid) ==> e[d].used
      {
        if !e[c].used && ColIsVid(c, vid) {
          return Some(c);
        }
      }
      return None;
    }

    /** Write the slot of a key. */
    method PutSlot(k: Key, c: nat, ports: set<nat>)
      requires Valid() && c < NCOLS
      requires if k in colOf then colOf[k] == c else !table[Row(hash, nrows, c, k), c].used && ColIsVid(c, k.vid) && ports != {}
      modifies table, this`sents, this`colOf
      ensures Valid() && Map() == SetPorts(old(Map()), k, ports)
      ensures colOf == if ports == {} then old(colOf) - {k} else old(colOf)[k := c]
    {
      hide Indexed, View, ColIsVid, Row, SetGeneral, SetPorts;
      ghost var cells, was := Cells(), colOf;
      var r := Row(hash, nrows, c, k);
      var e := SetGeneral(Smac(false, false, k, ports));
      SetGeneralKeeps(Smac(false, false, k, ports));
      ghost var next := if ports == {} then was - {k} else was[k := c];
      SlotWritten(cells, was, hash, nrows, k, c, e, next);
      ColumnCount(was, k, c);
      sents := if !table[r, c].used then sents + 1 else if ports == {} then sents - 1 else sents;
      table[r, c] := e;
      colOf := next;
      assert Cells() == cells[(r, c) := e];
    }

    /** Refused exactly for a new key whose two slots are both in use. */
    method AddPort(k: Key, pt: nat) returns (st: Status)
      requires Valid() && pt < MAX_PORTS
      modifies table, this`sents, this`colOf
      ensures Valid() && (st, Abs()) == Step(old(Abs()), hash, nrows, Add(k, pt))
      ensures st == ENoMem <==>
              k !in old(Map()) && forall c: nat :: c < NCOLS && ColIsVid(c, k.vid) ==> old(table[Row(hash, nrows, c, k), c]).used
      ensures st == ENoMem ==> Crowded(old(Map()), hash, nrows, k) && Cells() == old(Cells()) && sents == old(sents)
    {
      hide Indexed, View, Row, Crowded, ColIsVid, Home;
      ghost var cells := Cells();
      var e := GetRows(k);
      Candidates(cells, colOf, hash, nrows, k, e);
      var fit := FdbFit(e, k);
      if fit.Some? {
        assert colOf[k := fit.value] == colOf;
        PutSlot(k, fit.value, e[fit.value].ports + {pt});
        return Ok;
      }
      var free := FdbFree(e, k.vid);
      HomeIsFirstFree(cells, colOf, hash, nrows, k, e, free);
      if free.Some? {
        assert {} + {pt} == {pt};
        PutSlot(k, free.value, {pt});
        return Ok;
      }
      BothTaken(cells, colOf, hash, nrows, k, e);
      assert colOf - {k} == colOf;
      st := ENoMem;
    }

    method DelPort(k: Key, pt: nat)
      requires Valid() && pt < MAX_PORTS
      modifies table, this`sents, this`colOf
      ensures Valid() && (Ok, Abs()) == Step(old(Abs()), hash, nrows, Del(k, pt))
    {
      hide Indexed, View, Row, ColIsVid;
      var e := GetRows(k);
      Candidates(Cells(), colOf, hash, nrows, k, e);
      var fit := FdbFit(e, k);
      if fit.Some? {
        assert colOf[k := fit.value] == colOf;
        PutSlot(k, fit.value, e[fit.value].ports - {pt});
      } else {
        assert colOf - {k} == colOf;
      }
    }

    method Handle(r: Request) returns (st: Status)
      requires Valid() && r.pt < MAX_PORTS
      modifies table, this`sents, this`colOf
      ensures Valid() && (st, Abs()) == Step(old(Abs()), hash, nrows, r)
    {
      hide Indexed, View, Row, Crowded, ColIsVid, Home;
      st := Ok;
      match r {
        case Add(k, pt) => st := AddPort(k, pt);
        case Del(k, pt) => DelPort(k, pt);
      }
    }

    /** The keys with a port, read off the table row by row. */
    method Dump(pt: nat) returns (keys: seq<Key>)
      requires Valid()
      ensures forall i, j :: 0 <= i < j < |keys| ==> keys[i] != keys[j]
      ensures forall k :: k in keys <==> k in Map() && pt in Map()[k]
    {
      hide Indexed, View, Row, ColIsVid;
      keys := [];
      for row := 0 to nrows
        invariant Listed(keys, Cells(), colOf, hash, nrows, row, 0, pt)
      {
        for col := 0 to NCOLS
          invariant Listed(keys, Cells(), colOf, hash, nrows, row, col, pt)
        {
          ListedStep(keys, Cells(), colOf, hash, nrows, row, col, pt);
          var e := table[row, col];
          if e.used && pt in e.ports {
            keys := keys + [e.key];
          }
        }
        ListedRow(keys, Cells(), colOf, hash, nrows, row, pt);
      }
      ListedAll(keys, Cells(), colOf, hash, nrows, pt);
    }
  }

  /** The candidate slots of a key: it is in the map exactly if one of them holds it. */
  lemma Candidates(cells: Cells, colOf: map<Key, nat>, hash: Hash, nrows: nat, k: Key, e: seq<Smac>)
    requires Indexed(cells, colOf, hash, nrows) && |e| == NCOLS
    requires forall c: nat :: c < NCOLS ==> (Row(hash, nrows, c, k), c) in cells && e[c] == cells[(Row(hash, nrows, c, k), c)]
    ensures forall c :: 0 <= c < NCOLS && e[c].used && e[c].key == k ==>
              k in colOf && colOf[k] == c && View(cells, colOf, hash, nrows)[k] == e[c].ports
    ensures k in colOf ==> colOf[k] < NCOLS && e[colOf[k]].used && e[colOf[k]].key == k
  {
    hide Row;
    forall c | 0 <= c < NCOLS && e[c].used && e[c].key == k
      ensures k in colOf && colOf[k] == c && View(cells, colOf, hash, nrows)[k] == e[c].ports
    {
      CellThere(cells, colOf, hash, nrows, (Row(hash, nrows, c, k), c));
    }
    if k in colOf {
      KeyThere(cells, colOf, hash, nrows, k);
    }
  }

  /** When both slots for a new key are taken, two other keys compete for them. */
  lemma BothTaken(cells: Cells, colOf: map<Key, nat>, hash: Hash, nrows: nat, k: Key, e: seq<Smac>)
    requires Indexed(cells, colOf, hash, nrows) && |e| == NCOLS && k !in colOf
    requires forall c: nat :: c < NCOLS ==> (Row(hash, nrows, c, k), c) in cells && e[c] == cells[(Row(hash, nrows, c, k), c)]
    requires forall c :: 0 <= c < NCOLS && ColIsVid(c, k.vid) ==> e[c].used
    ensures Crowded(View(cells, colOf, hash, nrows), hash, nrows, k)
  {
    hide Row;
    var c := if k.vid == VID_WILDCARD then 2 else 0;
    CellThere(cells, colOf, hash, nrows, (Row(hash, nrows, c, k), c));
    CellThere(cells, colOf, hash, nrows, (Row(hash, nrows, c + 1, k), c + 1));
    assert ColIsVid(c, k.vid) && ColIsVid(c + 1, k.vid);
    assert Compete(hash, nrows, c, e[c].key, k) && Compete(hash, nrows, c + 1, e[c + 1].key, k);
  }

  /** The dump so far: each key with the port whose slot lies before (row, col), once. */
  ghost predicate Listed(keys: seq<Key>, cells: Cells, colOf: map<Key, nat>, hash: Hash, nrows: nat, row: nat, col: nat, pt: nat) {
    && Indexed(cells, colOf, hash, nrows)
    && (forall i, j :: 0 <= i < j < |keys| ==> keys[i] != keys[j])
    && (forall k :: k in keys <==> k in colOf && pt in View(cells, colOf, hash, nrows)[k] && Before(Slot(colOf, hash, nrows, k), row, col))
  }

  predicate Before(s: (nat, nat), row: nat, col: nat) {
    s.0 < row || (s.0 == row && s.1 < col)
  }

  lemma ListedStep(keys: seq<Key>, cells: Cells, colOf: map<Key, nat>, hash: Hash, nrows: nat, row: nat, col: nat, pt: nat)
    requires Listed(keys, cells, colOf, hash, nrows, row, col, pt) && (row, col) in cells
    ensures var e := cells[(row, col)];
            Listed(if e.used && pt in e.ports then keys + [e.key] else keys, cells, colOf, hash, nrows, row, col + 1, pt)
  {
    hide Row, Indexed, View;
    var e := cells[(row, col)];
    var next := if e.used && pt in e.ports then keys + [e.key] else keys;
    CellThere(cells, colOf, hash, nrows, (row, col));
    forall k
      ensures k in next <==> k in colOf && pt in View(cells, colOf, hash, nrows)[k] && Before(Slot(colOf, hash, nrows, k), row, col + 1)
    {
      assert k in next <==> k in keys || (e.used && pt in e.ports && k == e.key);
      if k in colOf {
        KeyThere(cells, colOf, hash, nrows, k);
        ViewAt(cells, colOf, hash, nrows, k);
      }
    }
  }

  lemma ListedRow(keys: seq<Key>, cells: Cells, colOf: map<Key, nat>, hash: Hash, nrows: nat, row: nat, pt: nat)
    requires Listed(keys, cells, colOf, hash, nrows, row, NCOLS, pt)
    ensures Listed(keys, cells, colOf, hash, nrows, row + 1, 0, pt)
  {
    hide Row, View;
    forall k | k in colOf
      ensures Before(Slot(colOf, hash, nrows, k), row, NCOLS) <==> Before(Slot(colOf, hash, nrows, k), row + 1, 0)
    {
      assert KeyOk(cells, colOf, hash, nrows, k);
    }
  }

  lemma ListedAll(keys: seq<Key>, cells: Cells, colOf: map<Key, nat>, hash: Hash, nrows: nat, pt: nat)
    requires Listed(keys, cells, colOf, hash, nrows, nrows, 0, pt)
    ensures forall k :: k in keys <==> k in colOf && pt in View(cells, colOf, hash, nrows)[k]
  {
    hide Row, View;
    forall k | k in colOf
      ensures Before(Slot(colOf, hash, nrows, k), nrows, 0)
    {
      assert KeyOk(cells, colOf, hash, nrows, k);
    }
  }

  /** Adding a port to a key that lacks it and removing it again leaves the table's map and count as they
      were, whether the add succeeds or not. */
  method AddThenDel(f: Fdb, k: Key, pt: nat) returns (st: Status)
    requires f.Valid() && pt < MAX_PORTS && pt !in PortsOf(f.Map(), k)
    modifies f.table, f`sents, f`colOf
    ensures f.Valid() && f.Map() == old(f.Map()) && f.sents == old(f.sents)
    ensures st == Reply(old(f.Abs()), f.hash, f.nrows, Add(k, pt))
  {
    hide Indexed, View, Crowded, Next, Home;
    ghost var m := f.Map();
    PortsLeft(f, k);
    st := f.AddPort(k, pt);
    f.DelPort(k, pt);
    if st == Ok {
      Undone(m, k, pt);
    } else {
      NothingToDelete(m, k, pt);
    }
  }

  lemma PortsLeft(f: Fdb, k: Key)
    requires f.Valid()
    ensures k in f.Map() ==> f.Map()[k] != {}
  {
    if k in f.Map() {
      ViewAt(f.Cells(), f.colOf, f.hash, f.nrows, k);
      KeyThere(f.Cells(), f.colOf, f.hash, f.nrows, k);
      var s := Slot(f.colOf, f.hash, f.nrows, k);
      CellThere(f.Cells(), f.colOf, f.hash, f.nrows, s);
    }
  }

  lemma NothingToDelete(m: map<Key, set<nat>>, k: Key, pt: nat)
    requires k !in m
    ensures Next(Next(m, Add(k, pt), ENoMem), Del(k, pt), Ok) == m
  {
  }

  // ---------------------------------------------------------------- runs

  lemma {:induction false} AfterIsApplied(hash: Hash, nrows: nat, rs: seq<Request>)
    requires nrows > 0
    ensures After(hash, nrows, rs).ports == Applied(rs, Replies(hash, nrows, rs))
  {
    hide Reply, Next, Home;
    if rs != [] {
      AfterIsApplied(hash, nrows, rs[..|rs| - 1]);
      var sts := Replies(hash, nrows, rs);
      assert sts[..|sts| - 1] == Replies(hash, nrows, rs[..|rs| - 1]);
    }
  }

  /** Keys with ports are the placed ones, each in a column of its class. */
  ghost predicate StoreOk(s: Store) {
    s.ports.Keys == s.colOf.Keys && forall k :: k in s.colOf ==> ColIsVid(s.colOf[k], k.vid)
  }

  lemma {:induction false} AfterOk(hash: Hash, nrows: nat, rs: seq<Request>)
    requires nrows > 0
    ensures StoreOk(After(hash, nrows, rs))
  {
    hide Held;
    if rs != [] {
      AfterOk(hash, nrows, rs[..|rs| - 1]);
    }
  }

  /** After any history an add is refused only for a new key whose two slots are wanted by two other keys of
      its class. */
  lemma RefusedOnlyCrowded(hash: Hash, nrows: nat, rs: seq<Request>, k: Key, pt: nat)
    requires nrows > 0
    ensures var s := After(hash, nrows, rs);
            Reply(s, hash, nrows, Add(k, pt)) == ENoMem ==> k !in s.ports && Crowded(s.ports, hash, nrows, k)
  {
    hide Row;
    var s := After(hash, nrows, rs);
    AfterOk(hash, nrows, rs);
    if Reply(s, hash, nrows, Add(k, pt)) == ENoMem {
      var c := if k.vid == VID_WILDCARD then 2 else 0;
      var a :| a in s.colOf && Slot(s.colOf, hash, nrows, a) == (Row(hash, nrows, c, k), c);
      var b :| b in s.colOf && Slot(s.colOf, hash, nrows, b) == (Row(hash, nrows, c + 1, k), c + 1);
      assert Compete(hash, nrows, c, a, k) && Compete(hash, nrows, c + 1, b, k);
    }
  }

  /** Any history of requests is answered as the specification says; the table stands for the forwarding map,
      and `sents` counts its keys. */
  method Run(nrows: nat, hash: Hash, rs: seq<Request>) returns (f: Fdb, sts: seq<Status>)
    requires nrows > 0 && forall i :: 0 <= i < |rs| ==> rs[i].pt < MAX_PORTS
    ensures f.Valid() && f.nrows == nrows && f.hash == hash
    ensures sts == Replies(hash, nrows, rs) && f.Abs() == After(hash, nrows, rs)
    ensures f.Map() == Applied(rs, sts) && f.sents == |Applied(rs, sts)|
  {
    hide Fdb.Valid, Fdb.Abs, Fdb.Map, Step, Applied, After, Replies;
    AfterOnEmpty(hash, nrows);
    f := new Fdb(nrows, hash);
    sts := [];
    for i := 0 to |rs|
      invariant fresh(f) && fresh(f.table) && f.Valid() && f.nrows == nrows && f.hash == hash
      invariant sts == Replies(hash, nrows, rs[..i]) && f.Abs() == After(hash, nrows, rs[..i])
    {
      var st := f.Handle(rs[i]);
      assert rs[..i + 1] == rs[..i] + [rs[i]];
      AfterOne(hash, nrows, rs[..i], rs[i]);
      sts := sts + [st];
    }
    assert rs[..|rs|] == rs;
    AfterIsApplied(hash, nrows, rs);
    MapIsPorts(f);
  }

  lemma AfterOnEmpty(hash: Hash, nrows: nat)
    requires nrows > 0
    ensures After(hash, nrows, []) == Store(map[], map[]) && Replies(hash, nrows, []) == []
  {
  }

  lemma AfterOne(hash: Hash, nrows: nat, rs: seq<Request>, r: Request)
    requires nrows > 0
    ensures (Replies(hash, nrows, rs + [r]), After(hash, nrows, rs + [r]))
            == (Replies(hash, nrows, rs) + [Step(After(hash, nrows, rs), hash, nrows, r).0], Step(After(hash, nrows, rs), hash, nrows, r).1)
  {
    assert (rs + [r])[..|rs|] == rs;
  }

  lemma MapIsPorts(f: Fdb)
    requires f.Valid()
    ensures f.Map() == f.Abs().ports && f.sents == |f.Map()|
  {
    hide Indexed, View;
  }

  /** What a dump shows after any history: exactly the keys whose forwarding map holds the port, each once. */
  method DumpAfter(nrows: nat, hash: Hash, rs: seq<Request>, pt: nat) returns (sts: seq<Status>, keys: seq<Key>, n: nat)
    requires nrows > 0 && forall i :: 0 <= i < |rs| ==> rs[i].pt < MAX_PORTS
    ensures sts == Replies(hash, nrows, rs)
    ensures n == |Applied(rs, sts)|
    ensures forall i, j :: 0 <= i < j < |keys| ==> keys[i] != keys[j]
    ensures forall k :: k in keys <==> k in Applied(rs, sts) && pt in Applied(rs, sts)[k]
  {
    hide Indexed, View, Applied;
    var f;
    f, sts := Run(nrows, hash, rs);
    keys := f.Dump(pt);
    n := f.sents;
  }

  // ---------------------------------------------------------------- what frames find

  /** The ports a slot gives a frame: it is used, the address is the frame's, and so is the VID if the slot
      matches VIDs. */
  function Hit(e: Smac, mac: nat, vid: nat): Option<set<nat>> {
    if e.used && e.key.mac == mac && (e.matchVlan ==> e.key.vid == vid) then Some(e.ports) else None
  }

  /** The columns c and c + 1 give exactly the ports of a key. */
  predicate Finds(hits: seq<Option<set<nat>>>, c: nat, m: map<Key, set<nat>>, k: Key)
    requires c + 1 < |hits|
  {
    && (hits[c].Some? || hits[c + 1].Some? <==> k in m)
    && (hits[c].Some? ==> k in m && hits[c].value == m[k])
    && (hits[c + 1].Some? ==> k in m && hits[c + 1].value == m[k])
  }

  /** Whatever frame is looked up after any history of requests, in the rows of its address and VID in columns
      0 and 1 and of its address for all VIDs in columns 2 and 3: the first two give it exactly the ports that
      were added for its address and VID, the other two those added for its address and all VIDs. */
  method LookupAfter(nrows: nat, hash: Hash, rs: seq<Request>, mac: nat, vid: nat)
    returns (sts: seq<Status>, hits: seq<Option<set<nat>>>)
    requires nrows > 0 && vid != 0 && forall i :: 0 <= i < |rs| ==> rs[i].pt < MAX_PORTS
    ensures sts == Replies(hash, nrows, rs) && |hits| == 4
    ensures Finds(hits, 0, Applied(rs, sts), Key(mac, vid)) && Finds(hits, 2, Applied(rs, sts), Key(mac, 0))
  {
    hide Fdb.Valid, Fdb.Map, Applied, Replies, Finds;
    var f;
    f, sts := Run(nrows, hash, rs);
    hits := Lookup(f, mac, vid);
  }

  method Lookup(f: Fdb, mac: nat, vid: nat) returns (hits: seq<Option<set<nat>>>)
    requires f.Valid() && vid != 0
    ensures |hits| == 4 && Finds(hits, 0, f.Map(), Key(mac, vid)) && Finds(hits, 2, f.Map(), Key(mac, 0))
  {
    hide Indexed, View, Hit, Row;
    var e := f.GetRows(Key(mac, vid));
    var g := f.GetRows(Key(mac, 0));
    hits := [Hit(e[0], mac, vid), Hit(e[1], mac, vid), Hit(g[2], mac, vid), Hit(g[3], mac, vid)];
    SlotsFind(f, e, mac, vid, Key(mac, vid));
    SlotsFind(f, g, mac, vid, Key(mac, 0));
  }

  lemma SlotsFind(f: Fdb, e: seq<Smac>, mac: nat, vid: nat, k: Key)
    requires f.Valid() && |e| == NCOLS && vid != 0 && (k == Key(mac, vid) || k == Key(mac, 0))
    requires forall c :: 0 <= c < NCOLS ==> e[c] == f.table[Row(f.hash, f.nrows, c, k), c]
    ensures var c := if k.vid == 0 then 2 else 0;
            Finds([Hit(e[0], mac, vid), Hit(e[1], mac, vid), Hit(e[2], mac, vid), Hit(e[3], mac, vid)], c, f.Map(), k)
  {
    hide Indexed, View, Row;
    var cells := f.Cells();
    forall c: nat | c < NCOLS
      ensures (Row(f.hash, f.nrows, c, k), c) in cells && e[c] == cells[(Row(f.hash, f.nrows, c, k), c)]
    {
      RowBound(f.hash, f.nrows, c, k);
    }
    Candidates(cells, f.colOf, f.hash, f.nrows, k, e);
    forall c: nat | c < NCOLS && e[c].used
      ensures ColIsVid(c, e[c].key.vid) && e[c].matchVlan == (e[c].key.vid != VID_WILDCARD)
    {
      CellThere(cells, f.colOf, f.hash, f.nrows, (Row(f.hash, f.nrows, c, k), c));
    }
  }

  lemma SetGeneralKeeps(e: Smac)
    ensures var g := SetGeneral(e); g.key == e.key && g.ports == e.ports && g == SetGeneral(Smac(g.used, g.matchVlan, g.key, g.ports))
  {
  }

  lemma ColumnCount(colOf: map<Key, nat>, k: Key, c: nat)
    ensures |colOf[k := c]| == |colOf| + (if k in colOf then 0 else 1)
    ensures k in colOf ==> |colOf - {k}| == |colOf| - 1
  {
    assert |colOf| == |colOf.Keys|;
    assert colOf[k := c].Keys == colOf.Keys + {k} && |colOf[k := c]| == |colOf[k := c].Keys|;
    assert (colOf - {k}).Keys == colOf.Keys - {k} && |colOf - {k}| == |(colOf - {k}).Keys|;
  }
}
