/** Types shared by the components of the driver model. */
module Common {

  datatype Option<+T> = None | Some(value: T)

  /** The driver's negative errno results; `Ok` stands for a return of zero, `Oops` for an invalid pointer
      that the driver follows. */
  datatype Status = Ok | Oops | EInval | ENoMem | EExist | ENoEnt | ENoSpc | EBusy | EAcces | EFault | EFBig | ERange

  const TWO32: int := 0x1_0000_0000
  const TWO64: int := 0x1_0000_0000_0000_0000

  type u32 = n: int | 0 <= n < 0x1_0000_0000

  /** Subtraction of C `u32` values. */
  function Sub32(a: u32, b: u32): u32 {
    (a - b) % TWO32
  }

  /** The least element of a finite set, the `rb_first` of a tree keyed by numbers. */
  function Least(s: set<nat>): (r: Option<nat>)
    ensures r == None <==> s == {}
    ensures r.Some? ==> r.value in s && forall x :: x in s ==> r.value <= x
  {
    if s == {} then None
    else
      LeastExists(s);
      var m :| m in s && forall x :: x in s ==> m <= x;
      Some(m)
  }

  lemma LeastExists(s: set<nat>)
    requires s != {}
    ensures exists m :: m in s && forall x :: x in s ==> m <= x
  {
    var y :| y in s;
    LeastBelow(s, y);
  }

  lemma {:induction false} LeastBelow(s: set<nat>, y: nat)
    requires y in s
    ensures exists m :: m in s && forall x :: x in s ==> m <= x
  {
    if z :| z in s && z < y {
      LeastBelow(s, z);
    }
  }

  /** Removing an element moves the least one exactly when that element was the least. */
  lemma LeastWithout(s: set<nat>, f: nat)
    requires f in s
    ensures Least(s) == Some(f) <==> !(Least(s - {f}).Some? && Least(s - {f}).value < f)
  {
    var rest := Least(s - {f});
    if rest.Some? {
      assert rest.value in s;
    }
    var least := Least(s).value;
    assert least != f ==> least in s - {f};
  }

  /** The greatest element of a finite set, the `rb_last` of a tree keyed by numbers. */
  function Greatest(s: set<nat>): (r: nat)
    requires s != {}
    ensures r in s && forall x :: x in s ==> x <= r
  {
    var some :| some in s;
    GreatestAbove(s, some);
    var m :| m in s && forall x :: x in s ==> x <= m;
    m
  }

  lemma {:induction false} GreatestAbove(s: set<nat>, y: nat)
    requires y in s
    ensures exists m :: m in s && forall x :: x in s ==> x <= m
    decreases |set x | x in s && x > y|
  {
    if z :| z in s && z > y {
      var a, b := set x | x in s && x > y, set x | x in s && x > z;
      assert b < a by {
        assert z in a && z !in b;
      }
      SubsetSmaller(b, a);
      GreatestAbove(s, z);
    }
  }

  lemma {:induction false} SubsetSmaller<T>(a: set<T>, b: set<T>)
    requires a < b
    ensures |a| < |b|
  {
    var x :| x in b && x !in a;
    SubsetCard(a, b - {x});
  }

  lemma {:induction false} SubsetCard<T>(a: set<T>, b: set<T>)
    requires a <= b
    ensures |a| <= |b|
  {
    if a != {} {
      var x :| x in a;
      SubsetCard(a - {x}, b - {x});
    }
  }
}
