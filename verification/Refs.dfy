/** Names shared by the node and the group: keys, memberships, and references to held messages. */
module Refs {

  datatype Option<+T> = None | Some(value: T)

  newtype byte = x: int | 0 <= x < 256

  /** A 32-byte key, as the number its bytes spell: comparing numbers compares the bytes. */
  type Key = nat

  /** A message id: empty, or the 32 bytes of a hash. */
  type Id = seq<byte>

  /** A key together with the epoch its time in the group began; the same key later on is another membership. */
  datatype Membership = Membership(key: Key, joined: nat)

  /** Names message `num` of membership `(key, joined)`. As an entry of a cut it says that messages through `num` are
      kept. */
  datatype Ref = Ref(key: Key, joined: nat, num: nat, id: Id, epoch: nat) {
    function Of(): Membership {
      Membership(key, joined)
    }
  }

  function Max(a: nat, b: nat): nat {
    if a < b then b else a
  }

  function Min(a: nat, b: nat): nat {
    if a < b then a else b
  }

  /** The numbers from `first` through `last`. */
  function Span(first: nat, last: nat): (s: set<nat>)
    ensures forall t: nat :: t in s <==> first <= t <= last
    decreases last
  {
    if last < first then {} else if last == 0 then {0} else Span(first, last - 1) + {last}
  }

  lemma {:induction false} HasLargest(s: set<nat>)
    requires s != {}
    ensures exists x :: x in s && forall y | y in s :: y <= x
    decreases |s|
  {
    var x :| x in s;
    var w := x;
    if s - {x} != {} {
      HasLargest(s - {x});
      var z :| z in s - {x} && forall y | y in s - {x} :: y <= z;
      w := Max(x, z);
    }
    forall y | y in s ensures y <= w {
      assert y == x || y in s - {x};
    }
    assert w in s;
  }

  lemma {:induction false} HasSmallest(s: set<nat>)
    requires s != {}
    ensures exists x :: x in s && forall y | y in s :: x <= y
    decreases |s|
  {
    var x :| x in s;
    var w := x;
    if s - {x} != {} {
      HasSmallest(s - {x});
      var z :| z in s - {x} && forall y | y in s - {x} :: z <= y;
      w := Min(x, z);
    }
    forall y | y in s ensures w <= y {
      assert y == x || y in s - {x};
    }
    assert w in s;
  }

  function Largest(s: set<nat>): (x: nat)
    requires s != {}
    ensures x in s && forall y | y in s :: y <= x
  {
    HasLargest(s);
    var x :| x in s && forall y | y in s :: y <= x;
    x
  }

  function Smallest(s: set<nat>): (x: nat)
    requires s != {}
    ensures x in s && forall y | y in s :: x <= y
  {
    HasSmallest(s);
    var x :| x in s && forall y | y in s :: x <= y;
    x
  }

  lemma Shrinks<T>(a: set<T>, b: set<T>, x: T)
    requires a <= b && x in b && x !in a
    ensures |a| < |b|
  {
    assert a <= b - {x};
    SubsetSize(a, b - {x});
  }

  lemma {:induction false} SubsetSize<T>(a: set<T>, b: set<T>)
    requires a <= b
    ensures |a| <= |b|
    decreases |a|
  {
    if x :| x in a { SubsetSize(a - {x}, b - {x}); }
  }
}
