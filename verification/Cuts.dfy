/**
 Cuts as sorted lists: one entry per member, by key. Moving entries, and sorting, as the group does to them.
 */
module Cuts {
  import opened Refs

  ghost predicate ByKey(cut: seq<Ref>) {
    forall i, j | 0 <= i < j < |cut| :: cut[i].key < cut[j].key
  }

  function KeysOf(cut: seq<Ref>): (keys: set<Key>)
    ensures forall k :: k in keys <==> exists r :: r in cut && r.key == k
  {
    set r | r in cut :: r.key
  }

  /** The first entry of a key. */
  function Find(cut: seq<Ref>, key: Key): (r: Option<Ref>)
    ensures r.Some? ==> r.value in cut && r.value.key == key
    ensures r.Some? <==> key in KeysOf(cut)
  {
    if cut == [] then None
    else if cut[0].key == key then Some(cut[0])
    else
      assert forall r :: r in cut <==> r == cut[0] || r in cut[1..];
      Find(cut[1..], key)
  }

  lemma FindUnique(cut: seq<Ref>, r: Ref)
    requires ByKey(cut) && r in cut
    ensures Find(cut, r.key) == Some(r)
  {
    var found := Find(cut, r.key).value;
    var i :| 0 <= i < |cut| && cut[i] == found;
    var j :| 0 <= j < |cut| && cut[j] == r;
    assert i == j;
  }

  // ---------------------------------------------------------------- moving entries

  /** Replaces the first entry of a moved entry's key. */
  function MoveOne(cut: seq<Ref>, moved: Ref): (r: seq<Ref>)
    ensures |r| == |cut|
  {
    if cut == [] then []
    else if cut[0].key == moved.key then [moved] + cut[1..]
    else [cut[0]] + MoveOne(cut[1..], moved)
  }

  function MoveAll(cut: seq<Ref>, moved: seq<Ref>): (r: seq<Ref>)
    ensures |r| == |cut|
    decreases |moved|
  {
    if moved == [] then cut else MoveAll(MoveOne(cut, moved[0]), moved[1..])
  }

  lemma {:induction false} MoveOneAt(cut: seq<Ref>, moved: Ref, i: nat)
    requires ByKey(cut) && i < |cut|
    ensures MoveOne(cut, moved)[i] == if cut[i].key == moved.key then moved else cut[i]
    decreases |cut|
  {
    if i > 0 {
      assert cut[1..][i - 1] == cut[i];
      if cut[0].key != moved.key { MoveOneAt(cut[1..], moved, i - 1); }
    }
  }

  /** Where a list of moved entries, each key once, takes an entry of a cut. */
  ghost predicate MovesTo(was: Ref, moved: seq<Ref>, now: Ref) {
    if was.key in KeysOf(moved) then now in moved && now.key == was.key else now == was
  }

  lemma {:induction false} MoveAllAt(cut: seq<Ref>, moved: seq<Ref>, i: nat)
    requires ByKey(cut) && ByKey(moved) && i < |cut|
    ensures MovesTo(cut[i], moved, MoveAll(cut, moved)[i])
    ensures ByKey(MoveAll(cut, moved))
    decreases |moved|
  {
    if moved != [] {
      var m, rest, next := moved[0], moved[1..], MoveOne(cut, moved[0]);
      assert forall r :: r in moved <==> r == m || r in rest;
      forall j | 0 <= j < |cut| ensures next[j] == if cut[j].key == m.key then m else cut[j] { MoveOneAt(cut, m, j); }
      MoveAllAt(next, rest, i);
      assert m.key !in KeysOf(rest) by {
        forall r | r in rest ensures r.key != m.key {
          var j :| 0 <= j < |rest| && rest[j] == r;
          assert moved[j + 1] == r;
        }
      }
    }
  }

  lemma MoveAllKeys(cut: seq<Ref>, moved: seq<Ref>)
    requires ByKey(cut) && ByKey(moved)
    ensures ByKey(MoveAll(cut, moved)) && KeysOf(MoveAll(cut, moved)) == KeysOf(cut)
    ensures forall i | 0 <= i < |cut| ::
      MovesTo(cut[i], moved, MoveAll(cut, moved)[i]) && MoveAll(cut, moved)[i].key == cut[i].key
  {
    var now := MoveAll(cut, moved);
    if cut != [] { MoveAllAt(cut, moved, 0); }
    forall i | 0 <= i < |cut| ensures MovesTo(cut[i], moved, now[i]) && now[i].key == cut[i].key {
      MoveAllAt(cut, moved, i);
    }
    forall k ensures k in KeysOf(now) <==> k in KeysOf(cut) {
      if k in KeysOf(now) { var i :| 0 <= i < |now| && now[i].key == k; assert cut[i] in cut; }
      if k in KeysOf(cut) { var i :| 0 <= i < |cut| && cut[i].key == k; assert now[i] in now; }
    }
  }

  // ---------------------------------------------------------------- sorting

  function Insert(r: Ref, sorted: seq<Ref>): seq<Ref> {
    if sorted == [] || r.key < sorted[0].key then [r] + sorted else [sorted[0]] + Insert(r, sorted[1..])
  }

  function Sort(cut: seq<Ref>): seq<Ref> {
    if cut == [] then [] else Insert(cut[0], Sort(cut[1..]))
  }

  /** No key twice. */
  ghost predicate OncePerKey(cut: seq<Ref>) {
    forall i, j | 0 <= i < j < |cut| :: cut[i].key != cut[j].key
  }

  lemma {:induction false} InsertHas(r: Ref, sorted: seq<Ref>, x: Ref)
    ensures x in Insert(r, sorted) <==> x == r || x in sorted
    decreases |sorted|
  {
    if sorted != [] && r.key >= sorted[0].key { InsertHas(r, sorted[1..], x); }
  }

  lemma FirstByKey(first: Ref, rest: seq<Ref>)
    requires ByKey(rest) && forall x | x in rest :: first.key < x.key
    ensures ByKey([first] + rest)
  {}

  lemma TailByKey(sorted: seq<Ref>, x: Ref)
    requires ByKey(sorted) && sorted != [] && x in sorted[1..]
    ensures sorted[0].key < x.key && x in sorted
  {
    var n :| 0 <= n < |sorted| - 1 && sorted[1..][n] == x;
    assert sorted[n + 1] == x;
  }

  lemma {:induction false} InsertByKey(r: Ref, sorted: seq<Ref>)
    requires ByKey(sorted) && r.key !in KeysOf(sorted)
    ensures ByKey(Insert(r, sorted))
    decreases |sorted|
  {
    forall x | x in sorted && sorted != [] && x != sorted[0] ensures sorted[0].key < x.key { TailByKey(sorted, x); }
    if sorted == [] || r.key < sorted[0].key {
      FirstByKey(r, sorted);
    } else {
      forall x | x in sorted[1..] ensures x in sorted { TailByKey(sorted, x); }
      InsertByKey(r, sorted[1..]);
      forall x | x in Insert(r, sorted[1..]) ensures sorted[0].key < x.key {
        InsertHas(r, sorted[1..], x);
        assert sorted[0] in sorted;
        if x != r { TailByKey(sorted, x); }
      }
      FirstByKey(sorted[0], Insert(r, sorted[1..]));
    }
  }

  lemma Inserted(r: Ref, sorted: seq<Ref>)
    requires ByKey(sorted) && r.key !in KeysOf(sorted)
    ensures ByKey(Insert(r, sorted))
    ensures forall x :: x in Insert(r, sorted) <==> x == r || x in sorted
  {
    InsertByKey(r, sorted);
    forall x ensures x in Insert(r, sorted) <==> x == r || x in sorted { InsertHas(r, sorted, x); }
  }

  /** Sorting entries, one per key, orders them by key and loses none. */
  lemma {:induction false} Sorted(cut: seq<Ref>)
    requires OncePerKey(cut)
    ensures ByKey(Sort(cut)) && forall x :: x in Sort(cut) <==> x in cut
    decreases |cut|
  {
    if cut != [] {
      Sorted(cut[1..]);
      assert cut[0].key !in KeysOf(Sort(cut[1..])) by {
        forall x | x in cut[1..] ensures x.key != cut[0].key {
          var i :| 0 <= i < |cut[1..]| && cut[1..][i] == x;
          assert cut[i + 1] == x;
        }
      }
      Inserted(cut[0], Sort(cut[1..]));
      assert forall x :: x in cut <==> x == cut[0] || x in cut[1..];
    }
  }

  /** A list sorted by key is determined by its entries. */
  lemma {:induction false} SortedUnique(a: seq<Ref>, b: seq<Ref>)
    requires ByKey(a) && ByKey(b) && forall x :: x in a <==> x in b
    ensures a == b
    decreases |a|
  {
    if a == [] {
      HasFirst(b);
    } else {
      assert a[0] in a;
      assert b != [];
      assert b[0] in b;
      var i :| 0 <= i < |b| && b[i] == a[0];
      var j :| 0 <= j < |a| && a[j] == b[0];
      assert a[0] == b[0];
      forall x ensures x in a[1..] <==> x in b[1..] { TailHas(a, x); TailHas(b, x); }
      SortedUnique(a[1..], b[1..]);
    }
  }

  lemma HasFirst(a: seq<Ref>)
    ensures a == [] || exists x :: x in a
  {
    if a != [] { assert a[0] in a; }
  }

  lemma TailHas(a: seq<Ref>, x: Ref)
    requires ByKey(a) && a != []
    ensures x in a[1..] <==> x in a && x != a[0]
  {
    assert forall y :: y in a <==> y == a[0] || y in a[1..];
    if x in a[1..] { var i :| 0 <= i < |a[1..]| && a[1..][i] == x; assert a[i + 1] == x; }
  }
}
