/**
 Sets of positions as inclusive ranges of 64-bit numbers: each operation computes the set it names, and keeps the ranges
 sorted, disjoint and non-adjacent, in which form two are equal exactly when their sets are.
 */
module Ranges {
  import opened Refs

  const MAX: nat := 18_446_744_073_709_551_615
  type u64 = n: nat | n <= MAX
  type Range = (u64, u64)

  predicate Within(r: Range, n: nat) {
    r.0 <= n <= r.1
  }

  /** Whether a position is in one of the ranges. */
  predicate Has(rs: seq<Range>, n: nat) {
    rs != [] && (Within(rs[0], n) || Has(rs[1..], n))
  }

  /** There is a number between two. */
  predicate Apart(a: nat, b: nat) {
    a + 1 < b
  }

  /** Each range has a position, and there is one missing between any two of them, in order. */
  ghost predicate Canonical(rs: seq<Range>) {
    && (forall i | 0 <= i < |rs| :: rs[i].0 <= rs[i].1)
    && forall i, j | 0 <= i < j < |rs| :: Apart(rs[i].1, rs[j].0)
  }

  /** The same, to be followed by ranges from `next` on. */
  ghost predicate CanonicalBefore(rs: seq<Range>, next: nat) {
    Canonical(rs) && forall i | 0 <= i < |rs| :: Apart(rs[i].1, next)
  }

  lemma {:induction false} HasSplit(a: seq<Range>, b: seq<Range>, n: nat)
    ensures Has(a + b, n) <==> Has(a, n) || Has(b, n)
    decreases |a|
  {
    if a == [] {
      assert a + b == b;
    } else {
      assert (a + b)[1..] == a[1..] + b;
      HasSplit(a[1..], b, n);
    }
  }

  lemma HasPush(a: seq<Range>, r: Range)
    ensures forall n: nat :: Has(a + [r], n) <==> Has(a, n) || Within(r, n)
  {
    forall n: nat ensures Has(a + [r], n) <==> Has(a, n) || Within(r, n) {
      HasSplit(a, [r], n);
    }
  }

  lemma {:induction false} HasIndex(rs: seq<Range>, n: nat)
    ensures Has(rs, n) <==> exists i :: 0 <= i < |rs| && Within(rs[i], n)
    decreases |rs|
  {
    if rs != [] {
      HasIndex(rs[1..], n);
      if Has(rs[1..], n) {
        var i :| 0 <= i < |rs[1..]| && Within(rs[1..][i], n);
        assert Within(rs[i + 1], n);
      }
      if i :| 0 <= i < |rs| && Within(rs[i], n) {
        assert i == 0 || Within(rs[1..][i - 1], n);
      }
    }
  }

  /** Nothing of ranges in order is before the first. */
  lemma TailAfter(rs: seq<Range>, i: nat)
    requires Canonical(rs) && i < |rs|
    ensures rs[i..][0] == rs[i] && rs[i..][1..] == rs[i + 1..]
    ensures forall n: nat | Has(rs[i..], n) :: rs[i].0 <= n
    ensures var rest := rs[i + 1..]; forall n: nat | Has(rest, n) :: Apart(rs[i].1, n)
  {
    var rest := rs[i + 1..];
    forall n: nat | Has(rs[i..], n) ensures rs[i].0 <= n {
      HasIndex(rs[i..], n);
    }
    forall n: nat | Has(rest, n) ensures Apart(rs[i].1, n) {
      HasIndex(rest, n);
    }
  }

  ghost predicate SameSet(a: seq<Range>, b: seq<Range>) {
    forall n: nat :: Has(a, n) <==> Has(b, n)
  }

  /** Two canonical values are equal exactly when their sets are. */
  lemma {:induction false} CanonicalUnique(a: seq<Range>, b: seq<Range>)
    requires Canonical(a) && Canonical(b)
    ensures a == b <==> SameSet(a, b)
    decreases |a|
  {
    assert SameSet(a, a);
    if SameSet(a, b) {
      if a == [] {
        assert b == [] || Has(b, b[0].0);
      } else {
        assert Has(a, a[0].0) && Has(b, a[0].0);
        SameHeads(a, b);
        CanonicalUnique(a[1..], b[1..]);
        assert a == [a[0]] + a[1..] && b == [b[0]] + b[1..];
      }
    }
  }

  lemma SameHeads(a: seq<Range>, b: seq<Range>)
    requires Canonical(a) && Canonical(b) && a != [] && b != [] && forall n: nat :: Has(a, n) <==> Has(b, n)
    ensures a[0] == b[0] && forall n: nat :: Has(a[1..], n) <==> Has(b[1..], n)
  {
    assert a[0..] == a && b[0..] == b;
    TailAfter(a, 0);
    TailAfter(b, 0);
    assert Has(a, a[0].0) && Has(b, b[0].0);
    assert Has(a, a[0].1) && Has(b, b[0].1);
    var a1: nat, b1: nat := a[0].1, b[0].1;
    assert !Has(a, a1 + 1) && !Has(b, b1 + 1);
    assert forall n: nat :: Has(a[1..], n) <==> Has(a, n) && n > a[0].1;
    assert forall n: nat :: Has(b[1..], n) <==> Has(b, n) && n > b[0].1;
  }

  /** Finds the first range that does not end before a position, and whether it has it. */
  method Contains(rs: seq<Range>, position: u64) returns (has: bool)
    requires Canonical(rs)
    ensures has <==> Has(rs, position)
  {
    var low, high := 0, |rs|;
    while low < high
      invariant 0 <= low <= high <= |rs|
      invariant forall i | 0 <= i < low :: rs[i].1 < position
      invariant forall i | high <= i < |rs| :: position <= rs[i].1
    {
      var mid := (low + high) / 2;
      if rs[mid].1 < position { low := mid + 1; } else { high := mid; }
    }
    HasIndex(rs, position);
    has := low < |rs| && rs[low].0 <= position;
  }

  predicate SortedByFirst(rs: seq<Range>) {
    forall i, j | 0 <= i < j < |rs| :: rs[i].0 <= rs[j].0
  }

  /** Puts a range among sorted ones, before the first that is not lower. */
  function Place(rs: seq<Range>, r: Range): seq<Range> {
    if rs == [] then [r]
    else if r.0 < rs[0].0 || (r.0 == rs[0].0 && r.1 <= rs[0].1) then [r] + rs
    else [rs[0]] + Place(rs[1..], r)
  }

  function Sort(rs: seq<Range>): seq<Range> {
    if rs == [] then [] else Place(Sort(rs[1..]), rs[0])
  }

  lemma {:induction false} PlaceHas(rs: seq<Range>, r: Range, n: nat)
    ensures Has(Place(rs, r), n) <==> Has(rs, n) || Within(r, n)
    decreases |rs|
  {
    if rs != [] && !(r.0 < rs[0].0 || (r.0 == rs[0].0 && r.1 <= rs[0].1)) {
      PlaceHas(rs[1..], r, n);
      assert ([rs[0]] + Place(rs[1..], r))[1..] == Place(rs[1..], r);
    } else {
      assert ([r] + rs)[1..] == rs;
    }
  }

  lemma {:induction false} PlaceSorts(rs: seq<Range>, r: Range)
    requires SortedByFirst(rs)
    ensures SortedByFirst(Place(rs, r)) && forall x | x in Place(rs, r) :: x in rs || x == r
    decreases |rs|
  {
    if rs != [] {
      PlaceSorts(rs[1..], r);
      assert forall x | x in Place(rs[1..], r) :: x in rs[1..] || x == r;
      assert forall x | x in rs[1..] :: rs[0].0 <= x.0;
    }
  }

  lemma {:induction false} SortSorts(rs: seq<Range>)
    ensures SortedByFirst(Sort(rs)) && forall x | x in Sort(rs) :: x in rs
    ensures forall n: nat :: Has(Sort(rs), n) <==> Has(rs, n)
    decreases |rs|
  {
    if rs != [] {
      SortSorts(rs[1..]);
      PlaceSorts(Sort(rs[1..]), rs[0]);
      forall n: nat ensures Has(Sort(rs), n) <==> Has(rs, n) {
        PlaceHas(Sort(rs[1..]), rs[0], n);
      }
    }
  }

  /** The ranges that have a position. */
  method Retain(rs: seq<Range>) returns (kept: seq<Range>)
    ensures forall i | 0 <= i < |kept| :: kept[i].0 <= kept[i].1
    ensures forall n: nat :: Has(kept, n) <==> Has(rs, n)
  {
    kept := [];
    for i := 0 to |rs|
      invariant forall k | 0 <= k < |kept| :: kept[k].0 <= kept[k].1
      invariant forall n: nat :: Has(kept, n) <==> Has(rs[..i], n)
    {
      HasPush(rs[..i], rs[i]);
      assert rs[..i + 1] == rs[..i] + [rs[i]];
      if rs[i].0 <= rs[i].1 {
        HasPush(kept, rs[i]);
        kept := kept + [rs[i]];
      }
    }
    assert rs[..|rs|] == rs;
  }

  /** One more than a number, or the greatest. */
  function Saturating(n: u64): u64 {
    if n == MAX then MAX else n + 1
  }

  /** The canonical form of any list of ranges, in whatever order and overlapping as they may. */
  method From(ranges: seq<Range>) returns (out: seq<Range>)
    ensures Canonical(out)
    ensures forall n: nat :: Has(out, n) <==> Has(ranges, n)
  {
    var kept := Retain(ranges);
    var rs := Sort(kept);
    SortSorts(kept);
    assert forall i | 0 <= i < |rs| :: rs[i] in kept;
    out := Merge(rs);
  }

  /** One range, or none if it is empty. */
  method OneRange(first: u64, last: u64) returns (out: seq<Range>)
    ensures Canonical(out)
    ensures forall n: nat :: Has(out, n) <==> first <= n <= last
  {
    HasPush([], (first, last));
    assert [] + [(first, last)] == [(first, last)];
    out := From([(first, last)]);
  }

  /** Merges sorted ranges: each that begins within or right after the last is joined to it. */
  method Merge(rs: seq<Range>) returns (out: seq<Range>)
    requires SortedByFirst(rs) && forall i | 0 <= i < |rs| :: rs[i].0 <= rs[i].1
    ensures Canonical(out)
    ensures forall n: nat :: Has(out, n) <==> Has(rs, n)
  {
    out := [];
    for i := 0 to |rs|
      invariant Canonical(out)
      invariant forall k, l | 0 <= k < |out| && i <= l < |rs| :: out[k].0 <= rs[l].0
      invariant forall n: nat :: Has(out, n) <==> Has(rs[..i], n)
    {
      var r := rs[i];
      HasPush(rs[..i], r);
      assert rs[..i + 1] == rs[..i] + [r];
      if out != [] && r.0 <= Saturating(out[|out| - 1].1) {
        var last, rest := out[|out| - 1], out[..|out| - 1];
        var joined: Range := (last.0, Max(last.1, r.1));
        HasPush(rest, last);
        HasPush(rest, joined);
        assert out == rest + [last];
        out := rest + [joined];
      } else {
        HasPush(out, r);
        out := out + [r];
      }
    }
    assert rs[..|rs|] == rs;
  }

  method Union(a: seq<Range>, b: seq<Range>) returns (out: seq<Range>)
    ensures Canonical(out)
    ensures forall n: nat :: Has(out, n) <==> Has(a, n) || Has(b, n)
  {
    out := From(a + b);
    forall n: nat ensures Has(a + b, n) <==> Has(a, n) || Has(b, n) {
      HasSplit(a, b, n);
    }
  }

  /** What is left of two values, each from an index on, once the lower range of the two is passed. */
  lemma PassLower(a: seq<Range>, b: seq<Range>, i: nat, j: nat, n: nat)
    requires Canonical(a) && Canonical(b) && i < |a| && j < |b| && a[i].1 <= b[j].1
    ensures Has(a[i..], n) && Has(b[j..], n) <==>
      (Within(a[i], n) && Within(b[j], n)) || (Has(a[i + 1..], n) && Has(b[j..], n))
  {
    TailAfter(a, i);
    TailAfter(b, j);
  }

  method Intersection(a: seq<Range>, b: seq<Range>) returns (out: seq<Range>)
    requires Canonical(a) && Canonical(b)
    ensures Canonical(out)
    ensures forall n: nat :: Has(out, n) <==> Has(a, n) && Has(b, n)
  {
    var i, j := 0, 0;
    out := [];
    assert a[0..] == a && b[0..] == b;
    while i < |a| && j < |b|
      invariant i <= |a| && j <= |b|
      invariant if i < |a| && j < |b| then CanonicalBefore(out, Max(a[i].0, b[j].0)) else Canonical(out)
      invariant forall n: nat :: Has(a, n) && Has(b, n) <==> Has(out, n) || (Has(a[i..], n) && Has(b[j..], n))
      decreases |a| - i + |b| - j
    {
      var (a0, a1) := a[i];
      var (b0, b1) := b[j];
      forall n: nat ensures a1 <= b1 ==> (Has(a[i..], n) && Has(b[j..], n) <==>
        (Within(a[i], n) && Within(b[j], n)) || (Has(a[i + 1..], n) && Has(b[j..], n))) {
        if a1 <= b1 { PassLower(a, b, i, j, n); }
      }
      forall n: nat ensures b1 <= a1 ==> (Has(a[i..], n) && Has(b[j..], n) <==>
        (Within(a[i], n) && Within(b[j], n)) || (Has(a[i..], n) && Has(b[j + 1..], n))) {
        if b1 <= a1 { PassLower(b, a, j, i, n); }
      }
      if Max(a0, b0) <= Min(a1, b1) {
        HasPush(out, (Max(a0, b0), Min(a1, b1)));
        out := out + [(Max(a0, b0), Min(a1, b1))];
      }
      if a1 < b1 { i := i + 1; } else { j := j + 1; }
    }
  }

  /** Pushes what ranges from `j` on leave of one range, and passes those that end in it. */
  method Subtract(r: Range, b: seq<Range>, from: nat, before: seq<Range>) returns (out: seq<Range>, j: nat)
    requires Canonical(b) && r.0 <= r.1 && from <= |b| && CanonicalBefore(before, r.0)
    ensures from <= j <= |b| && forall k | from <= k < j :: b[k].1 <= r.1
    ensures Canonical(out) && forall k | 0 <= k < |out| :: out[k].1 <= r.1
    ensures forall n: nat :: Has(out, n) <==> Has(before, n) || (Within(r, n) && !Has(b[from..], n))
  {
    var (first, last) := r;
    var f: Option<u64> := Some(first);
    out, j := before, from;
    while f.Some? && j < |b|
      invariant from <= j <= |b| && forall k | from <= k < j :: b[k].1 <= last
      invariant f.Some? ==> first <= f.value <= last && CanonicalBefore(out, f.value)
      invariant Canonical(out) && forall k | 0 <= k < |out| :: out[k].1 <= last
      invariant forall n: nat :: Has(before, n) || (Within(r, n) && !Has(b[from..], n)) <==>
        Has(out, n) || (f.Some? && f.value <= n <= last && !Has(b[j..], n))
      decreases |b| - j
    {
      var (b0, b1) := b[j];
      TailAfter(b, j);
      if b1 < f.value {
        j := j + 1;
        continue;
      }
      if b0 > last { break; }
      if b0 > f.value {
        HasPush(out, (f.value, b0 - 1));
        out := out + [(f.value, b0 - 1)];
      }
      f := if b1 < MAX && b1 + 1 <= last then Some(b1 + 1) else None;
      if b1 > last { break; }
      j := j + 1;
    }
    if f.Some? {
      if j < |b| { TailAfter(b, j); }
      HasPush(out, (f.value, last));
      out := out + [(f.value, last)];
    }
  }

  method Difference(a: seq<Range>, b: seq<Range>) returns (out: seq<Range>)
    requires Canonical(a) && Canonical(b)
    ensures Canonical(out)
    ensures forall n: nat :: Has(out, n) <==> Has(a, n) && !Has(b, n)
  {
    var j := 0;
    out := [];
    for i := 0 to |a|
      invariant 0 <= j <= |b| && Canonical(out)
      invariant forall k, l | 0 <= k < |out| && i <= l < |a| :: Apart(out[k].1, a[l].0)
      invariant forall k, l | 0 <= k < j && i <= l < |a| :: b[k].1 < a[l].0
      invariant forall n: nat :: Has(out, n) <==> Has(a[..i], n) && !Has(b, n)
    {
      forall n: nat | Within(a[i], n) ensures Has(b, n) <==> Has(b[j..], n) {
        HasSplit(b[..j], b[j..], n);
        assert b[..j] + b[j..] == b;
        HasIndex(b[..j], n);
      }
      HasPush(a[..i], a[i]);
      assert a[..i + 1] == a[..i] + [a[i]];
      out, j := Subtract(a[i], b, j, out);
    }
    assert a[..|a|] == a;
  }

  /** Cuts off what lies past `last`. */
  method Through(rs: seq<Range>, last: u64) returns (out: seq<Range>)
    requires Canonical(rs)
    ensures Canonical(out)
    ensures forall n: nat :: Has(out, n) <==> Has(rs, n) && n <= last
  {
    var upTo := OneRange(0, last);
    out := Intersection(rs, upTo);
  }

  method Insert(rs: seq<Range>, position: u64) returns (out: seq<Range>)
    ensures Canonical(out)
    ensures forall n: nat :: Has(out, n) <==> Has(rs, n) || n == position
  {
    var one := OneRange(position, position);
    out := Union(rs, one);
  }

  method Remove(rs: seq<Range>, position: u64) returns (out: seq<Range>)
    requires Canonical(rs)
    ensures Canonical(out)
    ensures forall n: nat :: Has(out, n) <==> Has(rs, n) && n != position
  {
    var one := OneRange(position, position);
    out := Difference(rs, one);
  }

  /** Inserting a position not held and removing it gives back the same ranges. */
  method InsertRemove(rs: seq<Range>, position: u64) returns (back: seq<Range>)
    requires Canonical(rs) && !Has(rs, position)
    ensures back == rs
  {
    var with := Insert(rs, position);
    back := Remove(with, position);
    CanonicalUnique(back, rs);
  }
}
