/**
 A group over every run of valid commits: its cut names exactly its members, memberships never recur, cuts never recede,
 and authority stays where the settings put it.
 */
module GroupRuns {
  import opened Refs
  import opened Cuts
  import opened Groups

  /** A group's state in every epoch: one leaf per member, the cut one entry per member, sorted by key, at memberships
      begun by now, and an admin. */
  ghost predicate Inv(v: View) {
    && OneLeafEach(v.roster)
    && ByKey(v.cut)
    && KeysOf(v.cut) == RosterKeys(v.roster)
    && (forall r | r in v.cut :: r.joined <= v.epoch && WellFormed(r))
    && v.settings.admins != []
    && NamedRight(v.roster)
  }

  /** Every member's credential names its key. */
  ghost predicate NamedRight(roster: map<nat, Member>) {
    forall i | i in roster :: roster[i].named == roster[i].key
  }

  // ---------------------------------------------------------------- the roster

  function AddKeys(adds: seq<Member>): set<Key> {
    set m | m in adds :: m.key
  }

  lemma PlacedOne(roster: map<nat, Member>, l: nat, m: Member)
    requires OneLeafEach(roster) && l !in roster && m.key !in RosterKeys(roster)
    ensures OneLeafEach(roster[l := m]) && RosterKeys(roster[l := m]) == RosterKeys(roster) + {m.key}
  {
    var next := roster[l := m];
    forall k ensures k in RosterKeys(next) <==> k in RosterKeys(roster) + {m.key} {
      if k in RosterKeys(roster) { var i :| i in roster && roster[i].key == k; assert i in next && next[i].key == k; }
      if k == m.key { assert l in next && next[l].key == k; }
    }
  }

  ghost predicate EachOnce(adds: seq<Member>) {
    forall i, j | 0 <= i < j < |adds| :: adds[i].key != adds[j].key
  }

  lemma FirstAdd(adds: seq<Member>)
    requires adds != [] && EachOnce(adds)
    ensures AddKeys(adds) == {adds[0].key} + AddKeys(adds[1..]) && adds[0].key !in AddKeys(adds[1..])
    ensures EachOnce(adds[1..])
  {
    assert forall x :: x in adds <==> x == adds[0] || x in adds[1..];
    forall x | x in adds[1..] ensures x.key != adds[0].key {
      var i :| 0 <= i < |adds[1..]| && adds[1..][i] == x;
      assert adds[i + 1] == x;
    }
  }

  lemma {:induction false} Placed(roster: map<nat, Member>, adds: seq<Member>)
    requires OneLeafEach(roster) && EachOnce(adds) && AddKeys(adds) !! RosterKeys(roster)
    ensures OneLeafEach(Place(roster, adds))
    ensures RosterKeys(Place(roster, adds)) == RosterKeys(roster) + AddKeys(adds)
    ensures forall i | i in roster :: i in Place(roster, adds) && Place(roster, adds)[i] == roster[i]
    decreases |adds|
  {
    if adds != [] {
      FirstAdd(adds);
      PlacedOne(roster, FreeLeaf(roster), adds[0]);
      Placed(roster[FreeLeaf(roster) := adds[0]], adds[1..]);
    }
  }

  lemma LeftRoster(v: View, c: Commit)
    requires Inv(v) && MlsValid(v, c) && Rules(v, c)
    ensures OneLeafEach(NewRoster(v, c))
    ensures RosterKeys(NewRoster(v, c)) == RosterKeys(v.roster - Removes(c.proposals)) + AddKeys(Adds(c.proposals))
    ensures forall m | m in Adds(c.proposals) :: m.key !in RosterKeys(v.roster)
  {
    var left := v.roster - Removes(c.proposals);
    var updated := Updated(left, c);
    SameKeys(left, updated);
    forall m | m in Adds(c.proposals) ensures m.key !in RosterKeys(v.roster) && m.key !in RosterKeys(updated) {
      AddedIsNew(v, c, m);
    }
    Placed(updated, Adds(c.proposals));
  }

  /** Members with the same keys, leaf by leaf. */
  lemma SameKeys(a: map<nat, Member>, b: map<nat, Member>)
    requires a.Keys == b.Keys && forall i | i in a :: a[i].key == b[i].key
    ensures RosterKeys(a) == RosterKeys(b) && (OneLeafEach(a) ==> OneLeafEach(b))
  {
    forall k ensures k in RosterKeys(a) <==> k in RosterKeys(b) {
      if k in RosterKeys(a) { var i :| i in a && a[i].key == k; assert i in b && b[i].key == k; }
      if k in RosterKeys(b) { var i :| i in b && b[i].key == k; assert i in a && a[i].key == k; }
    }
  }

  lemma {:induction false} PlacedNamed(roster: map<nat, Member>, adds: seq<Member>)
    requires NamedRight(roster) && forall m | m in adds :: m.named == m.key
    ensures NamedRight(Place(roster, adds))
    decreases |adds|
  {
    if adds != [] {
      assert adds[0] in adds && forall m | m in adds[1..] :: m in adds;
      PlacedNamed(roster[FreeLeaf(roster) := adds[0]], adds[1..]);
    }
  }

  lemma UpdatedNamed(v: View, c: Commit)
    requires NamedRight(v.roster) && Rules(v, c)
    ensures NamedRight(Updated(v.roster - Removes(c.proposals), c))
  {}

  /** A valid commit's additions and its committer's new leaf name their keys. */
  lemma NamedAfter(v: View, c: Commit)
    requires NamedRight(v.roster) && Rules(v, c)
    ensures NamedRight(NewRoster(v, c))
  {
    UpdatedNamed(v, c);
    forall m | m in Adds(c.proposals) ensures m.named == m.key { AddedNamed(v, c, m); }
    PlacedNamed(Updated(v.roster - Removes(c.proposals), c), Adds(c.proposals));
  }

  lemma AddedNamed(v: View, c: Commit, m: Member)
    requires Rules(v, c) && m in Adds(c.proposals)
    ensures m.named == m.key
  {
    var q :| q in c.proposals && q.proposal.Add? && m == Added(q.proposal);
    assert Allowed(v, c, q);
  }

  lemma AddedIsNew(v: View, c: Commit, m: Member)
    requires MlsValid(v, c) && Rules(v, c) && m in Adds(c.proposals)
    ensures m.key !in RosterKeys(v.roster) && m.key !in RosterKeys(v.roster - Removes(c.proposals))
  {
    var q :| q in c.proposals && q.proposal.Add? && m == Added(q.proposal);
    assert Allowed(v, c, q);
    forall i | i in v.roster ensures v.roster[i].key != m.key {
      if i in Removes(c.proposals) {}
    }
  }

  // ---------------------------------------------------------------- the cut

  lemma {:induction false} Rising(moved: seq<Ref>, i: nat, j: nat)
    requires forall n | 0 <= n < |moved| - 1 :: moved[n].key < moved[n + 1].key
    requires i < j < |moved|
    ensures moved[i].key < moved[j].key
    decreases j
  {
    assert moved[j - 1].key < moved[j - 1 + 1].key;
    if i < j - 1 { Rising(moved, i, j - 1); }
  }

  lemma MovedByKey(cut: seq<Ref>, moved: seq<Ref>)
    requires CutRules(cut, moved)
    ensures ByKey(moved)
  {
    forall i, j | 0 <= i < j < |moved| ensures moved[i].key < moved[j].key { Rising(moved, i, j); }
  }

  /** The cut a commit ends an epoch with: the same memberships in the same places, none moved back. */
  lemma EndedCut(v: View, c: Commit)
    requires Inv(v) && Rules(v, c)
    ensures var ended := MoveAll(v.cut, c.aad.moved);
      && ByKey(ended) && KeysOf(ended) == KeysOf(v.cut)
      && (forall i | 0 <= i < |ended| :: ended[i].Of() == v.cut[i].Of() && v.cut[i].num <= ended[i].num)
      && forall r | r in ended :: r.joined <= v.epoch && WellFormed(r)
  {
    var ended := MoveAll(v.cut, c.aad.moved);
    MovedByKey(v.cut, c.aad.moved);
    MoveAllKeys(v.cut, c.aad.moved);
    forall i | 0 <= i < |ended|
      ensures ended[i].Of() == v.cut[i].Of() && v.cut[i].num <= ended[i].num && ended[i].joined <= v.epoch
      ensures WellFormed(ended[i])
    {
      var was, now := v.cut[i], ended[i];
      assert was in v.cut;
      assert MovesTo(was, c.aad.moved, now);
      if was.key in KeysOf(c.aad.moved) {
        assert MoveAllowed(v.cut, now);
        var old' :| old' in v.cut && old'.key == now.key && old'.joined == now.joined && WellFormed(now)
          && old'.num < now.num;
        FindUnique(v.cut, old');
        FindUnique(v.cut, was);
      }
    }
  }

  lemma {:induction false} Stayed(cut: seq<Ref>, keys: set<Key>)
    requires ByKey(cut)
    ensures ByKey(Staying(cut, keys)) && forall x :: x in Staying(cut, keys) <==> x in cut && x.key in keys
    decreases |cut|
  {
    if cut != [] {
      var first, rest := (if cut[0].key in keys then [cut[0]] else []), Staying(cut[1..], keys);
      Stayed(cut[1..], keys);
      assert forall x :: x in cut <==> x == cut[0] || x in cut[1..];
      assert forall x :: x in first + rest <==> x in first || x in rest;
      forall j | 0 <= j < |rest| ensures cut[0].key < rest[j].key {
        assert rest[j] in rest;
        var n :| 0 <= n < |cut[1..]| && cut[1..][n] == rest[j];
        assert cut[n + 1] == rest[j];
      }
    }
  }

  /** Where an entry of the next cut state comes from: it is in `w.ended` and its key still has a leaf, or it is the
      fresh entry of an added member. */
  ghost predicate Continues(w: View, c: Commit, x: Ref) {
    (x in w.ended && x.key in RosterKeys(w.roster)) || exists m :: m in Adds(c.proposals) && x == Began(m, w.epoch)
  }

  /** Sorting the entries that stay and those begun: one per key, ordered, and none lost. */
  lemma SortedNext(ended: seq<Ref>, keys: set<Key>, adds: seq<Member>, epoch: nat)
    requires ByKey(ended) && EachOnce(adds) && AddKeys(adds) !! KeysOf(ended)
    ensures var next := Sort(Staying(ended, keys) + Begun(adds, epoch));
      ByKey(next) && forall x :: x in next <==>
        (x in ended && x.key in keys) || exists m :: m in adds && x == Began(m, epoch)
  {
    var staying, begun := Staying(ended, keys), Begun(adds, epoch);
    var all: seq<Ref> := staying + begun;
    Stayed(ended, keys);
    forall i, j | 0 <= i < j < |all| ensures all[i].key != all[j].key { DistinctAt(staying, adds, epoch, ended, i, j); }
    Sorted(all);
    forall x ensures x in all <==> (x in ended && x.key in keys) || exists m :: m in adds && x == Began(m, epoch) {
      BegunHas(adds, epoch, x);
    }
  }

  lemma DistinctAt(staying: seq<Ref>, adds: seq<Member>, epoch: nat, ended: seq<Ref>, i: nat, j: nat)
    requires ByKey(staying) && (forall x | x in staying :: x in ended) && EachOnce(adds)
    requires AddKeys(adds) !! KeysOf(ended)
    requires i < j < |staying| + |adds|
    ensures var all: seq<Ref> := staying + Begun(adds, epoch); all[i].key != all[j].key
  {
    if |staying| <= j {
      assert adds[j - |staying|] in adds && adds[j - |staying|].key in AddKeys(adds);
      if i < |staying| { assert staying[i] in staying && staying[i].key in KeysOf(ended); }
    }
  }

  lemma BegunHas(adds: seq<Member>, epoch: nat, x: Ref)
    ensures x in Begun(adds, epoch) <==> exists m :: m in adds && x == Began(m, epoch)
  {
    if m :| m in adds && x == Began(m, epoch) {
      var i :| 0 <= i < |adds| && adds[i] == m;
      assert Begun(adds, epoch)[i] == x;
    }
  }

  lemma AfterEntries(v: View, c: Commit)
    requires Inv(v) && MlsValid(v, c) && Rules(v, c)
    ensures ByKey(After(v, c).cut) && forall x :: x in After(v, c).cut <==> Continues(After(v, c), c, x)
  {
    EndedCut(v, c);
    AddedOnce(v, c);
    EntriesFrom(v, c);
  }

  lemma EntriesFrom(v: View, c: Commit)
    requires ByKey(After(v, c).ended) && EachOnce(Adds(c.proposals))
    requires AddKeys(Adds(c.proposals)) !! KeysOf(After(v, c).ended)
    ensures ByKey(After(v, c).cut) && forall x :: x in After(v, c).cut <==> Continues(After(v, c), c, x)
  {
    var w := After(v, c);
    SortedNext(w.ended, RosterKeys(w.roster), Adds(c.proposals), w.epoch);
    forall x ensures x in w.cut <==> Continues(w, c, x) {}
  }

  /** The cut state after a commit: one entry per member, sorted by key. */
  lemma AfterCut(v: View, c: Commit)
    requires Inv(v) && MlsValid(v, c) && Rules(v, c)
    ensures var w := After(v, c);
      ByKey(w.cut) && KeysOf(w.cut) == RosterKeys(w.roster) && forall x :: x in w.cut <==> Continues(w, c, x)
  {
    AfterEntries(v, c);
    CutNames(v, c, After(v, c));
  }

  lemma AddedOnce(v: View, c: Commit)
    requires Inv(v) && MlsValid(v, c) && Rules(v, c)
    ensures EachOnce(Adds(c.proposals)) && AddKeys(Adds(c.proposals)) !! KeysOf(v.cut)
  {
    forall m | m in Adds(c.proposals) ensures m.key !in KeysOf(v.cut) { AddedIsNew(v, c, m); }
  }

  lemma CutNames(v: View, c: Commit, w: View)
    requires Inv(v) && MlsValid(v, c) && Rules(v, c) && w == After(v, c)
    requires forall x :: x in w.cut <==> Continues(w, c, x)
    ensures KeysOf(w.cut) == RosterKeys(w.roster)
  {
    EndedCut(v, c);
    LeftRoster(v, c);
    forall k ensures k in KeysOf(w.cut) <==> k in RosterKeys(w.roster) {
      if k in RosterKeys(w.roster) {
        if k in AddKeys(Adds(c.proposals)) {
          var m :| m in Adds(c.proposals) && m.key == k;
          assert Continues(w, c, Began(m, w.epoch));
        } else {
          var i :| i in v.roster - Removes(c.proposals) && (v.roster - Removes(c.proposals))[i].key == k;
          assert k in RosterKeys(v.roster);
          var x :| x in w.ended && x.key == k;
          assert Continues(w, c, x);
        }
      }
      if k in KeysOf(w.cut) {
        var x :| x in w.cut && x.key == k;
        if m :| m in Adds(c.proposals) && x == Began(m, w.epoch) { assert k in AddKeys(Adds(c.proposals)); }
      }
    }
  }

  lemma {:induction false} SettingsAfter(v: View, c: Commit, ps: seq<Queued>)
    requires c.from in v.roster && forall q | q in ps :: Allowed(v, c, q)
    requires v.settings.admins != []
    ensures var s := NewSettings(v.settings, ps);
      && s.admins != []
      && (s.protocol, s.carry, s.update, s.service) ==
        (v.settings.protocol, v.settings.carry, v.settings.update, v.settings.service)
      && (!Admin(v.settings, v.roster[c.from]) ==> s == v.settings)
    decreases |ps|
  {
    if ps != [] {
      assert Allowed(v, c, ps[0]);
      if !ps[0].proposal.Change? { SettingsAfter(v, c, ps[1..]); }
    }
  }

  /** A valid commit keeps the group's invariant. */
  lemma AfterKeeps(v: View, c: Commit)
    requires Inv(v) && MlsValid(v, c) && Rules(v, c)
    ensures Inv(After(v, c))
  {
    var w := After(v, c);
    LeftRoster(v, c);
    NamedAfter(v, c);
    AfterCut(v, c);
    EndedCut(v, c);
    SettingsAfter(v, c, c.proposals);
    forall r | r in w.cut ensures r.joined <= w.epoch && WellFormed(r) {
      if m :| m in Adds(c.proposals) && r == Began(m, w.epoch) {}
    }
  }
}
