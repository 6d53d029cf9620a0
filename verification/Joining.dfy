/**
 Joining: the view a newcomer computes from its Welcome and the cut it is handed equals the one the others compute
 from the commit.
 */
module Joining {
  import opened Refs
  import opened Cuts
  import opened Groups
  import opened GroupRuns

  const PROTOCOL: nat := 14

  /** The cut handed to a newcomer, and the key that signed it. */
  datatype Admission = Admission(cut: seq<Ref>, signer: Key)

  /** What a Welcome shows: the group as the commit leaves it, but for its cuts, and who sent it. */
  datatype Welcome = Welcome(id: nat, epoch: nat, roster: map<nat, Member>, settings: Settings, sender: Key)

  function Members(roster: map<nat, Member>): seq<Member>
    decreases |roster|
  {
    if roster == map[] then []
    else [roster[Smallest(roster.Keys)]] + Members(roster - {Smallest(roster.Keys)})
  }

  lemma {:induction false} MembersHas(roster: map<nat, Member>)
    ensures forall i | i in roster :: roster[i] in Members(roster)
    ensures forall m | m in Members(roster) :: exists i :: i in roster && roster[i] == m
    decreases |roster|
  {
    if roster != map[] {
      var l := Smallest(roster.Keys);
      var rest := roster - {l};
      MembersHas(rest);
      forall i | i in roster ensures roster[i] in Members(roster) {
        if i != l { assert i in rest && rest[i] == roster[i]; }
      }
      forall m | m in Members(roster) ensures exists i :: i in roster && roster[i] == m {
        if m in Members(rest) { var i :| i in rest && rest[i] == m; assert i in roster && roster[i] == m; }
        else { assert l in roster && roster[l] == m; }
      }
    }
  }

  lemma {:induction false} MembersOnce(roster: map<nat, Member>)
    requires OneLeafEach(roster)
    ensures EachOnce(Members(roster))
    decreases |roster|
  {
    if roster != map[] {
      var l := Smallest(roster.Keys);
      var rest := roster - {l};
      MembersOnce(rest);
      MembersHas(rest);
      forall j | 0 <= j < |Members(rest)| ensures Members(rest)[j].key != roster[l].key {
        assert Members(rest)[j] in Members(rest);
        var i :| i in rest && rest[i] == Members(rest)[j];
        assert i in roster && i != l;
      }
    }
  }

  /** What a newcomer records for a member: the entry the handed cut has for its key, else a fresh one. */
  function EntryOf(cut: seq<Ref>, m: Member, epoch: nat): Ref {
    if Find(cut, m.key).Some? then Find(cut, m.key).value else Began(m, epoch)
  }

  function EntriesOf(cut: seq<Ref>, ms: seq<Member>, epoch: nat): (r: seq<Ref>)
    ensures |r| == |ms| && forall i | 0 <= i < |ms| :: r[i] == EntryOf(cut, ms[i], epoch)
  {
    seq(|ms|, i requires 0 <= i < |ms| => EntryOf(cut, ms[i], epoch))
  }

  predicate Ascending(cut: seq<Ref>) {
    forall i | 0 <= i < |cut| - 1 :: cut[i].key < cut[i + 1].key
  }

  /** The view a newcomer takes on, or nothing if one of its checks fails. */
  function Join(w: Welcome, e: Entry, a: Admission): Option<View> {
    if w.settings.protocol != PROTOCOL then None
    else if exists i | i in w.roster :: w.roster[i].named != w.roster[i].key then None
    else if e.commit.epoch + 1 != w.epoch then None
    else if e.signer != w.sender || a.signer != w.sender then None
    else if !Ascending(a.cut) || exists r | r in a.cut :: !WellFormed(r) then None
    else if exists r | r in e.commit.aad.moved :: r !in a.cut then None
    else Some(View(w.id, w.epoch, w.roster, w.settings, Sort(EntriesOf(a.cut, Members(w.roster), w.epoch)), a.cut))
  }

  /** A cut built from a cut state: each membership in its place, where it was or moved on. */
  ghost predicate BuiltFrom(was: seq<Ref>, now: seq<Ref>) {
    && |now| == |was|
    && forall i | 0 <= i < |was| ::
         && now[i].Of() == was[i].Of()
         && (now[i] == was[i] || (was[i].num < now[i].num <= was[i].num + MAX_CUT_STEP && WellFormed(now[i])))
  }

  /** The entries a commit carries of a cut: those that are not in the cut state. */
  function Moved(was: seq<Ref>, now: seq<Ref>): seq<Ref> {
    if now == [] then [] else (if now[0] !in was then [now[0]] else []) + Moved(was, now[1..])
  }

  lemma {:induction false} MovedHas(was: seq<Ref>, now: seq<Ref>)
    requires ByKey(now)
    ensures ByKey(Moved(was, now)) && forall x :: x in Moved(was, now) <==> x in now && x !in was
    decreases |now|
  {
    if now != [] {
      var rest := Moved(was, now[1..]);
      MovedHas(was, now[1..]);
      assert forall x :: x in now <==> x == now[0] || x in now[1..];
      forall j | 0 <= j < |rest| ensures now[0].key < rest[j].key {
        assert rest[j] in rest;
        var n :| 0 <= n < |now[1..]| && now[1..][n] == rest[j];
        assert now[n + 1] == rest[j];
      }
    }
  }

  lemma BuiltByKey(was: seq<Ref>, now: seq<Ref>)
    requires ByKey(was) && BuiltFrom(was, now)
    ensures ByKey(now)
  {
    forall i, j | 0 <= i < j < |now| ensures now[i].key < now[j].key {
      assert now[i].Of() == was[i].Of() && now[j].Of() == was[j].Of();
    }
  }

  /** Carrying only what moved loses nothing: the members rebuild the whole cut from their cut state. */
  lemma Rebuilt(was: seq<Ref>, now: seq<Ref>)
    requires ByKey(was) && BuiltFrom(was, now)
    ensures MoveAll(was, Moved(was, now)) == now
  {
    var moved := Moved(was, now);
    BuiltByKey(was, now);
    MovedHas(was, now);
    var r := MoveAll(was, moved);
    forall i | 0 <= i < |was| ensures r[i] == now[i] {
      MoveAllAt(was, moved, i);
      assert now[i] in now && was[i] in was && now[i].Of() == was[i].Of();
      if now[i] in moved {
        FindUnique(now, r[i]);
        FindUnique(now, now[i]);
      } else {
        FindUnique(was, now[i]);
        FindUnique(was, was[i]);
        if x :| x in moved && x.key == was[i].key { FindUnique(now, x); FindUnique(now, now[i]); }
      }
    }
  }

  /** A cut built from the cut state passes the cut checks of the rules, at every member with that cut state. */
  lemma BuiltPasses(was: seq<Ref>, now: seq<Ref>)
    requires ByKey(was) && BuiltFrom(was, now)
    ensures CutRules(was, Moved(was, now))
  {
    BuiltByKey(was, now);
    MovedHas(was, now);
    forall r | r in Moved(was, now) ensures MoveAllowed(was, r) {
      var i :| 0 <= i < |now| && now[i] == r;
      assert was[i] in was && now[i].Of() == was[i].Of();
    }
  }

  lemma EntriesOnce(cut: seq<Ref>, ms: seq<Member>, epoch: nat)
    requires EachOnce(ms)
    ensures OncePerKey(EntriesOf(cut, ms, epoch))
  {
    var es := EntriesOf(cut, ms, epoch);
    forall i, j | 0 <= i < j < |es| ensures es[i].key != es[j].key {
      assert es[i].key == ms[i].key && es[j].key == ms[j].key;
    }
  }

  lemma EntriesHas(cut: seq<Ref>, roster: map<nat, Member>, epoch: nat, x: Ref)
    ensures x in EntriesOf(cut, Members(roster), epoch) <==>
      exists i :: i in roster && x == EntryOf(cut, roster[i], epoch)
  {
    var ms := Members(roster);
    var es := EntriesOf(cut, ms, epoch);
    MembersHas(roster);
    if x in es {
      var n :| 0 <= n < |es| && es[n] == x;
      assert ms[n] in ms;
      var i :| i in roster && roster[i] == ms[n];
      assert x == EntryOf(cut, roster[i], epoch);
    }
    if i :| i in roster && x == EntryOf(cut, roster[i], epoch) {
      var n :| 0 <= n < |ms| && ms[n] == roster[i];
      assert es[n] == x;
    }
  }

  /** The joiner's cut state: an entry for each member of the new roster, sorted by key. */
  lemma JoinedCut(cut: seq<Ref>, roster: map<nat, Member>, epoch: nat)
    requires OneLeafEach(roster)
    ensures var joined := Sort(EntriesOf(cut, Members(roster), epoch));
      && ByKey(joined)
      && forall x :: x in joined <==> exists i :: i in roster && x == EntryOf(cut, roster[i], epoch)
  {
    MembersOnce(roster);
    EntriesOnce(cut, Members(roster), epoch);
    Sorted(EntriesOf(cut, Members(roster), epoch));
    forall x
      ensures x in EntriesOf(cut, Members(roster), epoch) <==>
        exists i :: i in roster && x == EntryOf(cut, roster[i], epoch)
    {
      EntriesHas(cut, roster, epoch, x);
    }
  }

  /** A cut state of the entries that stay and those begun has, for each member, the entry a joiner gives it. */
  lemma SameEntry(ended: seq<Ref>, roster: map<nat, Member>, adds: seq<Member>, epoch: nat, cut: seq<Ref>, x: Ref)
    requires ByKey(ended) && KeysOf(cut) == RosterKeys(roster) && AddKeys(adds) !! KeysOf(ended)
    requires forall r :: r in cut <==>
      (r in ended && r.key in RosterKeys(roster)) || exists m :: m in adds && r == Began(m, epoch)
    ensures x in cut <==> exists i :: i in roster && x == EntryOf(ended, roster[i], epoch)
  {
    if x in cut {
      assert x.key in KeysOf(cut);
      var i :| i in roster && roster[i].key == x.key;
      if x in ended { FindUnique(ended, x); } else {
        var m :| m in adds && x == Began(m, epoch);
        assert m.key in AddKeys(adds);
      }
      assert x == EntryOf(ended, roster[i], epoch);
    }
    if i :| i in roster && x == EntryOf(ended, roster[i], epoch) {
      assert roster[i].key in RosterKeys(roster);
      if x !in ended || x.key !in KeysOf(ended) {
        var r :| r in cut && r.key == roster[i].key;
        assert r == x;
      }
    }
  }

  /** The joiner's cut state is the members'. */
  lemma SameCut(v: View, c: Commit)
    requires Inv(v) && MlsValid(v, c) && Rules(v, c)
    ensures var w := After(v, c); Sort(EntriesOf(w.ended, Members(w.roster), w.epoch)) == w.cut
  {
    var w := After(v, c);
    AfterCut(v, c);
    assert ByKey(w.ended) && KeysOf(w.ended) == KeysOf(v.cut) by { EndedCut(v, c); }
    assert AddKeys(Adds(c.proposals)) !! KeysOf(w.ended) by { AddedOnce(v, c); }
    assert OneLeafEach(w.roster) by { LeftRoster(v, c); }
    SameLists(w.ended, w.roster, Adds(c.proposals), w.epoch, w.cut);
  }

  lemma SameLists(ended: seq<Ref>, roster: map<nat, Member>, adds: seq<Member>, epoch: nat, cut: seq<Ref>)
    requires ByKey(ended) && KeysOf(cut) == RosterKeys(roster) && AddKeys(adds) !! KeysOf(ended) && ByKey(cut)
    requires OneLeafEach(roster)
    requires forall r :: r in cut <==>
      (r in ended && r.key in RosterKeys(roster)) || exists m :: m in adds && r == Began(m, epoch)
    ensures Sort(EntriesOf(ended, Members(roster), epoch)) == cut
  {
    JoinedCut(ended, roster, epoch);
    var joined := Sort(EntriesOf(ended, Members(roster), epoch));
    forall x ensures x in joined <==> x in cut { SameEntry(ended, roster, adds, epoch, cut, x); }
    SortedUnique(joined, cut);
  }

  /** The joiner accepts the cut its committer built. */
  lemma JoinAccepts(v: View, c: Commit, cut: seq<Ref>)
    requires Inv(v) && Rules(v, c) && BuiltFrom(v.cut, cut) && c.aad.moved == Moved(v.cut, cut)
    ensures MoveAll(v.cut, c.aad.moved) == cut && Ascending(cut)
    ensures forall r | r in cut :: WellFormed(r)
    ensures forall r | r in c.aad.moved :: r in cut
  {
    Rebuilt(v.cut, cut);
    EndedCut(v, c);
    MovedHas(v.cut, cut);
  }

  /** A joiner starts exactly where the members are: with the cut its committer built from the cut state, it accepts the
      admission and computes the view every member reaches by that commit. */
  lemma JoinerMeets(v: View, e: Entry, crypto: (View, Commit) -> bool, a: Admission)
    requires Inv(v) && Valid(v, e, crypto) && v.settings.protocol == PROTOCOL
    requires BuiltFrom(v.cut, a.cut) && e.commit.aad.moved == Moved(v.cut, a.cut)
    requires a.signer == v.roster[e.commit.from].key
    ensures var w := After(v, e.commit);
      Join(Welcome(w.id, w.epoch, w.roster, w.settings, v.roster[e.commit.from].key), e, a) == Some(w)
  {
    JoinAccepts(v, e.commit, a.cut);
    NamedAfter(v, e.commit);
    SettingsAfter(v, e.commit, e.commit.proposals);
    SameCut(v, e.commit);
    ChecksPass(After(v, e.commit), v.roster[e.commit.from].key, e, a);
  }

  lemma ChecksPass(w: View, sender: Key, e: Entry, a: Admission)
    requires w.settings.protocol == PROTOCOL && NamedRight(w.roster) && e.commit.epoch + 1 == w.epoch
    requires e.signer == sender && a.signer == sender && Ascending(a.cut) && a.cut == w.ended
    requires (forall r | r in a.cut :: WellFormed(r)) && forall r | r in e.commit.aad.moved :: r in a.cut
    requires Sort(EntriesOf(w.ended, Members(w.roster), w.epoch)) == w.cut
    ensures Join(Welcome(w.id, w.epoch, w.roster, w.settings, sender), e, a) == Some(w)
  {}

  /** When a newcomer joins: all of protocol 14, every credential naming its key, the entry of the epoch before and both
      signed by the Welcome's sender, and a cut in order that has what the commit moved. */
  lemma JoinExact(w: Welcome, e: Entry, a: Admission)
    ensures Join(w, e, a).Some? <==>
      && w.settings.protocol == 14
      && (forall i | i in w.roster :: w.roster[i].named == w.roster[i].key)
      && e.commit.epoch + 1 == w.epoch
      && e.signer == w.sender && a.signer == w.sender
      && ByKey(a.cut) && (forall r | r in a.cut :: |r.id| == if r.num == 0 then 0 else 32)
      && forall r | r in e.commit.aad.moved :: r in a.cut
  {
    if Ascending(a.cut) {
      forall i, j | 0 <= i < j < |a.cut| ensures a.cut[i].key < a.cut[j].key { Rising(a.cut, i, j); }
    }
  }

  /** And the view it joins with: the Welcome's, ended by the cut handed over, with each member's entry of that cut, or
      a first one if it has none. */
  lemma JoinView(w: Welcome, e: Entry, a: Admission, x: Ref)
    requires Join(w, e, a).Some? && OneLeafEach(w.roster)
    ensures var v := Join(w, e, a).value;
      && (v.id, v.epoch, v.roster, v.settings, v.ended) == (w.id, w.epoch, w.roster, w.settings, a.cut)
      && ByKey(v.cut)
      && (x in v.cut <==>
        && (exists i :: i in w.roster && w.roster[i].key == x.key)
        && if x.key in KeysOf(a.cut) then x in a.cut else x == Ref(x.key, w.epoch, 0, [], 0))
  {
    JoinExact(w, e, a);
    JoinedCut(a.cut, w.roster, w.epoch);
    forall r | r in a.cut ensures Find(a.cut, r.key) == Some(r) { FindUnique(a.cut, r); }
    if i :| i in w.roster && w.roster[i].key == x.key {
      assert x == EntryOf(a.cut, w.roster[i], w.epoch) <==>
        if x.key in KeysOf(a.cut) then x in a.cut else x == Ref(x.key, w.epoch, 0, [], 0);
    }
  }
}
