/**
 What a commit may do and what it does, in terms of its proposals and the lists, leaves and entries of the view.
 */
module Commits {
  import opened Refs
  import opened Cuts
  import opened Groups
  import opened GroupRuns
  import opened Authority

  // ---------------------------------------------------------------- what it may do

  /** An addition is allowed exactly if it names its own key, which the commit does not remove, and its committer is an
      admin, or a device that is admitted or an admin certified that key. */
  lemma AddExact(v: View, c: Commit, q: Queued)
    requires c.from in v.roster && q.proposal.Add?
    ensures Allowed(v, c, q) <==>
      && q.inline && q.proposal.named == q.proposal.key
      && (forall p | p in c.proposals && p.proposal.Remove? && p.proposal.leaf in v.roster ::
        v.roster[p.proposal.leaf].key != q.proposal.key)
      && var m := Member(q.proposal.key, q.proposal.cert, q.proposal.named);
      !Unprivileged(v, c) || CertifiedBy(m, v.settings.admitted) || CertifiedBy(m, v.settings.admins)
  {
    var key := q.proposal.key;
    if forall p | p in c.proposals && p.proposal.Remove? && p.proposal.leaf in v.roster ::
      v.roster[p.proposal.leaf].key != key {
      forall l | l in Removes(c.proposals) && l in v.roster ensures v.roster[l].key != key {
        var p :| p in c.proposals && p.proposal == Remove(l);
      }
    }
    forall p | p in c.proposals && p.proposal.Remove? ensures p.proposal.leaf in Removes(c.proposals) {
      assert p.proposal == Remove(p.proposal.leaf);
    }
  }

  /** A removal exactly if it is of a member, and its committer is an admin or the commit carries the leave that member
      signed for the membership it has. */
  lemma RemoveExact(v: View, c: Commit, q: Queued)
    requires Inv(v) && c.from in v.roster && q.proposal.Remove?
    ensures Allowed(v, c, q) <==>
      q.inline && q.proposal.leaf in v.roster && (!Unprivileged(v, c) || SignedLeave(v, c, q.proposal.leaf))
  {
    var l := q.proposal.leaf;
    if l in v.roster {
      var key := v.roster[l].key;
      if SignedLeave(v, c, l) {
        var m :| m in Memberships(v) && m.key == key && Leave(m.key, v.id, m.joined) in c.aad.left;
        LeaveBinds(v, m, Leave(m.key, v.id, m.joined));
      }
      if sig :| sig in c.aad.left && Left(v, key, sig) {
        assert Find(v.cut, key).value.Of() in Memberships(v);
      }
    }
  }

  /** A change exactly if its committer is an admin, and it leaves an admin and is of nothing but the two lists. */
  lemma ChangeExact(v: View, c: Commit, q: Queued)
    requires c.from in v.roster && q.proposal.Change?
    ensures var s := q.proposal.settings;
      Allowed(v, c, q) <==>
        && q.inline && q.proposal.exact && !Unprivileged(v, c)
        && s == v.settings.(admins := s.admins, admitted := s.admitted) && s.admins != []
  {}

  /** The moved entries are allowed exactly if each key is named once, in order, and each is of a membership of the cut,
      past its entry by at most 100,000, with the 32 bytes of an id. */
  lemma MovesExact(cut: seq<Ref>, moved: seq<Ref>)
    ensures CutRules(cut, moved) <==>
      && ByKey(moved)
      && forall r | r in moved ::
           |r.id| == 32 && exists was :: was in cut && was.Of() == r.Of() && was.num < r.num <= was.num + 100_000
  {
    if CutRules(cut, moved) {
      MovedByKey(cut, moved);
      forall r | r in moved
        ensures |r.id| == 32
        ensures exists was :: was in cut && was.Of() == r.Of() && was.num < r.num <= was.num + 100_000
      {
        assert MoveAllowed(cut, r);
      }
    }
  }

  /** A commit is allowed exactly if all it proposes is, it names an invite just when it adds someone, what it moves of
      the cut it may, and its committer's new leaf is of the key it had. */
  lemma RulesExact(v: View, c: Commit)
    ensures Rules(v, c) <==>
      && c.from in v.roster
      && (forall q | q in c.proposals :: Allowed(v, c, q))
      && (c.aad.invite.Some? <==> exists q :: q in c.proposals && q.proposal.Add?)
      && CutRules(v.cut, c.aad.moved)
      && (c.path.None? || (c.path.value.key == v.roster[c.from].key && c.path.value.named == v.roster[c.from].key))
  {
    if q :| q in c.proposals && q.proposal.Add? { assert Added(q.proposal) in Adds(c.proposals); }
    if Adds(c.proposals) != [] { assert Adds(c.proposals)[0] in Adds(c.proposals); }
  }

  // ---------------------------------------------------------------- what it does

  /** The settings after it: those of its change, or the same. */
  lemma {:induction false} SettingsExact(s: Settings, ps: seq<Queued>)
    requires forall i, j | 0 <= i < j < |ps| :: !(ps[i].proposal.Change? && ps[j].proposal.Change?)
    ensures forall q | q in ps && q.proposal.Change? :: NewSettings(s, ps) == q.proposal.settings
    ensures (forall q | q in ps :: !q.proposal.Change?) ==> NewSettings(s, ps) == s
    decreases |ps|
  {
    if ps != [] {
      SettingsExact(s, ps[1..]);
      assert forall q :: q in ps <==> q == ps[0] || q in ps[1..];
    }
  }

  lemma SettingsMove(v: View, c: Commit)
    requires MlsValid(v, c)
    ensures forall q | q in c.proposals && q.proposal.Change? :: After(v, c).settings == q.proposal.settings
    ensures (forall q | q in c.proposals :: !q.proposal.Change?) ==> After(v, c).settings == v.settings
    ensures After(v, c).id == v.id && After(v, c).epoch == v.epoch + 1
  {
    SettingsExact(v.settings, c.proposals);
  }

  /** The cut it ends the epoch with: the moved entries, and those of the other keys. */
  lemma EndedExact(v: View, c: Commit, r: Ref)
    requires Inv(v) && Rules(v, c)
    ensures r in After(v, c).ended <==>
      r in c.aad.moved || (r in v.cut && forall n | n in c.aad.moved :: n.key != r.key)
  {
    var cut, moved := v.cut, c.aad.moved;
    MovedByKey(cut, moved);
    if r in moved {
      assert MoveAllowed(cut, r);
      var was :| was in cut && was.key == r.key;
      MovedIn(cut, moved, was, r);
    } else if r in cut && forall n | n in moved :: n.key != r.key {
      MovedIn(cut, moved, r, r);
    }
    if r in After(v, c).ended { MovedFrom(cut, moved, r); }
  }

  /** An entry of a cut goes to the moved entry of its key, or stays. */
  lemma MovedIn(cut: seq<Ref>, moved: seq<Ref>, was: Ref, r: Ref)
    requires ByKey(cut) && ByKey(moved) && was in cut && MovesTo(was, moved, r)
    ensures r in MoveAll(cut, moved)
  {
    var i :| 0 <= i < |cut| && cut[i] == was;
    MoveAllAt(cut, moved, i);
    var now := MoveAll(cut, moved)[i];
    if was.key in KeysOf(moved) {
      FindUnique(moved, r);
      FindUnique(moved, now);
    }
  }

  lemma MovedFrom(cut: seq<Ref>, moved: seq<Ref>, r: Ref)
    requires ByKey(cut) && ByKey(moved) && r in MoveAll(cut, moved)
    ensures r in moved || (r in cut && forall n | n in moved :: n.key != r.key)
  {
    var i :| 0 <= i < |cut| && MoveAll(cut, moved)[i] == r;
    MoveAllAt(cut, moved, i);
    assert cut[i] in cut;
  }

  /** The members a commit leaves: each it does not remove, at its leaf, the committer with the certificate of its new
      leaf if the commit has one. */
  ghost function Remaining(v: View, c: Commit): map<nat, Member> {
    map l | l in v.roster && (forall q | q in c.proposals :: q.proposal != Remove(l)) ::
      if l == c.from && c.path.Some? then Member(v.roster[l].key, c.path.value.cert, v.roster[l].key) else v.roster[l]
  }

  /** Additions go to blank leaves, the first to the leftmost; nothing else is placed. */
  ghost predicate PlacedIn(roster: map<nat, Member>, adds: seq<Member>, now: map<nat, Member>, at: seq<nat>) {
    && |at| == |adds|
    && (forall l | l in roster :: l in now && now[l] == roster[l])
    && (forall i | 0 <= i < |adds| :: at[i] !in roster && at[i] in now && now[at[i]] == adds[i])
    && (forall l | l in now && l !in roster :: l in at && forall k: nat | k < l :: k in now)
    && forall i, j | 0 <= i < j < |at| :: at[i] < at[j]
  }

  lemma {:induction false} PlacedAt(roster: map<nat, Member>, adds: seq<Member>)
    ensures exists at :: PlacedIn(roster, adds, Place(roster, adds), at)
    decreases |adds|
  {
    if adds == [] {
      var none: seq<nat> := [];
      assert PlacedIn(roster, adds, Place(roster, adds), none);
    } else {
      var l := FreeLeaf(roster);
      var next := roster[l := adds[0]];
      PlacedAt(next, adds[1..]);
      var at :| PlacedIn(next, adds[1..], Place(next, adds[1..]), at);
      PlacedFirst(roster, adds, Place(next, adds[1..]), l, at);
      assert PlacedIn(roster, adds, Place(roster, adds), [l] + at);
    }
  }

  lemma PlacedFirst(roster: map<nat, Member>, adds: seq<Member>, now: map<nat, Member>, l: nat, at: seq<nat>)
    requires adds != [] && l !in roster && (forall i | 0 <= i < l :: i in roster)
    requires PlacedIn(roster[l := adds[0]], adds[1..], now, at)
    ensures PlacedIn(roster, adds, now, [l] + at)
  {
    var all := [l] + at;
    assert forall i | 0 < i < |all| :: all[i] == at[i - 1] && adds[i] == adds[1..][i - 1];
    assert forall x :: x in all <==> x == l || x in at;
    assert forall i | 0 <= i < |at| :: l < at[i];
  }

  lemma UpdatedIs(v: View, c: Commit)
    requires Rules(v, c)
    ensures Updated(v.roster - Removes(c.proposals), c) == Remaining(v, c)
  {
    var a, b := Updated(v.roster - Removes(c.proposals), c), Remaining(v, c);
    forall l ensures l in a <==> l in b {}
    forall l | l in b ensures a[l] == b[l] {}
  }

  /** So the roster after it is of the members that remain and those it adds, at the leftmost blank leaves in order. */
  lemma RosterExact(v: View, c: Commit)
    requires Rules(v, c)
    ensures exists at :: PlacedIn(Remaining(v, c), Adds(c.proposals), After(v, c).roster, at)
  {
    UpdatedIs(v, c);
    PlacedAt(Remaining(v, c), Adds(c.proposals));
    assert After(v, c).roster == Place(Remaining(v, c), Adds(c.proposals));
  }

  // ---------------------------------------------------------------- what a member can do

  /** A commit of one inline proposal that moves nothing of the cut. */
  function One(v: View, from: nat, p: Proposal, left: seq<Leave>, time: nat): Commit {
    Commit(from, v.epoch, [Queued(true, p)], None, Aad(if p.Add? then Some(0) else None, left, [], time))
  }

  lemma OneOnly(v: View, from: nat, p: Proposal, left: seq<Leave>, time: nat)
    ensures var ps := One(v, from, p, left, time).proposals;
      && Adds(ps) == (if p.Add? then [Added(p)] else [])
      && Removes(ps) == (if p.Remove? then {p.leaf} else {})
      && forall q :: q in ps <==> q == Queued(true, p)
  {
    var ps := One(v, from, p, left, time).proposals;
    assert ps[1..] == [];
    if p.Remove? { assert Queued(true, p) in ps && Queued(true, p).proposal == Remove(p.leaf); }
  }

  /** A member can remove another exactly if it is an admin or carries that one's leave; and who is removed has no leaf
      after. */
  lemma MayRemove(v: View, from: nat, l: nat, left: seq<Leave>, time: nat)
    requires Inv(v) && from in v.roster && l in v.roster && l != from
    ensures var c := One(v, from, Remove(l), left, time);
      && MlsValid(v, c)
      && (Rules(v, c) <==> !Unprivileged(v, c) || SignedLeave(v, c, l))
      && (Rules(v, c) ==> v.roster[l].key !in RosterKeys(After(v, c).roster))
  {
    var c := One(v, from, Remove(l), left, time);
    OneOnly(v, from, Remove(l), left, time);
    RemoveAllowed(v, c, l);
    if Rules(v, c) {
      LeftRoster(v, c);
      assert AddKeys(Adds(c.proposals)) == {};
    }
  }

  lemma RemoveAllowed(v: View, c: Commit, l: nat)
    requires Inv(v) && c.from in v.roster && c.proposals == [Queued(true, Remove(l))] && l in v.roster
    requires c.aad.invite.None? && c.aad.moved == [] && c.path.None?
    ensures Rules(v, c) <==> !Unprivileged(v, c) || SignedLeave(v, c, l)
  {
    var q := c.proposals[0];
    assert q in c.proposals && forall p | p in c.proposals :: p == q;
    RemoveExact(v, c, q);
    RulesExact(v, c);
  }

  /** A member can add a key that is no member's exactly if it is an admin or an admitted or admin device certified that
      key; and it is then a member, with nothing kept of it yet. */
  lemma MayAdd(v: View, from: nat, key: Key, cert: Option<Cert>, time: nat)
    requires Inv(v) && from in v.roster && key !in RosterKeys(v.roster)
    ensures var (c, m) := (One(v, from, Add(key, cert, key), [], time), Member(key, cert, key));
      && MlsValid(v, c)
      && (Rules(v, c) <==>
        !Unprivileged(v, c) || CertifiedBy(m, v.settings.admitted) || CertifiedBy(m, v.settings.admins))
      && (Rules(v, c) ==> key in RosterKeys(After(v, c).roster) && Ref(key, v.epoch + 1, 0, [], 0) in After(v, c).cut)
  {
    var c, m := One(v, from, Add(key, cert, key), [], time), Member(key, cert, key);
    OneOnly(v, from, Add(key, cert, key), [], time);
    assert Adds(c.proposals) == [m];
    AddAllowed(v, c, m);
    if Rules(v, c) { AddDone(v, c, m); }
  }

  lemma AddAllowed(v: View, c: Commit, m: Member)
    requires c.from in v.roster && c.proposals == [Queued(true, Add(m.key, m.cert, m.key))] && m.named == m.key
    requires c.aad.invite.Some? && c.aad.moved == [] && c.path.None?
    ensures Rules(v, c) <==>
      !Unprivileged(v, c) || CertifiedBy(m, v.settings.admitted) || CertifiedBy(m, v.settings.admins)
  {
    var q := c.proposals[0];
    assert q in c.proposals && forall p | p in c.proposals :: p == q;
    AddExact(v, c, q);
    RulesExact(v, c);
  }

  lemma AddDone(v: View, c: Commit, m: Member)
    requires Inv(v) && MlsValid(v, c) && Rules(v, c) && m in Adds(c.proposals)
    ensures m.key in RosterKeys(After(v, c).roster) && Ref(m.key, v.epoch + 1, 0, [], 0) in After(v, c).cut
  {
    var (w, x) := (After(v, c), Began(m, v.epoch + 1));
    AfterCut(v, c);
    assert x in w.cut by { assert Continues(w, c, x); }
    assert x.key in KeysOf(w.cut);
  }

  /** A member can set the two lists exactly if it is an admin and leaves one; and then they are what it set. */
  lemma MayChange(v: View, from: nat, admins: seq<Key>, admitted: seq<Key>, time: nat)
    requires Inv(v) && from in v.roster
    ensures var s := v.settings.(admins := admins, admitted := admitted);
      var c := One(v, from, Change(s, true), [], time);
      && MlsValid(v, c)
      && (Rules(v, c) <==> !Unprivileged(v, c) && admins != [])
      && After(v, c).settings == s
  {
    var s := v.settings.(admins := admins, admitted := admitted);
    var c := One(v, from, Change(s, true), [], time);
    OneOnly(v, from, Change(s, true), [], time);
    assert MlsValid(v, c);
    ChangeAllowed(v, c, s);
    SettingsMove(v, c);
  }

  lemma ChangeAllowed(v: View, c: Commit, s: Settings)
    requires c.from in v.roster && c.proposals == [Queued(true, Change(s, true))]
    requires c.aad.invite.None? && c.aad.moved == [] && c.path.None?
    requires s == v.settings.(admins := s.admins, admitted := s.admitted)
    ensures Rules(v, c) <==> !Unprivileged(v, c) && s.admins != []
    ensures Queued(true, Change(s, true)) in c.proposals
  {
    var q := c.proposals[0];
    assert q in c.proposals && forall p | p in c.proposals :: p == q;
    ChangeExact(v, c, q);
    RulesExact(v, c);
  }
}
