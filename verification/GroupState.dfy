/**
 A session's group as it is changed in place by the entries it reads and the commits it builds: each method's effect is
 the step the other modules reason about.
 */
module GroupState {
  import opened Refs
  import opened Cuts
  import opened Groups
  import opened Sessions

  class Group<W(!new)> {
    const id: nat
    const own: nat
    const mls: Mls<W>
    var epoch: nat
    var roster: map<nat, Member>
    var settings: Settings
    var active: bool
    var posted: Option<Posted>
    /** This epoch's cut state, and the whole cut the commit before it ended with. */
    var cut: seq<Ref>
    var ended: seq<Ref>

    function State(): Session
      reads this
    {
      Session(View(id, epoch, roster, settings, cut, ended), own, active, posted)
    }

    /** A new group, of its founder alone. */
    constructor Create(id: nat, key: Key, cert: Option<Cert>, settings: Settings, mls: Mls<W>)
      ensures Fit(State(), mls) && active && posted == None && this.mls == mls
      ensures Memberships(State().view.cut) == {Membership(key, 0)}
      ensures Admin(this.settings, Member(key, cert, key))
    {
      var founder := Member(key, cert, key);
      this.id, own, this.mls, epoch, roster, active, posted := id, 0, mls, 0, map[0 := founder], true, None;
      var admins := [founder.key] + if Device(founder).Some? then [Device(founder).value] else [];
      this.settings, cut, ended := settings.(admins := admins), [Ref(founder.key, 0, 0, [], 0)], [];
      new;
      assert this.settings.admins[0] == founder.key;
      assert cut[0] in cut && roster[0].key == founder.key;
    }

    /** Makes `entry` this session's pending commit if it is valid here, so that by `Sessions.BuiltIsTaken` the others
        will take it too. */
    method Build(entry: Entry, whole: seq<Ref>) returns (ok: bool)
      requires Fit(State(), mls) && active && posted.None? && entry.commit.from == own
      modifies `posted
      ensures ok <==> Valid(State().view, entry, mls.crypto)
      ensures Fit(State(), mls) && posted == if ok then Some(Posted(entry, whole)) else None
    {
      ok := Valid(State().view, entry, mls.crypto);
      if ok { posted := Some(Posted(entry, whole)); }
    }

    /** Abandons the pending commit. */
    method Cancel()
      requires Fit(State(), mls)
      modifies `posted
      ensures Fit(State(), mls) && posted.None?
    {
      posted := None;
    }

    /** The verdict on an entry. Only a refused commit of one's own changes anything: it is pending no more. */
    method JudgeEntry(w: W) returns (verdict: Verdict)
      modifies `posted
      ensures verdict == Judge(old(State()), w, mls)
      ensures verdict.Copied? <==> old(active) && OwnUnposted(old(State()), w, mls)
      ensures verdict.Commits? || verdict.Copied? ==> posted == old(posted)
      ensures !verdict.Commits? ==> State() == Read(old(State()), w, mls)
    {
      if !active { return Skipped; }
      var opened' := mls.open(State().view, w);
      if opened'.None? { return Skipped; }
      var e := opened'.value;
      if posted.Some? && posted.value.entry == e {
        if Rules(State().view, e.commit) { return Commits(false, e.commit.aad.time); }
        posted := None;
        return Skipped;
      }
      if e.commit.epoch != epoch || e.commit.from !in roster { return Skipped; }
      if e.commit.from == own {
        if e.signer == roster[own].key { return Copied; }
        return Skipped;
      }
      if Valid(State().view, e, mls.crypto) { return Commits(own in Removes(e.commit.proposals), e.commit.aad.time); }
      return Skipped;
    }

    /** The cut a commit ends the epoch with: each entry it moves replaced by key. */
    method Observe(moved: seq<Ref>) returns (now: seq<Ref>)
      ensures now == MoveAll(cut, moved)
    {
      now := cut;
      assert moved[0..] == moved;
      for n := 0 to |moved|
        invariant MoveAll(cut, moved) == MoveAll(now, moved[n..])
      {
        assert moved[n..][0] == moved[n] && moved[n..][1..] == moved[n + 1..];
        var i := 0;
        while i < |now| && now[i].key != moved[n].key
          invariant 0 <= i <= |now| && forall j | 0 <= j < i :: now[j].key != moved[n].key
        {
          i := i + 1;
        }
        ReplacedAt(now, moved[n], i);
        if i < |now| { now := now[i := moved[n]]; }
      }
    }

    /** Filters `was` to the keys that still have a leaf, appends the fresh entries of `adds`, and sorts. */
    method Merge(was: seq<Ref>, adds: seq<Member>, keys: set<Key>, begun: nat) returns (next: seq<Ref>)
      ensures next == Sort(Staying(was, keys) + Begun(adds, begun))
    {
      next := [];
      assert was[0..] == was;
      for n := 0 to |was|
        invariant Staying(was, keys) == next + Staying(was[n..], keys)
      {
        assert was[n..][0] == was[n] && was[n..][1..] == was[n + 1..];
        ghost var rest := Staying(was[n + 1..], keys);
        if was[n].key in keys {
          assert next + ([was[n]] + rest) == (next + [was[n]]) + rest;
          next := next + [was[n]];
        } else {
          assert [] + rest == rest;
        }
      }
      assert next + [] == next;
      next := Sort(next + Begun(adds, begun));
    }

    /** Moves to the epoch a commit begins. */
    method Apply(c: Commit, removes: bool)
      modifies this
      ensures State() == Session(After(old(State()).view, c), own, old(active) && !removes, None)
    {
      var moved := Observe(c.aad.moved);
      var next := NewRoster(State().view, c);
      var state := Merge(moved, Adds(c.proposals), RosterKeys(next), epoch + 1);
      MovedView(State().view, c, moved, next, state);
      Put(View(id, epoch + 1, next, NewSettings(settings, c.proposals), state, moved), active && !removes);
    }

    method Put(view: View, stays: bool)
      requires view.id == id
      modifies this
      ensures State() == Session(view, own, stays, None)
    {
      epoch, roster, settings, cut, ended := view.epoch, view.roster, view.settings, view.cut, view.ended;
      posted, active := None, stays;
    }

    /** Takes one entry: the view becomes what `Follow` gives, unless it is of this leaf and this session did not post
        it, which answers false. */
    method ReadEntry(w: W) returns (ok: bool)
      requires Fit(State(), mls) && active
      modifies this
      ensures ok <==> !OwnUnposted(old(State()), w, mls)
      ensures ok ==> State().view == Follow(old(State()).view, w, mls) && Fit(State(), mls)
      ensures !ok ==> State() == old(State())
    {
      ghost var was := State();
      var verdict := JudgeEntry(w);
      CopiedExact(was, w, mls);
      if verdict.Commits? { Apply(mls.open(State().view, w).value.commit, verdict.removes); }
      ok := !verdict.Copied?;
      if ok { ReadFollows(was, w, mls); }
    }
  }

  lemma MovedView(v: View, c: Commit, moved: seq<Ref>, next: map<nat, Member>, state: seq<Ref>)
    requires moved == MoveAll(v.cut, c.aad.moved) && next == NewRoster(v, c)
    requires state == Sort(Staying(moved, RosterKeys(next)) + Begun(Adds(c.proposals), v.epoch + 1))
    ensures After(v, c) == View(v.id, v.epoch + 1, next, NewSettings(v.settings, c.proposals), state, moved)
  {}

  function Memberships(cut: seq<Ref>): set<Membership> {
    set r | r in cut :: r.Of()
  }

  lemma {:induction false} ReplacedAt(cut: seq<Ref>, moved: Ref, i: nat)
    requires i <= |cut| && (forall j | 0 <= j < i :: cut[j].key != moved.key) && (i < |cut| ==> cut[i].key == moved.key)
    ensures MoveOne(cut, moved) == if i < |cut| then cut[i := moved] else cut
    decreases |cut|
  {
    if cut != [] && i > 0 {
      ReplacedAt(cut[1..], moved, i - 1);
      if i < |cut| { assert [cut[0]] + cut[1..][i - 1 := moved] == cut[i := moved]; }
    } else if cut != [] {
      assert [moved] + cut[1..] == cut[0 := moved];
    }
  }
}
