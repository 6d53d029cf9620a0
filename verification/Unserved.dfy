/**
 A run of a group in which a message is left by every pass of giving up. A commit makes it ready, by losing what it
 required; applying a commit delivers nothing, and a pass that finds nothing ends before it delivers.
 */
module Unserved {
  import opened Refs
  import C = Cuts
  import opened Held
  import opened GivingUp
  import opened Steps
  import opened Runs
  import V = Groups
  import R = GroupRuns
  import A = Authority
  import K = Keeper
  import B = Bridge
  import D = Duties

  // ---------------------------------------------------------------- the group

  /** MLS finds nothing wrong with these commits. */
  function Accepting(): (V.View, V.Commit) -> bool {
    (v, c) => true
  }

  /** A group of its founder `b` alone. */
  function Founded(id: nat, b: Key, settings: V.Settings): V.View {
    A.Created(id, b, None, settings)
  }

  /** Its first commit, by the founder, adds two members. */
  function Admitting(b: Key, me: Key, c: Key): V.Entry {
    var adds := [V.Queued(true, V.Add(me, None, me)), V.Queued(true, V.Add(c, None, c))];
    V.Entry(V.Commit(0, 0, adds, None, V.Aad(Some(0), [], [], 0)), b)
  }

  lemma AdmittingAdds(b: Key, me: Key, c: Key)
    ensures V.Adds(Admitting(b, me, c).commit.proposals) == [V.Member(me, None, me), V.Member(c, None, c)]
    ensures V.Removes(Admitting(b, me, c).commit.proposals) == {}
  {
    var ps := Admitting(b, me, c).commit.proposals;
    assert ps[1..] == [V.Queued(true, V.Add(c, None, c))] && ps[1..][1..] == [];
    assert V.Adds(ps[1..]) == [V.Member(c, None, c)] + V.Adds([]);
  }

  lemma AdmittingValid(id: nat, b: Key, me: Key, c: Key, settings: V.Settings)
    requires b != me && b != c && me != c
    ensures V.Valid(Founded(id, b, settings), Admitting(b, me, c), Accepting())
  {
    var v := Founded(id, b, settings);
    A.CreatedInv(id, b, None, settings);
    AdmittingAdds(b, me, c);
  }

  lemma AdmittingKeeps(id: nat, b: Key, me: Key, c: Key, settings: V.Settings)
    requires b != me && b != c && me != c
    ensures var v := V.After(Founded(id, b, settings), Admitting(b, me, c).commit);
      R.Inv(v) && v.epoch == 1 && v.ended == [Ref(b, 0, 0, [], 0)]
  {
    A.CreatedInv(id, b, None, settings);
    AdmittingValid(id, b, me, c, settings);
    R.AfterKeeps(Founded(id, b, settings), Admitting(b, me, c).commit);
  }

  lemma AdmittingRoster(id: nat, b: Key, me: Key, c: Key, settings: V.Settings)
    requires b != me && b != c && me != c
    ensures b in V.RosterKeys(V.NewRoster(Founded(id, b, settings), Admitting(b, me, c).commit))
  {
    var v, commit := Founded(id, b, settings), Admitting(b, me, c).commit;
    A.CreatedInv(id, b, None, settings);
    AdmittingValid(id, b, me, c, settings);
    R.LeftRoster(v, commit);
    AdmittingAdds(b, me, c);
    assert v.roster - {} == v.roster && v.roster[0].key == b;
  }

  lemma AdmittingContinues(id: nat, b: Key, me: Key, c: Key, settings: V.Settings, x: Ref)
    requires b != me && b != c && me != c
    ensures var (v, commit) := (Founded(id, b, settings), Admitting(b, me, c).commit);
      x in V.After(v, commit).cut <==> R.Continues(V.After(v, commit), commit, x)
  {
    A.CreatedInv(id, b, None, settings);
    AdmittingValid(id, b, me, c, settings);
    R.AfterCut(Founded(id, b, settings), Admitting(b, me, c).commit);
  }

  lemma ContinuesThree(w: V.View, b: Key, me: Key, c: Key, x: Ref)
    requires w.epoch == 1 && w.ended == [Ref(b, 0, 0, [], 0)] && b in V.RosterKeys(w.roster)
    ensures R.Continues(w, Admitting(b, me, c).commit, x) <==>
      x in {Ref(b, 0, 0, [], 0), Ref(me, 1, 0, [], 0), Ref(c, 1, 0, [], 0)}
  {
    AdmittingAdds(b, me, c);
    var adds := [V.Member(me, None, me), V.Member(c, None, c)];
    assert adds[0] in adds && adds[1] in adds;
  }

  /** The epoch it begins: the founder's membership is of epoch 0, and the others' of epoch 1. */
  lemma AdmittingCut(id: nat, b: Key, me: Key, c: Key, settings: V.Settings, x: Ref)
    requires b != me && b != c && me != c
    ensures var v := V.After(Founded(id, b, settings), Admitting(b, me, c).commit);
      x in v.cut <==> x in {Ref(b, 0, 0, [], 0), Ref(me, 1, 0, [], 0), Ref(c, 1, 0, [], 0)}
  {
    AdmittingKeeps(id, b, me, c, settings);
    AdmittingRoster(id, b, me, c, settings);
    AdmittingContinues(id, b, me, c, settings, x);
    ContinuesThree(V.After(Founded(id, b, settings), Admitting(b, me, c).commit), b, me, c, x);
  }

  /** A member's commit that only updates its leaf, with the cut entries it moves. */
  function Update(v: V.View, leaf: nat, moved: seq<Ref>): V.Entry
    requires leaf in v.roster
  {
    var key := v.roster[leaf].key;
    V.Entry(V.Commit(leaf, v.epoch, [], Some(V.Path(key, key, None)), V.Aad(None, [], moved, 0)), key)
  }

  lemma UpdateValid(v: V.View, leaf: nat, moved: seq<Ref>)
    requires leaf in v.roster && V.CutRules(v.cut, moved)
    ensures V.Valid(v, Update(v, leaf, moved), Accepting())
  {}

  /** After it the members and their memberships are the same, and each is kept as the commit ended the epoch. */
  lemma UpdateKeeps(v: V.View, leaf: nat, moved: seq<Ref>, w: V.View)
    requires R.Inv(v) && leaf in v.roster && V.CutRules(v.cut, moved) && w == V.After(v, Update(v, leaf, moved).commit)
    ensures R.Inv(w) && w.epoch == v.epoch + 1 && V.RosterKeys(w.roster) == V.RosterKeys(v.roster)
    ensures w.ended == C.MoveAll(v.cut, moved) && forall x :: x in w.cut <==> x in w.ended
  {
    var c := Update(v, leaf, moved).commit;
    UpdateValid(v, leaf, moved);
    R.AfterKeeps(v, c);
    R.AfterCut(v, c);
    R.EndedCut(v, c);
    UpdateRoster(v, leaf, moved);
    forall x ensures x in w.cut <==> x in w.ended {
      assert x in w.cut <==> R.Continues(w, c, x);
      if x in w.ended { assert x.key in C.KeysOf(w.ended); }
    }
  }

  lemma UpdateRoster(v: V.View, leaf: nat, moved: seq<Ref>)
    requires R.Inv(v) && leaf in v.roster && V.CutRules(v.cut, moved)
    ensures V.RosterKeys(V.NewRoster(v, Update(v, leaf, moved).commit)) == V.RosterKeys(v.roster)
  {
    var c := Update(v, leaf, moved).commit;
    UpdateValid(v, leaf, moved);
    R.LeftRoster(v, c);
    assert v.roster - V.Removes(c.proposals) == v.roster;
    assert R.AddKeys(V.Adds(c.proposals)) == {};
  }

  // ---------------------------------------------------------------- the held state

  /** The second message of a membership, sent in epoch 1 after one with id `first`. */
  function Second(m: Membership, first: Id): Header {
    Header(m, 2, 1, Some((first, 1)), [], false)
  }

  /** Only `b`'s second message is pending, its first not held; kept through `cut`, with `lost` of it lost. */
  ghost predicate Shape(g: G, b: Membership, r: Record, cut: nat, lost: set<nat>) {
    && g.me.joined == 1 && b in g.authors && b in g.current
    && g.authors[b] == NewAuthor(0).(cut := cut, known := 2, held := {2}, lost := lost)
    && (forall m | m in g.authors && m != b :: g.authors[m].Pending() == {})
    && (b, 2) in g.records && g.records[(b, 2)] == r && r.header.deps == []
  }

  /** Opened without the first, as the session has just joined. */
  lemma Opens2(g: G, b: Membership, id: Id, first: Id, g': G)
    requires g.me.joined == 1 && g.me != b && b in g.authors && b in g.current && g.records == map[]
    requires forall m | m in g.authors :: g.authors[m] == NewAuthor(0)
    requires g' == Open(g, id, Second(b, first), 1, 0)
    ensures Opens(g, Second(b, first))
    ensures Shape(g', b, Record(id, Second(b, first), Some(1), 0, false, None), 0, {}) && g'.keep == g.keep
    ensures g'.me == g.me
  {
    var a := Taken(g, Second(b, first));
    assert a == Learn(g.authors, b, 1);
    assert a[b].held + {2} == {2};
  }

  /** A commit that keeps `b`'s first message, or that comes after one that did. */
  ghost predicate Keeping(g: G, cut: map<Membership, Ref>, state: set<Membership>, b: Membership) {
    cut.Keys <= g.authors.Keys && b in state && b in cut && cut[b].num == 1 && cut[b].epoch == 1
  }

  lemma KeepingAuthor(g: G, b: Membership, r: Record, was: nat, lost: set<nat>, cut: map<Membership, Ref>,
      state: set<Membership>)
    requires Shape(g, b, r, was, lost) && Keeping(g, cut, state, b)
    ensures Committed(g, cut, state, b) ==
      NewAuthor(0).(cut := 1, known := 2, held := {2}, lost := lost + LackingOf(g, b))
  {}

  /** It keeps every other membership with nothing pending. */
  lemma KeepingOthers(g: G, b: Membership, r: Record, was: nat, lost: set<nat>, cut: map<Membership, Ref>,
      state: set<Membership>, m: Membership)
    requires Shape(g, b, r, was, lost) && Keeping(g, cut, state, b) && m in Cuts(Lose(g), cut, state).authors && m != b
    ensures Cuts(Lose(g), cut, state).authors[m].Pending() == {}
  {
    CommitKeys(g, cut, state);
    if m in g.authors {
      CommitOne(g, cut, state, m);
      HeldNoMore(g, cut, state, m);
    } else {
      CommitNew(g, cut, state, m);
    }
  }

  lemma HeldNoMore(g: G, cut: map<Membership, Ref>, state: set<Membership>, m: Membership)
    requires m in g.authors
    ensures Committed(g, cut, state, m).Pending() <= g.authors[m].Pending()
  {}

  lemma KeepingShape(g: G, b: Membership, r: Record, was: nat, lost: set<nat>, cut: map<Membership, Ref>,
      state: set<Membership>, g': G)
    requires Shape(g, b, r, was, lost) && Keeping(g, cut, state, b) && g' == Cuts(Lose(g), cut, state)
    ensures Shape(g', b, r, 1, lost + LackingOf(g, b)) && KeepOf(g', b) == Span(was + 1, 1)
  {
    CommitOne(g, cut, state, b);
    KeepingAuthor(g, b, r, was, lost, cut, state);
    CommitRecords(g, cut, state, b, 2);
    CommitKeep(g, cut, state, b);
    forall m | m in g'.authors && m != b ensures g'.authors[m].Pending() == {} {
      KeepingOthers(g, b, r, was, lost, cut, state, m);
    }
  }

  /** With its author's first message lost, the second is ready; and at whatever time, a pass finds nothing. */
  lemma PassLeaves(g: G, b: Membership, r: Record, env: Env, g': G)
    requires Shape(g, b, r, 1, {1})
    ensures Ready(g, b) && !Finds(g, env)
    ensures Passes(g, true, env, g') ==> g' == g && !NextDelivered(g, g')
  {
    assert g.authors[b].Pending() == {2};
    assert g.authors[b].Next() == 2 && g.authors[b].Below(2);
    forall m | m in g.authors && Due(g, env, m) ensures GivenAt(g, env, m) == {} && !ReleasedAt(g, env, m) {
      assert m == b;
      assert Wants(r, b, 2) == [Requirement(b, 1)];
    }
    assert Giving(g, env) == {} && Releasing(g, env) == {};
    assert (b, 2) !in Done(g);
  }

  // ---------------------------------------------------------------- the third member

  /** What the third member holds as it commits: `b`'s first message, sealed in epoch 1. */
  function Holding(b: Membership, first: Id): map<(Membership, nat), Record> {
    map[(b, 1) := Record(first, Header(b, 1, 1, None, [], false), Some(1), 0, false, None)]
  }

  /** The cut it builds in that epoch keeps exactly that message. */
  lemma HonestCut(cut: seq<Ref>, b: Membership, first: Id, c: Key, unheld: Record -> bool, i: nat)
    requires C.ByKey(cut) && i < |cut| && b.key != c && forall r | r in cut :: r.num == 0
    requires forall r | r in cut && r.key == b.key :: r == Ref(b.key, b.joined, 0, [], 0)
    ensures var kept := C.MoveAll(cut, [Ref(b.key, b.joined, 1, first, 1)])[i];
      D.KeepsAll(Holding(b, first), 1, c, unheld, cut[i], kept)
  {
    var moved := [Ref(b.key, b.joined, 1, first, 1)];
    C.MoveAllAt(cut, moved, i);
    assert cut[i] in cut && moved[0] in moved;
    if cut[i].key == b.key { HonestMove(b, first, c, unheld); } else { HonestRest(cut[i], b, first, c, unheld); }
  }

  lemma HonestMove(b: Membership, first: Id, c: Key, unheld: Record -> bool)
    requires b.key != c
    ensures var (was, now) := (Ref(b.key, b.joined, 0, [], 0), Ref(b.key, b.joined, 1, first, 1));
      D.KeepsAll(Holding(b, first), 1, c, unheld, was, now)
  {
    var was := Ref(b.key, b.joined, 0, [], 0);
    assert was.Of() == b;
    assert D.KeepsAt(Holding(b, first), 1, c, unheld, was, 1);
  }

  lemma HonestRest(was: Ref, b: Membership, first: Id, c: Key, unheld: Record -> bool)
    requires was.key != b.key
    ensures D.KeepsAll(Holding(b, first), 1, c, unheld, was, was)
  {
    assert was.Of() != b;
  }

  // ---------------------------------------------------------------- the run

  /** A relation that holds at least between a session's states one act apart. What follows is stated of any such
      relation, and so of the acts themselves. */
  type Relation = (G, V.View, B.Act, G, V.View) -> bool

  ghost predicate Allows(step: Relation) {
    forall g, v, a, g', v' {:trigger B.ActStep(g, v, a, g', v', Accepting())} ::
      B.ActStep(g, v, a, g', v', Accepting()) ==> step(g, v, a, g', v')
  }

  /** States that are one such step apart each. */
  ghost predicate Traced(gs: seq<G>, vs: seq<V.View>, acts: seq<B.Act>, step: Relation) {
    |gs| == |vs| == |acts| + 1 && forall i | 0 <= i < |acts| :: TracedAt(gs, vs, acts, step, i)
  }

  ghost predicate TracedAt(gs: seq<G>, vs: seq<V.View>, acts: seq<B.Act>, step: Relation, i: nat)
    requires i < |acts| && |gs| == |vs| == |acts| + 1
  {
    step(gs[i], vs[i], acts[i], gs[i + 1], vs[i + 1])
  }

  ghost function Acting(): Relation {
    (g, v, a, g', v') => B.ActStep(g, v, a, g', v', Accepting())
  }

  lemma AsSession(gs: seq<G>, vs: seq<V.View>, acts: seq<B.Act>)
    requires Traced(gs, vs, acts, Acting()) && B.InStep(gs[0], vs[0])
    ensures B.Session(gs, vs, acts, Accepting())
  {
    forall i | 0 <= i < |acts| ensures B.ActAt(gs, vs, acts, Accepting(), i) {
      assert TracedAt(gs, vs, acts, Acting(), i);
    }
  }

  /** A view of the group in which `b` is kept at `kept` and a third member has the key `c`, and every membership of it
      is known to the held state. */
  ghost predicate At(g: G, v: V.View, b: Membership, kept: Ref, c: Key) {
    R.Inv(v) && kept in v.cut && kept.Of() == b && c in V.RosterKeys(v.roster) && forall r | r in v.cut ::
      r.Of() in g.authors
  }

  lemma LeafOf(v: V.View, c: Key) returns (leaf: nat)
    requires c in V.RosterKeys(v.roster)
    ensures leaf in v.roster && v.roster[leaf].key == c
  {
    leaf :| leaf in v.roster && v.roster[leaf].key == c;
  }

  /** The third member's commit takes the held state on, and changes nothing of the group but the cut. */
  lemma Third(step: Relation, g: G, v: V.View, b: Membership, r: Record, was: nat, lost: set<nat>, kept: Ref, c: Key,
      moved: seq<Ref>, next: Ref)
      returns (a: B.Act, w: V.View, g': G)
    requires Allows(step) && At(g, v, b, kept, c) && Shape(g, b, r, was, lost)
    requires (moved == [] && next == kept) || (moved == [next] && kept.num == 0 && next.Of() == b && |next.id| == 32)
    requires next.num == 1 && next.epoch == 1
    ensures step(g, v, a, g', w) && w.ended == C.MoveAll(v.cut, moved)
    ensures At(g', w, b, next, c) && Shape(g', b, r, 1, lost + LackingOf(g, b)) && KeepOf(g', b) == Span(was + 1, 1)
  {
    var leaf := LeafOf(v, c);
    MovesAllowed(v, kept, moved, next);
    var e := Update(v, leaf, moved);
    a, w := B.Reading(e), V.After(v, e.commit);
    UpdateValid(v, leaf, moved);
    UpdateKeeps(v, leaf, moved, w);
    g' := Cuts(Lose(g), K.CutMap(w.ended), A.Memberships(w));
    MovesOn(v, kept, moved, next);
    B.MapOf(w.ended, next);
    EndedKnown(g, v, leaf, moved, w);
    KeepingShape(g, b, r, was, lost, K.CutMap(w.ended), A.Memberships(w), g');
    CommitKeys(g, K.CutMap(w.ended), A.Memberships(w));
    assert B.ActStep(g, v, a, g', w, Accepting());
  }

  lemma EndedKnown(g: G, v: V.View, leaf: nat, moved: seq<Ref>, w: V.View)
    requires R.Inv(v) && leaf in v.roster && V.CutRules(v.cut, moved) && w == V.After(v, Update(v, leaf, moved).commit)
    requires forall r | r in v.cut :: r.Of() in g.authors
    ensures forall r | r in w.ended :: r.Of() in g.authors
    ensures K.CutMap(w.ended).Keys <= g.authors.Keys
  {
    UpdateValid(v, leaf, moved);
    R.EndedCut(v, Update(v, leaf, moved).commit);
    forall r | r in w.ended ensures r.Of() in g.authors {
      var i :| 0 <= i < |w.ended| && w.ended[i] == r;
      assert v.cut[i] in v.cut;
    }
  }

  lemma MovesAllowed(v: V.View, kept: Ref, moved: seq<Ref>, next: Ref)
    requires kept in v.cut && next.num == 1
    requires moved == [] || (moved == [next] && kept.num == 0 && next.Of() == kept.Of() && |next.id| == 32)
    ensures V.CutRules(v.cut, moved)
  {}

  lemma MovesOn(v: V.View, kept: Ref, moved: seq<Ref>, next: Ref)
    requires C.ByKey(v.cut) && kept in v.cut
    requires (moved == [] && next == kept) || (moved == [next] && next.key == kept.key)
    ensures next in C.MoveAll(v.cut, moved) && C.ByKey(C.MoveAll(v.cut, moved))
  {
    var i :| 0 <= i < |v.cut| && v.cut[i] == kept;
    C.MoveAllAt(v.cut, moved, i);
    if moved != [] { assert moved[0] in moved; }
    assert C.MoveAll(v.cut, moved)[i] == next;
  }

  /** Where this session starts: just admitted, with nothing held of anyone. */
  lemma Starts(id: nat, b: Key, me: Key, c: Key, settings: V.Settings) returns (v: V.View, g: G)
    requires b != me && b != c && me != c
    ensures v == V.After(Founded(id, b, settings), Admitting(b, me, c).commit) && g == B.Begins(Membership(me, 1), v)
    ensures B.InStep(g, v) && At(g, v, Membership(b, 0), Ref(b, 0, 0, [], 0), c)
    ensures g.me == Membership(me, 1) && g.records == map[] && Membership(b, 0) in g.authors
    ensures Membership(b, 0) in g.current
    ensures forall m | m in g.authors :: g.authors[m] == NewAuthor(0)
    ensures g.keep == map[]
  {
    v := V.After(Founded(id, b, settings), Admitting(b, me, c).commit);
    g := B.Begins(Membership(me, 1), v);
    AdmittingKeeps(id, b, me, c, settings);
    B.BeginsInStep(Membership(me, 1), v);
    var kept, third := Ref(b, 0, 0, [], 0), Ref(c, 1, 0, [], 0);
    AdmittingCut(id, b, me, c, settings, kept);
    AdmittingCut(id, b, me, c, settings, third);
    assert third.key in C.KeysOf(v.cut);
    assert kept.Of() in A.Memberships(v);
    forall m | m in g.authors ensures g.authors[m] == NewAuthor(0) {
      var r :| r in v.cut && r.Of() == m;
      AdmittingCut(id, b, me, c, settings, r);
      B.MapOf(v.cut, r);
    }
  }

  /** A commit of the third member is the one its cut rule builds: it keeps exactly what it holds. */
  ghost predicate Honest(v: V.View, w: V.View, b: Membership, first: Id, c: Key) {
    |w.ended| == |v.cut| && forall i | 0 <= i < |v.cut| ::
      D.KeepsAll(Holding(b, first), v.epoch, c, Another, v.cut[i], w.ended[i])
  }

  /** None of its own messages is held by another. */
  predicate Another(r: Record) {
    true
  }

  lemma KeepsHonestly(id: nat, b: Key, me: Key, c: Key, settings: V.Settings, first: Id, v: V.View, w: V.View)
    requires b != me && b != c && me != c && v == V.After(Founded(id, b, settings), Admitting(b, me, c).commit)
    requires R.Inv(v) && v.epoch == 1 && w.ended == C.MoveAll(v.cut, [Ref(b, 0, 1, first, 1)])
    ensures Honest(v, w, Membership(b, 0), first, c)
  {
    forall r | r in v.cut ensures r.num == 0 && (r.key == b ==> r == Ref(b, 0, 0, [], 0)) {
      AdmittingCut(id, b, me, c, settings, r);
    }
    forall i | 0 <= i < |v.cut|
      ensures D.KeepsAll(Holding(Membership(b, 0), first), 1, c, Another, v.cut[i], w.ended[i])
    {
      HonestCut(v.cut, Membership(b, 0), first, c, Another, i);
    }
  }

  /** A commit that moves no entry, as `kept` is the entry of its membership. */
  ghost predicate Resting(v: V.View, w: V.View, kept: Ref) {
    C.ByKey(v.cut) && kept in v.cut && w.ended == v.cut
  }

  lemma RestsHonestly(v: V.View, w: V.View, b: Membership, kept: Ref, first: Id, c: Key)
    requires Resting(v, w, kept) && kept.Of() == b && kept.num == 1
    ensures Honest(v, w, b, first, c)
  {
    forall i | 0 <= i < |v.cut| ensures !D.KeepsAt(Holding(b, first), v.epoch, c, Another, v.cut[i], v.cut[i].num + 1) {
      if v.cut[i].Of() == b {
        C.FindUnique(v.cut, kept);
        C.FindUnique(v.cut, v.cut[i]);
      }
    }
  }

  /** Every pass leaves the state as it is, with something undelivered. */
  ghost predicate Stuck(g: G) {
    forall env, g' :: Passes(g, true, env, g') ==> g' == g && !NextDelivered(g, g')
  }

  lemma StuckAt(g: G, b: Membership, r: Record)
    requires Shape(g, b, r, 1, {1})
    ensures Ready(g, b) && Stuck(g)
  {
    PassLeaves(g, b, r, Env(0, {}, (m, s) => false), g);
    forall env, g' ensures (Passes(g, true, env, g') ==> g' == g && !NextDelivered(g, g')) {
      PassLeaves(g, b, r, env, g');
    }
  }

  /** The second message opened, just after joining. */
  lemma OpensSecond(step: Relation, g: G, v: V.View, b: Membership, first: Id, second: Id, kept: Ref, c: Key)
      returns (a: B.Act, g': G)
    requires g.me.joined == 1 && g.me != b && b in g.authors && b in g.current && g.records == map[] && g.keep == map[]
    requires Allows(step) && At(g, v, b, kept, c) && forall m | m in g.authors :: g.authors[m] == NewAuthor(0)
    ensures step(g, v, a, g', v) && At(g', v, b, kept, c)
    ensures Shape(g', b, Record(second, Second(b, first), Some(1), 0, false, None), 0, {}) && LackingOf(g', b) == {}
  {
    a, g' := B.Holding(Opening(second, Second(b, first), 1, 0)), Open(g, second, Second(b, first), 1, 0);
    Opens2(g, b, second, first, g');
    assert B.ActStep(g, v, a, g', v, Accepting());
  }

  lemma LacksFirst(g: G, b: Membership, r: Record)
    requires Shape(g, b, r, 1, {}) && KeepOf(g, b) == Span(1, 1)
    ensures LackingOf(g, b) == {1}
  {
    assert Span(1, 1) == {1};
  }

  /** The first message kept, and then lost. */
  lemma Loses(step: Relation, g: G, v: V.View, b: Membership, r: Record, kept: Ref, c: Key)
      returns (a1: B.Act, v1: V.View, g1: G, a2: B.Act, v2: V.View, g2: G)
    requires Allows(step) && At(g, v, b, Ref(b.key, b.joined, 0, [], 0), c) && Shape(g, b, r, 0, {})
    requires LackingOf(g, b) == {}
    requires kept.Of() == b && kept.num == 1 && kept.epoch == 1 && |kept.id| == 32
    ensures step(g, v, a1, g1, v1) && step(g1, v1, a2, g2, v2)
    ensures v1.ended == C.MoveAll(v.cut, [kept]) && Resting(v1, v2, kept) && Shape(g2, b, r, 1, {1})
  {
    a1, v1, g1 := Third(step, g, v, b, r, 0, {}, Ref(b.key, b.joined, 0, [], 0), c, [kept], kept);
    LacksFirst(g1, b, r);
    a2, v2, g2 := Third(step, g1, v1, b, r, 1, {}, kept, c, [], kept);
  }

  /** The three acts, from where this session starts. */
  lemma Acts(step: Relation, g: G, v: V.View, b: Membership, first: Id, second: Id, c: Key)
      returns (gs: seq<G>, vs: seq<V.View>, acts: seq<B.Act>)
    requires Allows(step) && |first| == 32 && At(g, v, b, Ref(b.key, b.joined, 0, [], 0), c)
    requires g.me.joined == 1 && g.me != b && b in g.current && g.records == map[] && g.keep == map[]
    requires forall m | m in g.authors :: g.authors[m] == NewAuthor(0)
    ensures Traced(gs, vs, acts, step) && |acts| == 3
    ensures gs[0] == g && vs[0] == vs[1] == v && vs[2].ended == C.MoveAll(v.cut, [Ref(b.key, b.joined, 1, first, 1)])
    ensures Resting(vs[2], vs[3], Ref(b.key, b.joined, 1, first, 1))
    ensures Shape(gs[3], b, Record(second, Second(b, first), Some(1), 0, false, None), 1, {1})
  {
    var r := Record(second, Second(b, first), Some(1), 0, false, None);
    var a0, g1 := OpensSecond(step, g, v, b, first, second, Ref(b.key, b.joined, 0, [], 0), c);
    var a1, v1, g2, a2, v2, g3 := Loses(step, g1, v, b, r, Ref(b.key, b.joined, 1, first, 1), c);
    gs, vs, acts := [g, g1, g2, g3], [v, v, v1, v2], [a0, a1, a2];
  }

  lemma Leaves(id: nat, b: Key, me: Key, c: Key, settings: V.Settings, first: Id, second: Id)
      returns (gs: seq<G>, vs: seq<V.View>, acts: seq<B.Act>)
    requires b != me && b != c && me != c && |first| == 32
    ensures B.Session(gs, vs, acts, Accepting()) && |acts| == 3
    ensures vs[0] == vs[1] == V.After(Founded(id, b, settings), Admitting(b, me, c).commit)
    ensures gs[0] == B.Begins(Membership(me, 1), vs[0])
    ensures vs[2].ended == C.MoveAll(vs[1].cut, [Ref(b, 0, 1, first, 1)])
    ensures Resting(vs[2], vs[3], Ref(b, 0, 1, first, 1))
    ensures Shape(gs[3], Membership(b, 0), Record(second, Second(Membership(b, 0), first), Some(1), 0, false, None), 1,
      {1})
  {
    var v, g := Starts(id, b, me, c, settings);
    gs, vs, acts := Acts(Acting(), g, v, Membership(b, 0), first, second, c);
    AsSession(gs, vs, acts);
  }

  /**
   A run of a session from the group's founding. Its founder `b` admits this session and a third member, and sends two
   messages; this session opens the second alone, and the third member holds the first alone. The third member's commit
   keeps the first, as its cut rule has it, and its next commit makes this session lose it. The second message is then
   ready, and every later pass of giving up, at whatever time, leaves it.
   */
  lemma LeftReady(id: nat, b: Key, me: Key, c: Key, settings: V.Settings, first: Id, second: Id)
      returns (gs: seq<G>, vs: seq<V.View>, acts: seq<B.Act>)
    requires b != me && b != c && me != c && |first| == 32
    ensures V.Valid(Founded(id, b, settings), Admitting(b, me, c), Accepting())
    ensures B.Session(gs, vs, acts, Accepting()) && |acts| == 3
    ensures vs[0] == V.After(Founded(id, b, settings), Admitting(b, me, c).commit)
    ensures gs[0] == B.Begins(Membership(me, 1), vs[0])
    ensures Honest(vs[1], vs[2], Membership(b, 0), first, c) && Honest(vs[2], vs[3], Membership(b, 0), first, c)
    ensures Ready(gs[3], Membership(b, 0)) && Stuck(gs[3])
  {
    gs, vs, acts := Leaves(id, b, me, c, settings, first, second);
    AdmittingValid(id, b, me, c, settings);
    AdmittingKeeps(id, b, me, c, settings);
    KeepsHonestly(id, b, me, c, settings, first, vs[1], vs[2]);
    RestsHonestly(vs[2], vs[3], Membership(b, 0), Ref(b, 0, 1, first, 1), first, c);
    StuckAt(gs[3], Membership(b, 0), Record(second, Second(Membership(b, 0), first), Some(1), 0, false, None));
  }
}
