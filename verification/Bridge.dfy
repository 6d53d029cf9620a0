/**
 The group's log and the held state together: what the held state takes for granted of a commit is what every valid
 commit gives it.
 */
module Bridge {
  import opened Refs
  import C = Cuts
  import G = Groups
  import R = GroupRuns
  import A = Authority
  import H = Held
  import S = Steps
  import N = Runs
  import K = Keeper
  import O = Causal
  import B = Baselines

  /** The held state is of this epoch of the group, and each membership's author at its cut. */
  ghost predicate Matches(g: H.G, v: G.View) {
    && g.epoch == v.epoch
    && g.current == A.Memberships(v)
    && forall r | r in v.cut :: r.Of() in g.authors && g.authors[r.Of()].cut == r.num
  }

  lemma {:induction false} MapOf(cut: seq<Ref>, r: Ref)
    requires C.ByKey(cut) && r in cut
    ensures r.Of() in K.CutMap(cut) && K.CutMap(cut)[r.Of()] == r
    decreases |cut|
  {
    var n := |cut| - 1;
    var last := cut[n];
    if r != last {
      var i :| 0 <= i < |cut| && cut[i] == r;
      assert cut[..n][i] == r;
      MapOf(cut[..n], r);
      assert r.Of() != last.Of();
    }
  }

  lemma DistinctByKey(cut: seq<Ref>)
    requires C.ByKey(cut)
    ensures K.Distinct(cut)
  {
    forall i, j | 0 <= i < j < |cut| ensures cut[i].Of() != cut[j].Of() { assert cut[i].key < cut[j].key; }
  }

  /** A commit the group takes is one the held state can: its cut names each current membership at no less than its last
      cut, and what it begins is of the epoch it begins. */
  lemma ValidIsCommittable(g: H.G, v: G.View, c: G.Commit)
    requires R.Inv(v) && G.MlsValid(v, c) && G.Rules(v, c) && Matches(g, v)
    ensures N.Committable(g, K.CutMap(G.After(v, c).ended), A.Memberships(G.After(v, c)))
  {
    var w := G.After(v, c);
    R.EndedCut(v, c);
    CutCovers(g, v, w.ended);
    forall x | x in A.Memberships(w) && x !in g.current ensures x.joined == g.epoch + 1 { BeginsNow(v, c, x); }
  }

  lemma CutCovers(g: H.G, v: G.View, ended: seq<Ref>)
    requires Matches(g, v) && C.ByKey(v.cut) && C.ByKey(ended) && |v.cut| == |ended|
    requires forall i | 0 <= i < |ended| :: ended[i].Of() == v.cut[i].Of() && v.cut[i].num <= ended[i].num
    ensures K.CutMap(ended).Keys == g.current
    ensures forall x | x in K.CutMap(ended) :: x in g.authors && K.CutMap(ended)[x].num >= g.authors[x].cut
  {
    forall x ensures x in K.CutMap(ended) <==> x in g.current { NamedAlike(v.cut, ended, x); }
    forall x | x in K.CutMap(ended) ensures x in g.authors && K.CutMap(ended)[x].num >= g.authors[x].cut {
      NamedAlike(v.cut, ended, x);
    }
  }

  lemma BeginsNow(v: G.View, c: G.Commit, x: Membership)
    requires R.Inv(v) && G.MlsValid(v, c) && G.Rules(v, c) && x in A.Memberships(G.After(v, c))
    requires x !in A.Memberships(v)
    ensures x.joined == v.epoch + 1
  {
    A.OneCommit(v, c, x);
  }

  /** A cut that moved on names the memberships it did, each at least as far. */
  lemma NamedAlike(was: seq<Ref>, now: seq<Ref>, x: Membership)
    requires C.ByKey(was) && C.ByKey(now) && |was| == |now|
    requires forall i | 0 <= i < |now| :: now[i].Of() == was[i].Of() && was[i].num <= now[i].num
    ensures x in K.CutMap(now) <==> exists r :: r in was && r.Of() == x
    ensures forall r | r in was && r.Of() == x :: x in K.CutMap(now) && K.CutMap(now)[x].num >= r.num
  {
    if x in K.CutMap(now) {
      var r :| r in now && r.Of() == x;
      var i :| 0 <= i < |now| && now[i] == r;
      assert was[i] in was && was[i].Of() == x;
    }
    forall r | r in was && r.Of() == x ensures x in K.CutMap(now) && K.CutMap(now)[x].num >= r.num {
      var i :| 0 <= i < |was| && was[i] == r;
      MapOf(now, now[i]);
    }
  }

  lemma NotYet(g: H.G)
    requires N.Inv(g)
    ensures forall k | k in g.authors :: k.joined <= g.epoch
  {
    forall k | k in g.authors ensures k.joined <= g.epoch { assert N.Fit(g, k); }
  }

  /** A commit moves the two together. */
  lemma MovesTogether(g: H.G, v: G.View, c: G.Commit)
    requires R.Inv(v) && G.MlsValid(v, c) && G.Rules(v, c) && Matches(g, v) && N.Inv(g)
    ensures Matches(S.Cuts(S.Lose(g), K.CutMap(G.After(v, c).ended), A.Memberships(G.After(v, c))), G.After(v, c))
  {
    var w := G.After(v, c);
    var g' := S.Cuts(S.Lose(g), K.CutMap(w.ended), A.Memberships(w));
    forall r | r in w.cut ensures EntryAt(g', r) { EntryMoves(g, v, c, r); }
    MatchesAll(g', w);
  }

  /** The author of an entry's membership is at its cut. */
  ghost predicate EntryAt(g: H.G, r: Ref) {
    r.Of() in g.authors && g.authors[r.Of()].cut == r.num
  }

  lemma MatchesAll(g: H.G, v: G.View)
    requires g.epoch == v.epoch && g.current == A.Memberships(v) && forall r | r in v.cut :: EntryAt(g, r)
    ensures Matches(g, v)
  {}

  lemma EntryMoves(g: H.G, v: G.View, c: G.Commit, r: Ref)
    requires R.Inv(v) && G.MlsValid(v, c) && G.Rules(v, c) && Matches(g, v) && N.Inv(g) && r in G.After(v, c).cut
    ensures EntryAt(S.Cuts(S.Lose(g), K.CutMap(G.After(v, c).ended), A.Memberships(G.After(v, c))), r)
  {
    var w := G.After(v, c);
    assert R.Continues(w, c, r) by { R.AfterCut(v, c); }
    assert C.ByKey(w.ended) by { R.EndedCut(v, c); }
    assert r.Of() in A.Memberships(w);
    ValidIsCommittable(g, v, c);
    if r in w.ended {
      MapOf(w.ended, r);
      EntryStays(g, K.CutMap(w.ended), A.Memberships(w), r);
    } else {
      NotYet(g);
      EntryBegins(g, K.CutMap(w.ended), A.Memberships(w), r);
    }
  }

  lemma EntryStays(g: H.G, cut: map<Membership, Ref>, state: set<Membership>, r: Ref)
    requires N.Committable(g, cut, state) && r.Of() in cut && cut[r.Of()] == r
    ensures var g' := S.Cuts(S.Lose(g), cut, state); r.Of() in g'.authors && g'.authors[r.Of()].cut == r.num
  {
    N.CommitOne(g, cut, state, r.Of());
  }

  lemma EntryBegins(g: H.G, cut: map<Membership, Ref>, state: set<Membership>, r: Ref)
    requires N.Committable(g, cut, state) && r.Of() in state && r.Of() !in g.authors && r.num == 0
    ensures var g' := S.Cuts(S.Lose(g), cut, state); r.Of() in g'.authors && g'.authors[r.Of()].cut == r.num
  {
    N.CommitNew(g, cut, state, r.Of());
  }

  // ---------------------------------------------------------------- the start

  /** Where a session starts: at the view it joined with, every membership at its cut. */
  function Begins(me: Membership, v: G.View): H.G {
    N.Joined(me, v.epoch, map x | x in K.CutMap(v.cut) :: K.CutMap(v.cut)[x].num)
  }

  lemma BeginsInStep(me: Membership, v: G.View)
    requires R.Inv(v)
    ensures N.Inv(Begins(me, v)) && Matches(Begins(me, v), v)
  {
    var nums := map x | x in K.CutMap(v.cut) :: K.CutMap(v.cut)[x].num;
    forall x | x in nums ensures x.joined <= v.epoch {
      var r :| r in v.cut && r.Of() == x;
    }
    N.JoinedInv(me, v.epoch, nums);
    forall r | r in v.cut ensures r.Of() in nums && nums[r.Of()] == r.num { MapOf(v.cut, r); }
    assert nums.Keys == A.Memberships(v);
  }

  /** What it starts with: nothing held, and of each membership nothing to wait for up to where the view's cut has it.
      */
  lemma BeginsExact(me: Membership, v: G.View, m: Membership)
    requires R.Inv(v)
    ensures var g := Begins(me, v);
      && (g.me, g.epoch, g.current, g.records, g.index, g.keep, g.told)
        == (me, v.epoch, A.Memberships(v), map[], 0, map[], {})
      && (m in g.authors <==> exists r :: r in v.cut && r.Of() == m)
      && forall r | r in v.cut && r.Of() == m ::
           g.authors[m] == H.Author(r.num, r.num, false, r.num, {}, {}, {}, {}, {})
  {
    BeginsInStep(me, v);
    forall r | r in v.cut ensures r.Of() in K.CutMap(v.cut) && K.CutMap(v.cut)[r.Of()] == r { MapOf(v.cut, r); }
  }

  // ---------------------------------------------------------------- every other step

  /** A step that is no commit leaves the epoch, the memberships and their cuts, and no current membership goes. */
  ghost predicate CutsStay(g: H.G, g': H.G) {
    && g'.epoch == g.epoch && g'.current == g.current
    && forall m | m in g.current && m in g.authors :: m in g'.authors && g'.authors[m].cut == g.authors[m].cut
  }

  lemma OtherSteps(g: H.G, l: N.Label, g': H.G)
    requires N.Inv(g) && N.Step(g, l, g') && !l.Committing?
    ensures CutsStay(g, g')
  {
    forall m | m in g.current && m in g.authors ensures m in g'.authors && g'.authors[m].cut == g.authors[m].cut {
      OtherStep(g, l, g', m);
    }
  }

  lemma OtherStep(g: H.G, l: N.Label, g': H.G, m: Membership)
    requires N.Step(g, l, g') && !l.Committing? && m in g.current && m in g.authors && N.Fit(g, m)
    ensures m in g'.authors && g'.authors[m].cut == g.authors[m].cut
  {
    match l
    case Delivering1(n) => H.SameRule(g, g', n, g.authors[n].Next(), m);
    case Sending(r) => SendStays(g, r, m);
    case Opening(id, h, sealed, now) =>
    case GivingUp1(given, freed) =>
    case Unopenable(n, t) =>
    case Telling =>
    case Expiring(gone, drop) =>
  }

  lemma SendStays(g: H.G, r: H.Record, m: Membership)
    requires S.Sendable(g, r) && m in g.authors
    ensures m in S.Send(g, r).authors && S.Send(g, r).authors[m].cut == g.authors[m].cut
  {}

  // ---------------------------------------------------------------- whole runs

  /** What happens to a session: a step of its held state, or a commit read from the group's log. */
  datatype Act = Holding(own: N.Label) | Reading(entry: G.Entry)

  ghost predicate ActStep(g: H.G, v: G.View, a: Act, g': H.G, v': G.View, crypto: (G.View, G.Commit) -> bool) {
    match a
    case Holding(l) => !l.Committing? && N.Step(g, l, g') && v' == v
    case Reading(e) =>
      G.Valid(v, e, crypto) && v' == G.After(v, e.commit)
        && g' == S.Cuts(S.Lose(g), K.CutMap(v'.ended), A.Memberships(v'))
  }

  /** The held state's step of an act. */
  function StepOf(v: G.View, a: Act): N.Label {
    match a
    case Holding(l) => l
    case Reading(e) => N.Committing(K.CutMap(G.After(v, e.commit).ended), A.Memberships(G.After(v, e.commit)))
  }

  ghost predicate InStep(g: H.G, v: G.View) {
    N.Inv(g) && R.Inv(v) && Matches(g, v)
  }

  lemma ActKeeps(g: H.G, v: G.View, a: Act, g': H.G, v': G.View, crypto: (G.View, G.Commit) -> bool)
    requires InStep(g, v) && ActStep(g, v, a, g', v', crypto)
    ensures InStep(g', v') && N.Step(g, StepOf(v, a), g')
  {
    match a
    case Holding(l) =>
      OtherSteps(g, l, g');
      N.StepKeeps(g, l, g');
    case Reading(e) => ReadingKeeps(g, v, e.commit);
  }

  lemma ReadingKeeps(g: H.G, v: G.View, c: G.Commit)
    requires InStep(g, v) && G.MlsValid(v, c) && G.Rules(v, c)
    ensures var w := G.After(v, c);
      InStep(S.Cuts(S.Lose(g), K.CutMap(w.ended), A.Memberships(w)), w)
        && N.Committable(g, K.CutMap(w.ended), A.Memberships(w))
  {
    var w := G.After(v, c);
    ValidIsCommittable(g, v, c);
    MovesTogether(g, v, c);
    N.CommitKeeps(g, K.CutMap(w.ended), A.Memberships(w));
    R.AfterKeeps(v, c);
  }

  /** A run of a session in a group: it starts in step, and nothing is asked of a commit but that the group takes it. */
  ghost predicate Session(gs: seq<H.G>, vs: seq<G.View>, acts: seq<Act>, crypto: (G.View, G.Commit) -> bool) {
    && |gs| == |vs| == |acts| + 1
    && InStep(gs[0], vs[0])
    && forall i | 0 <= i < |acts| :: ActAt(gs, vs, acts, crypto, i)
  }

  ghost predicate ActAt(gs: seq<H.G>, vs: seq<G.View>, acts: seq<Act>, crypto: (G.View, G.Commit) -> bool, i: nat)
    requires i < |acts| && |gs| == |vs| == |acts| + 1
  {
    ActStep(gs[i], vs[i], acts[i], gs[i + 1], vs[i + 1], crypto)
  }

  /** In every state of every such run the held state and the group are in step. */
  lemma {:induction false} StaysInStep(gs: seq<H.G>, vs: seq<G.View>, acts: seq<Act>, crypto: (G.View,
      G.Commit) -> bool, i: nat)
    requires Session(gs, vs, acts, crypto) && i < |gs|
    ensures InStep(gs[i], vs[i])
  {
    if i > 0 {
      StaysInStep(gs, vs, acts, crypto, i - 1);
      AtKeeps(gs, vs, acts, crypto, i - 1);
    }
  }

  lemma AtKeeps(gs: seq<H.G>, vs: seq<G.View>, acts: seq<Act>, crypto: (G.View, G.Commit) -> bool, i: nat)
    requires Session(gs, vs, acts, crypto) && i < |acts| && InStep(gs[i], vs[i])
    ensures InStep(gs[i + 1], vs[i + 1]) && N.Step(gs[i], StepOf(vs[i], acts[i]), gs[i + 1])
  {
    assert ActAt(gs, vs, acts, crypto, i);
    ActKeeps(gs[i], vs[i], acts[i], gs[i + 1], vs[i + 1], crypto);
  }

  function StepsOf(vs: seq<G.View>, acts: seq<Act>): (ls: seq<N.Label>)
    requires |vs| == |acts| + 1
    ensures |ls| == |acts| && forall i | 0 <= i < |acts| :: ls[i] == StepOf(vs[i], acts[i])
  {
    seq(|acts|, i requires 0 <= i < |acts| => StepOf(vs[i], acts[i]))
  }

  /** So a run of a session is a run of its held state, and all that holds of those holds of it. */
  lemma SessionRuns(gs: seq<H.G>, vs: seq<G.View>, acts: seq<Act>, crypto: (G.View, G.Commit) -> bool)
    requires Session(gs, vs, acts, crypto)
    ensures N.Run(gs, StepsOf(vs, acts))
  {
    var ls := StepsOf(vs, acts);
    forall i | 0 <= i < |ls| ensures N.StepAt(gs, ls, i) {
      StaysInStep(gs, vs, acts, crypto, i);
      AtKeeps(gs, vs, acts, crypto, i);
    }
  }

  /** In every state of a session every message the group's cut keeps is from before this session's time, as a header or
      an entry read by then says, or held, lost, or to be held before the next commit. */
  lemma KeptOfGroup(gs: seq<H.G>, vs: seq<G.View>, acts: seq<Act>, crypto: (G.View, G.Commit) -> bool, i: nat, r: Ref,
      s: nat)
    requires Session(gs, vs, acts, crypto) && i < |gs| && r in vs[i].cut && s <= r.num
    ensures r.Of() in gs[i].authors
    ensures var a := gs[i].authors[r.Of()];
      || s == 0
      || (s <= a.baseline && B.Early(gs, StepsOf(vs, acts), i, r.Of(), s))
      || s in a.held || s in a.lost || s in N.KeepOf(gs[i], r.Of())
  {
    StaysInStep(gs, vs, acts, crypto, i);
    SessionRuns(gs, vs, acts, crypto);
    if s > 0 { B.KeptOrEarly(gs, StepsOf(vs, acts), i, r.Of(), s); }
  }

  /** A valid commit whose cut entry for a membership was sent since this session joined and newly keeps a seq. */
  ghost predicate KeepsSince(g: H.G, v: G.View, a: Act, r: Ref, s: nat) {
    && a.Reading? && r in G.After(v, a.entry.commit).ended && g.me.joined <= r.epoch
    && r.Of() in g.authors && Max(g.authors[r.Of()].cut, g.authors[r.Of()].baseline) < s <= r.num
  }

  /** That seq is held, lost, or to be held before the next commit in every later state that knows the membership. */
  lemma KeptSinceJoining(gs: seq<H.G>, vs: seq<G.View>, acts: seq<Act>, crypto: (G.View, G.Commit) -> bool, n: nat,
      i: nat, r: Ref, s: nat)
    requires Session(gs, vs, acts, crypto) && n < i < |gs| && KeepsSince(gs[n], vs[n], acts[n], r, s)
    requires r.Of() in gs[i].authors
    ensures var a := gs[i].authors[r.Of()]; s in a.held || s in a.lost || s in N.KeepOf(gs[i], r.Of())
  {
    SessionRuns(gs, vs, acts, crypto);
    StaysInStep(gs, vs, acts, crypto, n);
    assert ActAt(gs, vs, acts, crypto, n);
    R.EndedCut(vs[n], acts[n].entry.commit);
    MapOf(G.After(vs[n], acts[n].entry.commit).ended, r);
    B.KeptForGood(gs, StepsOf(vs, acts), n, i, r.Of(), s);
  }

  /** Causal order in every run of a session. */
  lemma SessionCausal(gs: seq<H.G>, vs: seq<G.View>, acts: seq<Act>, crypto: (G.View, G.Commit) -> bool,
      i: nat, m: Membership, s: nat, j: nat, k: Membership, t: nat)
    requires Session(gs, vs, acts, crypto) && i < j < |acts|
    requires O.DeliversAt(gs, StepsOf(vs, acts), i, m, s) && O.DeliversAt(gs, StepsOf(vs, acts), j, k, t)
    requires (m, s) in gs[i + 1].records && H.Requires(gs[i + 1].records[(m, s)].header, k, t)
    ensures (k, t) in gs[j + 1].records && gs[j + 1].records[(k, t)].delivery.Some?
    ensures || k !in gs[i].authors
            || (t in gs[i].authors[k].givenUp && gs[j + 1].records[(k, t)].delivery.value.late)
            || t in gs[i].authors[k].lost
            || (t <= gs[i].authors[k].baseline && B.Early(gs, StepsOf(vs, acts), i, k, t))
            || (gs[i + 1].records[(m, s)].released && gs[i].authors[k].Evidence() < t)
  {
    SessionRuns(gs, vs, acts, crypto);
    O.CausalOrder(gs, StepsOf(vs, acts), i, m, s, j, k, t);
  }

  // ---------------------------------------------------------------- in place

  function Names(cut: seq<Ref>): (ms: seq<Membership>)
    ensures forall m :: m in ms <==> exists r :: r in cut && r.Of() == m
  {
    if cut == [] then [] else
      assert forall r :: r in cut <==> r == cut[0] || r in cut[1..];
      [cut[0].Of()] + Names(cut[1..])
  }

  /** The held state after a valid commit is in step with the group after it, by one step. */
  ghost predicate Follows(g: H.G, g': H.G, w: G.View) {
    InStep(g', w) && N.Step(g, N.Committing(K.CutMap(w.ended), A.Memberships(w)), g')
  }

  lemma CommitFollows(g: H.G, v: G.View, c: G.Commit)
    requires InStep(g, v) && G.MlsValid(v, c) && G.Rules(v, c)
    ensures var w := G.After(v, c); Follows(g, S.Cuts(S.Lose(g), K.CutMap(w.ended), A.Memberships(w)), w)
  {
    ReadingKeeps(g, v, c);
  }

  lemma EndedDistinct(v: G.View, c: G.Commit)
    requires R.Inv(v) && G.Rules(v, c)
    ensures K.Distinct(G.After(v, c).ended)
  {
    R.EndedCut(v, c);
    DistinctByKey(G.After(v, c).ended);
  }

  lemma NamesAll(w: G.View)
    ensures A.Memberships(w) == set m | m in Names(w.cut)
  {}

  /** A valid commit may be applied to the held state in place, and takes it in step with the group. */
  method ApplyCommit(k: K.Group, v: G.View, c: G.Commit) returns (w: G.View)
    requires k.Valid() && InStep(k.View(), v) && G.MlsValid(v, c) && G.Rules(v, c)
    modifies k
    ensures w == G.After(v, c) && k.Valid() && Follows(old(k.View()), k.View(), w)
  {
    w := G.After(v, c);
    var state := Names(w.cut);
    CommitFollows(k.View(), v, c);
    EndedDistinct(v, c);
    NamesAll(w);
    k.Apply(w.ended, state);
  }
}
