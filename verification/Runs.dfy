/**
 Every run of a group's held state: `resolved` only grows, causal order holds but where it was given up for, and no kept
 message is skipped silently.
 */
module Runs {
  import opened Refs
  import opened Held
  import opened GivingUp
  import opened Steps

  datatype Label =
    | Opening(id: Id, header: Header, sealed: nat, now: nat)
    | Delivering1(of: Membership)
    | GivingUp1(given: set<(Membership, nat)>, freed: set<(Membership, nat)>)
    | Unopenable(of: Membership, num: nat)
    | Committing(cut: map<Membership, Ref>, state: set<Membership>)
    | Sending(record: Record)
    | Telling
    | Expiring(gone: set<(Membership, nat)>, drop: set<Membership>)

  /** What the group's log guarantees of a commit: its cut names each current membership once, at no less than its last
      cut, and the memberships it begins are of the epoch it begins. */
  ghost predicate Committable(g: G, cut: map<Membership, Ref>, state: set<Membership>) {
    && cut.Keys == g.current
    && (forall m | m in cut :: m in g.authors && cut[m].num >= g.authors[m].cut)
    && forall m | m in state && m !in g.current :: m.joined == g.epoch + 1
  }

  ghost predicate Step(g: G, l: Label, g': G) {
    match l
    case Opening(id, h, sealed, now) => Opens(g, h) && g' == Open(g, id, h, sealed, now)
    case Delivering1(m) => Ready(g, m) && g' == DeliverNext(g, m)
    case GivingUp1(given, freed) => g' == Marked(g, given, freed)
    case Unopenable(m, s) => g' == Unheld(g, m, s)
    case Committing(cut, state) => Committable(g, cut, state) && g' == Cuts(Lose(g), cut, state)
    case Sending(r) => Sendable(g, r) && g' == Send(g, r)
    case Telling => g' == g.(told := {})
    case Expiring(gone, drop) => Expirable(g, gone, drop) && g' == Expire(g, gone, drop)
  }

  // ---------------------------------------------------------------- what every step keeps

  /** An author later: nothing resolved is unresolved again. */
  ghost predicate Grown(a: Author, b: Author) {
    && a.baseline <= b.baseline
    && a.delivered <= b.delivered
    && a.givenUp <= b.givenUp
    && a.lost <= b.lost
    && a.reported <= b.reported
    && (a.ended ==> b.ended && b.cut == a.cut)
  }

  /** Every membership kept has grown, and those new to the session are of the epoch it moved to. */
  ghost predicate Advances(g: G, g': G) {
    && g'.me == g.me
    && g.epoch <= g'.epoch
    && (forall m | m in g.authors && m in g'.authors :: Grown(g.authors[m], g'.authors[m]))
    && forall m | m in g'.authors && m !in g.authors :: m.joined == g'.epoch == g.epoch + 1
  }

  /** An author in order: what it delivered it holds, with everything before it resolved; and once ended it holds
      nothing past its final cut that could still be delivered. */
  ghost predicate Orderly(a: Author) {
    && a.delivered <= a.held
    && 0 !in a.held
    && (a.ended ==> forall s | s in a.Pending() :: s <= a.cut)
    && forall s | s in a.delivered :: a.Below(s)
  }

  /** Each seq above the baseline and up to the cut is held, lost, or to be held before the next commit. */
  ghost predicate Accounted(a: Author, keep: set<nat>) {
    forall s: nat | a.baseline < s <= a.cut :: s in a.held || s in a.lost || s in keep
  }

  function KeepOf(g: G, m: Membership): set<nat> {
    if m in g.keep then g.keep[m] else {}
  }

  /** A membership as it is in every state: what it holds has its records, it is not ended just when the group's MLS
      state names it, and this session's own messages are delivered as they are sent. */
  ghost predicate Fit(g: G, m: Membership)
    requires m in g.authors
  {
    Fitting(g, m) && (m == g.me ==> g.authors[m].Pending() == {})
  }

  ghost predicate Fitting(g: G, m: Membership)
    requires m in g.authors
  {
    var a := g.authors[m];
    && Orderly(a)
    && Accounted(a, KeepOf(g, m))
    && (forall s | s in a.Pending() :: Kept(g, m, s))
    && m.joined <= g.epoch
    && (a.ended <==> m !in g.current)
  }

  ghost predicate Inv(g: G) {
    g.current <= g.authors.Keys && forall m | m in g.authors :: Fit(g, m)
  }

  lemma InvSound(g: G)
    requires Inv(g)
    ensures Sound(g)
  {
    forall m | m in g.authors
      ensures g.authors[m].delivered <= g.authors[m].held && 0 !in g.authors[m].held
      ensures forall s | s in g.authors[m].Pending() :: Kept(g, m, s)
    {
      assert Fit(g, m);
    }
  }

  lemma GrownResolved(a: Author, b: Author, s: nat)
    requires Grown(a, b) && a.Resolved(s)
    ensures b.Resolved(s)
  {
  }

  lemma GrownBelow(a: Author, b: Author, s: nat)
    requires Grown(a, b) && a.Below(s)
    ensures b.Below(s)
  {
    forall t: nat | 1 <= t < s ensures b.Resolved(t) { GrownResolved(a, b, t); }
  }

  /** The first state of a session: baselines and cuts equal, and no message of any membership. */
  function Joined(me: Membership, epoch: nat, cut: map<Membership, nat>): G {
    G(me, epoch, cut.Keys, map m | m in cut :: NewAuthor(cut[m]), map[], 0, map[], {})
  }

  lemma JoinedInv(me: Membership, epoch: nat, cut: map<Membership, nat>)
    requires forall m | m in cut :: m.joined <= epoch
    ensures Inv(Joined(me, epoch, cut))
  {
  }

  /** An author in order stays so as it grows and nothing more is delivered. */
  lemma StaysOrderly(a: Author, b: Author)
    requires Orderly(a) && Grown(a, b) && a.delivered == b.delivered
    requires b.delivered <= b.held && 0 !in b.held
    requires b.ended ==> forall s | s in b.Pending() :: s <= b.cut
    ensures Orderly(b)
  {
    forall s | s in b.delivered ensures b.Below(s) { GrownBelow(a, b, s); }
  }

  /** A record still there, with its header. */
  ghost predicate StaysKept(g: G, g': G, m: Membership, s: nat) {
    (m, s) in g'.records && (Kept(g, m, s) ==> g'.records[(m, s)].header == g.records[(m, s)].header)
  }

  /** A membership stays fit through a step that delivers nothing, if what it newly holds has its record. */
  lemma StaysFit(g: G, g': G, m: Membership)
    requires m in g.authors && m in g'.authors && Fit(g, m)
    requires Grown(g.authors[m], g'.authors[m])
    requires g.authors[m].delivered == g'.authors[m].delivered <= g'.authors[m].held
    requires 0 !in g'.authors[m].held
    requires g'.authors[m].ended ==> forall s | s in g'.authors[m].Pending() :: s <= g'.authors[m].cut
    requires forall s | s in g'.authors[m].Pending() ::
      if s in g.authors[m].held then StaysKept(g, g', m, s) else m != g.me && Kept(g', m, s)
    requires g'.me == g.me && g.epoch <= g'.epoch && (g'.authors[m].ended <==> m !in g'.current)
    requires Accounted(g'.authors[m], KeepOf(g', m))
    ensures Fit(g', m)
  {
    StaysOrderly(g.authors[m], g'.authors[m]);
    forall s | s in g'.authors[m].Pending() ensures Kept(g', m, s) && m != g.me {
      if s in g.authors[m].held {
        assert s in g.authors[m].Pending();
        assert Kept(g, m, s);
      }
    }
  }

  lemma OpenKeeps(g: G, id: Id, h: Header, sealed: nat, now: nat)
    requires Inv(g) && Opens(g, h)
    ensures Advances(g, Open(g, id, h, sealed, now)) && Inv(Open(g, id, h, sealed, now))
  {
    var g' := Open(g, id, h, sealed, now);
    assert g'.authors.Keys == g.authors.Keys;
    forall m | m in g.authors ensures Grown(g.authors[m], g'.authors[m]) && Fit(g', m) {
      OpenKeepsOne(g, g', h, m);
    }
  }

  lemma OpenKeepsOne(g: G, g': G, h: Header, m: Membership)
    requires m in g.authors && Fit(g, m) && Opens(g, h) && Opened(g, g', h)
    ensures Grown(g.authors[m], g'.authors[m]) && Fit(g', m)
  {
    var a, b := g.authors[m], g'.authors[m];
    forall s | s in b.Pending()
      ensures if s in a.held then StaysKept(g, g', m, s) else m != g.me && Kept(g', m, s)
      ensures b.ended ==> s <= b.cut
    {
      if s in a.held { assert s in a.Pending() && Kept(g, m, s); }
    }
    StaysFit(g, g', m);
  }

  lemma MarkKeeps(g: G, given: set<(Membership, nat)>, freed: set<(Membership, nat)>)
    requires Inv(g)
    ensures Advances(g, Marked(g, given, freed)) && Inv(Marked(g, given, freed))
  {
    var g' := Marked(g, given, freed);
    forall m | m in g.authors ensures m in g'.authors && Grown(g.authors[m], g'.authors[m]) && Fit(g', m) {
      assert Fit(g, m);
      assert g'.authors[m].Pending() == g.authors[m].Pending();
      assert forall s | s in g.authors[m].Pending() :: Kept(g, m, s);
      StaysFit(g, g', m);
    }
  }

  lemma UnheldKeeps(g: G, m: Membership, s: nat)
    requires Inv(g)
    ensures Advances(g, Unheld(g, m, s)) && Inv(Unheld(g, m, s))
  {
    var g' := Unheld(g, m, s);
    assert g'.authors.Keys == g.authors.Keys;
    forall k | k in g.authors ensures Grown(g.authors[k], g'.authors[k]) && Fit(g', k) {
      assert Fit(g, k);
      UnheldKeepsOne(g, m, s, k);
    }
  }

  lemma UnheldKeepsOne(g: G, m: Membership, s: nat, k: Membership)
    requires k in g.authors && Fit(g, k)
    ensures Grown(g.authors[k], Unheld(g, m, s).authors[k]) && Fit(Unheld(g, m, s), k)
  {
    var g' := Unheld(g, m, s);
    assert g'.authors[k].Pending() == g.authors[k].Pending();
    assert forall t | t in g.authors[k].Pending() :: Kept(g, k, t);
    StaysFit(g, g', k);
  }

  lemma ExpireKeeps(g: G, gone: set<(Membership, nat)>, drop: set<Membership>)
    requires Inv(g) && Expirable(g, gone, drop)
    ensures Advances(g, Expire(g, gone, drop)) && Inv(Expire(g, gone, drop))
  {
    var g' := Expire(g, gone, drop);
    forall m | m in g'.authors ensures Fit(g', m) {
      assert Fit(g, m);
      assert g'.authors[m].Pending() == g.authors[m].Pending();
      assert forall s | s in g.authors[m].Pending() :: Kept(g, m, s);
      StaysFit(g, g', m);
    }
    forall m | m in g.current ensures m in g'.authors { assert Fit(g, m); }
  }

  /** A membership through a delivery of a held message whose earlier seqs are resolved. */
  lemma DeliverFit(g: G, g': G, m: Membership, s: nat, k: Membership)
    requires m in g.authors && (m, s) in g.records && Delivers(g, g', m, s)
    requires s in g.authors[m].held && g.authors[m].Below(s)
    requires k in g.authors && Fitting(g, k) && (k == g.me ==> g.authors[k].Pending() <= if m == k then {s} else {})
    ensures k in g'.authors && Grown(g.authors[k], g'.authors[k]) && Fit(g', k)
  {
    SameRule(g, g', m, s, k);
    var a, b := g.authors[k], g'.authors[k];
    assert b.delivered == if k == m then a.delivered + {s} else a.delivered;
    forall t | t in b.delivered ensures b.Below(t) { GrownBelow(a, b, t); }
    forall t | t in b.Pending() ensures Kept(g', k, t) && (b.ended ==> t <= b.cut) {
      assert t in a.Pending();
      assert Kept(g, k, t);
    }
  }

  lemma DeliverKeeps(g: G, m: Membership)
    requires Inv(g) && Ready(g, m)
    ensures Advances(g, DeliverNext(g, m)) && Inv(DeliverNext(g, m))
  {
    var s, g' := g.authors[m].Next(), DeliverNext(g, m);
    forall k | k in g.authors ensures k in g'.authors && Grown(g.authors[k], g'.authors[k]) && Fit(g', k) {
      assert Fit(g, k);
      DeliverFit(g, g', m, s, k);
    }
    assert g'.authors.Keys == g.authors.Keys;
  }

  lemma SendKeeps(g: G, r: Record)
    requires Inv(g) && Sendable(g, r)
    ensures Advances(g, Send(g, r)) && Inv(Send(g, r))
  {
    var a, s := g.authors[g.me], r.header.num;
    var kept := g.(authors := g.authors[g.me := a.(held := a.held + {s}, known := Max(a.known, s))],
      records := g.records[(g.me, s) := r]);
    var g' := Send(g, r);
    OwnBelow(g);
    assert kept.authors[g.me].Below(s) by { GrownBelow(a, kept.authors[g.me], s); }
    forall k | k in g.authors ensures k in g'.authors && Grown(g.authors[k], g'.authors[k]) && Fit(g', k) {
      assert Fit(g, k);
      SendFitting(g, r, kept, k);
      DeliverFit(kept, g', g.me, s, k);
    }
    assert g'.authors.Keys == g.authors.Keys;
  }

  /** Everything before this session's next seq is resolved. */
  lemma OwnBelow(g: G)
    requires g.me in g.authors && Fit(g, g.me)
    ensures g.authors[g.me].Below(g.authors[g.me].Last() + 1)
    ensures g.authors[g.me].Last() + 1 !in g.authors[g.me].held
  {
    var a := g.authors[g.me];
    if a.held != {} {
      assert a.Last() in a.held;
      assert a.Last() !in a.Pending();
      assert a.Below(a.Last());
    }
  }

  lemma SendFitting(g: G, r: Record, kept: G, k: Membership)
    requires k in g.authors && Fit(g, k) && Sendable(g, r)
    requires var a, s := g.authors[g.me], r.header.num;
      kept == g.(authors := g.authors[g.me := a.(held := a.held + {s}, known := Max(a.known, s))],
        records := g.records[(g.me, s) := r])
    ensures Fitting(kept, k) && Grown(g.authors[k], kept.authors[k])
    ensures kept.authors[k].Pending() <= if k == g.me then {r.header.num} else g.authors[k].Pending()
  {
    var a, b := g.authors[k], kept.authors[k];
    forall t | t in b.Pending() ensures Kept(kept, k, t) && (k == g.me ==> t == r.header.num) {
      if t in a.held { assert t in a.Pending(); assert Kept(g, k, t); }
    }
    assert Fit(g, k);
    StaysOrderly(a, b);
  }

  /** What a commit does to one membership's author: losses settled, its cut moved, and ended if it is named no more. */
  function Committed(g: G, cut: map<Membership, Ref>, state: set<Membership>, m: Membership): Author
    requires m in g.authors
  {
    var lost := g.authors[m].(lost := g.authors[m].lost + LackingOf(g, m));
    var moved := if m in cut then CutOne(lost, cut[m], g.me.joined) else lost;
    if !moved.ended && m !in state then End(moved) else moved
  }

  lemma CommitAuthors(g: G, cut: map<Membership, Ref>, state: set<Membership>)
    ensures Cuts(Lose(g), cut, state).authors.Keys == g.authors.Keys + cut.Keys + state
    ensures forall m | m in g.authors :: Cuts(Lose(g), cut, state).authors[m] == Committed(g, cut, state, m)
    ensures forall m | m in state && m !in g.authors && m !in cut ::
      Cuts(Lose(g), cut, state).authors[m] == NewAuthor(0)
  {
    CommitKeys(g, cut, state);
    var g' := Cuts(Lose(g), cut, state);
    forall m | m in g.authors ensures g'.authors[m] == Committed(g, cut, state, m) { CommitOne(g, cut, state, m); }
    forall m | m in state && m !in g.authors && m !in cut ensures g'.authors[m] == NewAuthor(0) {
      CommitNew(g, cut, state, m);
    }
  }

  lemma CommitNew(g: G, cut: map<Membership, Ref>, state: set<Membership>, m: Membership)
    requires m in state && m !in g.authors && m !in cut
    ensures m in Cuts(Lose(g), cut, state).authors && Cuts(Lose(g), cut, state).authors[m] == NewAuthor(0)
  {}

  lemma CommitKeys(g: G, cut: map<Membership, Ref>, state: set<Membership>)
    ensures Cuts(Lose(g), cut, state).authors.Keys == g.authors.Keys + cut.Keys + state
  {}

  lemma CommitOne(g: G, cut: map<Membership, Ref>, state: set<Membership>, m: Membership)
    requires m in g.authors
    ensures m in Cuts(Lose(g), cut, state).authors
    ensures Cuts(Lose(g), cut, state).authors[m] == Committed(g, cut, state, m)
  {}

  lemma CommitRecords(g: G, cut: map<Membership, Ref>, state: set<Membership>, m: Membership, s: nat)
    requires m in g.authors && s in Committed(g, cut, state, m).held && (m, s) in g.records
    ensures (m, s) in Cuts(Lose(g), cut, state).records
    ensures Cuts(Lose(g), cut, state).records[(m, s)] == g.records[(m, s)]
  {
    CommitAuthors(g, cut, state);
  }

  lemma CommitKeep(g: G, cut: map<Membership, Ref>, state: set<Membership>, m: Membership)
    requires m in g.authors
    ensures KeepOf(Cuts(Lose(g), cut, state), m) == if m in cut then KeptBy(g.authors[m], cut[m], g.me.joined) else {}
  {
  }

  /** Losses settled, the last commit's kept seqs are held or lost, so the cut may move on. */
  lemma CommitAccounts(g: G, cut: map<Membership, Ref>, state: set<Membership>, m: Membership)
    requires m in g.authors && Accounted(g.authors[m], KeepOf(g, m)) && (m in cut ==> cut[m].num >= g.authors[m].cut)
    ensures Accounted(Committed(g, cut, state, m), if m in cut then KeptBy(g.authors[m], cut[m], g.me.joined) else {})
  {
  }

  lemma CommitAccounted(g: G, cut: map<Membership, Ref>, state: set<Membership>, m: Membership)
    requires m in g.authors && Fit(g, m) && Committable(g, cut, state)
    ensures Accounted(Committed(g, cut, state, m), KeepOf(Cuts(Lose(g), cut, state), m))
  {
    CommitKeep(g, cut, state, m);
    CommitAccounts(g, cut, state, m);
  }

  lemma CommitFit(g: G, cut: map<Membership, Ref>, state: set<Membership>, m: Membership)
    requires m in g.authors && Fit(g, m) && Committable(g, cut, state)
    ensures var g' := Cuts(Lose(g), cut, state); m in g'.authors && Grown(g.authors[m], g'.authors[m]) && Fit(g', m)
  {
    var g' := Cuts(Lose(g), cut, state);
    CommitOne(g, cut, state, m);
    var b := Committed(g, cut, state, m);
    CommitAccounted(g, cut, state, m);
    CommitPending(g, cut, state, m);
    CommittedFit(g, g', m, b);
  }

  lemma CommittedFit(g: G, g': G, m: Membership, b: Author)
    requires m in g.authors && Fit(g, m) && m in g'.authors && g'.authors[m] == b && g'.me == g.me
    requires g.epoch <= g'.epoch
    requires Grown(g.authors[m], b) && b.delivered == g.authors[m].delivered
    requires b.delivered <= b.held <= g.authors[m].held
    requires (b.ended <==> m !in g'.current) && Accounted(b, KeepOf(g', m))
    requires forall s | s in b.Pending() ::
      (b.ended ==> s <= b.cut) && (m, s) in g.records && (m, s) in g'.records && g'.records[(m, s)] == g.records[(m, s)]
    ensures Fit(g', m)
  {
    StaysFit(g, g', m);
  }

  lemma CommitPending(g: G, cut: map<Membership, Ref>, state: set<Membership>, m: Membership)
    requires m in g.authors && Fit(g, m) && Committable(g, cut, state)
    ensures var b := Committed(g, cut, state, m);
      && b.delivered <= b.held <= g.authors[m].held
      && Grown(g.authors[m], b)
      && (b.ended <==> m !in state)
      && forall s | s in b.Pending() ::
           && (b.ended ==> s <= b.cut)
           && (m, s) in g.records
           && (m, s) in Cuts(Lose(g), cut, state).records
           && Cuts(Lose(g), cut, state).records[(m, s)] == g.records[(m, s)]
  {
    var b := Committed(g, cut, state, m);
    forall s | s in b.Pending()
      ensures (b.ended ==> s <= b.cut) && (m, s) in g.records && (m, s) in Cuts(Lose(g), cut, state).records
      ensures Cuts(Lose(g), cut, state).records[(m, s)] == g.records[(m, s)]
    {
      assert s in g.authors[m].Pending();
      assert Kept(g, m, s);
      CommitRecords(g, cut, state, m, s);
    }
  }

  lemma CommitKeeps(g: G, cut: map<Membership, Ref>, state: set<Membership>)
    requires Inv(g) && Committable(g, cut, state)
    ensures Advances(g, Cuts(Lose(g), cut, state)) && Inv(Cuts(Lose(g), cut, state))
  {
    var g' := Cuts(Lose(g), cut, state);
    CommitAuthors(g, cut, state);
    forall m | m in g.authors ensures m in g'.authors && Grown(g.authors[m], g'.authors[m]) && Fit(g', m) {
      CommitFit(g, cut, state, m);
    }
    forall m | m in state && m !in g.authors ensures m in g'.authors && Fit(g', m) {
      assert m !in g.current;
    }
  }

  /** Every step keeps the invariant, and unresolves nothing. */
  lemma StepKeeps(g: G, l: Label, g': G)
    requires Inv(g) && Step(g, l, g')
    ensures Advances(g, g') && Inv(g')
  {
    match l
    case Opening(id, h, sealed, now) => OpenKeeps(g, id, h, sealed, now);
    case Delivering1(m) => DeliverKeeps(g, m);
    case GivingUp1(given, freed) => MarkKeeps(g, given, freed);
    case Unopenable(m, s) => UnheldKeeps(g, m, s);
    case Committing(cut, state) => CommitKeeps(g, cut, state);
    case Sending(r) => SendKeeps(g, r);
    case Telling => TellKeeps(g);
    case Expiring(gone, drop) => ExpireKeeps(g, gone, drop);
  }

  lemma TellKeeps(g: G)
    requires Inv(g)
    ensures Advances(g, g.(told := {})) && Inv(g.(told := {}))
  {
    var g' := g.(told := {});
    forall m | m in g.authors ensures Fit(g', m) {
      assert Fit(g, m);
      forall s | s in g.authors[m].Pending() ensures Kept(g', m, s) { assert Kept(g, m, s); }
    }
  }

  ghost predicate Run(gs: seq<G>, ls: seq<Label>) {
    && |gs| == |ls| + 1
    && Inv(gs[0])
    && forall i | 0 <= i < |ls| :: StepAt(gs, ls, i)
  }

  ghost predicate StepAt(gs: seq<G>, ls: seq<Label>, i: nat)
    requires i < |ls| && |gs| == |ls| + 1
  {
    Step(gs[i], ls[i], gs[i + 1])
  }

  lemma {:induction false} RunInv(gs: seq<G>, ls: seq<Label>, i: nat)
    requires Run(gs, ls) && i < |gs|
    ensures Inv(gs[i])
  {
    if i > 0 {
      RunInv(gs, ls, i - 1);
      assert StepAt(gs, ls, i - 1);
      StepKeeps(gs[i - 1], ls[i - 1], gs[i]);
    }
  }

  lemma RunStep(gs: seq<G>, ls: seq<Label>, i: nat)
    requires Run(gs, ls) && i < |ls|
    ensures Advances(gs[i], gs[i + 1])
  {
    RunInv(gs, ls, i);
    assert StepAt(gs, ls, i);
    StepKeeps(gs[i], ls[i], gs[i + 1]);
  }

  lemma {:induction false} RunAdvances(gs: seq<G>, ls: seq<Label>, i: nat, j: nat)
    requires Run(gs, ls) && i <= j < |gs|
    ensures gs[i].epoch <= gs[j].epoch && gs[i].me == gs[j].me
    decreases j
  {
    if i < j {
      RunAdvances(gs, ls, i, j - 1);
      RunStep(gs, ls, j - 1);
    }
  }

  /** A membership known at two points of a run is known throughout, and only grew: one forgotten never comes back. */
  lemma {:induction false} Persists(gs: seq<G>, ls: seq<Label>, i: nat, j: nat, m: Membership)
    requires Run(gs, ls) && i <= j < |gs| && m in gs[i].authors && m in gs[j].authors
    ensures Grown(gs[i].authors[m], gs[j].authors[m])
    ensures forall n | i <= n <= j :: m in gs[n].authors
    decreases j
  {
    if i < j {
      assert m.joined <= gs[j - 1].epoch by {
        RunInv(gs, ls, i);
        assert Fit(gs[i], m);
        RunAdvances(gs, ls, i, j - 1);
      }
      RunStep(gs, ls, j - 1);
      Persists(gs, ls, i, j - 1, m);
    }
  }

  /** In every state of every run, each seq above a membership's baseline and up to its cut is held, recorded lost, or
      to be held before the next commit. */
  lemma NothingSkipped(gs: seq<G>, ls: seq<Label>, i: nat, m: Membership, s: nat)
    requires Run(gs, ls) && i < |gs| && m in gs[i].authors
    requires gs[i].authors[m].baseline < s <= gs[i].authors[m].cut
    ensures s in gs[i].authors[m].held || s in gs[i].authors[m].lost || s in KeepOf(gs[i], m)
  {
    RunInv(gs, ls, i);
    assert Fit(gs[i], m);
  }

  // ---------------------------------------------------------------- passes of giving up, as runs

  /** Deliveries of ready messages are a run. */
  lemma {:induction false} DeliveriesRun(g: G, schedule: seq<Membership>, g': G) returns (gs: seq<G>, ls: seq<Label>)
    requires Inv(g) && Delivering(g, schedule, g')
    ensures Run(gs, ls) && gs[0] == g && gs[|ls|] == g'
    ensures |ls| == |schedule| && forall l | l in ls :: l.Delivering1?
    decreases |schedule|
  {
    if schedule == [] {
      gs, ls := [g], [];
    } else {
      DeliveryStep(g, schedule[0]);
      var rest, labels := DeliveriesRun(DeliverNext(g, schedule[0]), schedule[1..], g');
      gs, ls := DeliveryFirst(g, schedule[0], rest, labels);
    }
  }

  lemma DeliveryFirst(g: G, m: Membership, rest: seq<G>, labels: seq<Label>) returns (gs: seq<G>, ls: seq<Label>)
    requires Inv(g) && Run(rest, labels) && Step(g, Delivering1(m), rest[0]) && forall l | l in labels :: l.Delivering1?
    ensures Run(gs, ls) && gs[0] == g && gs[|ls|] == rest[|labels|]
    ensures |ls| == |labels| + 1 && forall l | l in ls :: l.Delivering1?
  {
    RunBegins(g, Delivering1(m), rest, labels);
    gs, ls := [g] + rest, [Delivering1(m)] + labels;
  }

  lemma DeliveryStep(g: G, m: Membership)
    requires Inv(g) && Ready(g, m)
    ensures Step(g, Delivering1(m), DeliverNext(g, m)) && Inv(DeliverNext(g, m))
  {
    DeliverKeeps(g, m);
  }

  lemma MarkStep(g: G, given: set<(Membership, nat)>, freed: set<(Membership, nat)>)
    requires Inv(g)
    ensures Step(g, GivingUp1(given, freed), Marked(g, given, freed)) && Inv(Marked(g, given, freed))
  {
    MarkKeeps(g, given, freed);
  }

  lemma RunBegins(g: G, l: Label, gs: seq<G>, ls: seq<Label>)
    requires Inv(g) && Run(gs, ls) && Step(g, l, gs[0])
    ensures Run([g] + gs, [l] + ls)
  {
    forall i | 0 <= i < |ls| + 1 ensures StepAt([g] + gs, [l] + ls, i) {
      if i > 0 { assert StepAt(gs, ls, i - 1); }
    }
  }

  lemma FindingRuns(g: G, given: set<(Membership, nat)>, freed: set<(Membership, nat)>, g': G)
      returns (gs: seq<G>, ls: seq<Label>)
    requires Inv(g) && exists schedule :: Delivering(Marked(g, given, freed), schedule, g') && Quiet(g')
    ensures Run(gs, ls) && gs[0] == g && gs[|ls|] == g'
    ensures ls != [] && ls[0] == GivingUp1(given, freed) && forall l | l in ls[1..] :: l.Delivering1?
  {
    var marked := Marked(g, given, freed);
    var schedule :| Delivering(marked, schedule, g') && Quiet(g');
    MarkStep(g, given, freed);
    var rest, labels := DeliveriesRun(marked, schedule, g');
    RunBegins(g, GivingUp1(given, freed), rest, labels);
    gs, ls := [g] + rest, [GivingUp1(given, freed)] + labels;
    assert ls[1..] == labels;
  }

  /** A pass is a run: its marks, then deliveries; or no step at all. */
  lemma PassRuns(g: G, env: Env, g': G) returns (gs: seq<G>, ls: seq<Label>)
    requires Inv(g) && Passes(g, true, env, g')
    ensures Run(gs, ls) && gs[0] == g && gs[|ls|] == g'
    ensures Finds(g, env) ==> ls != [] && ls[0] == GivingUp1(Giving(g, env), Releasing(g, env))
    ensures Finds(g, env) ==> forall l | l in ls[1..] :: l.Delivering1?
    ensures !Finds(g, env) ==> ls == []
  {
    if Finds(g, env) {
      gs, ls := FindingRuns(g, Giving(g, env), Releasing(g, env), g');
    } else {
      gs, ls := [g], [];
    }
  }

  /** The drain from every state of every run. */
  lemma ReachableDrain(gs: seq<G>, ls: seq<Label>, i: nat, ps: seq<G>, envs: seq<Env>)
    requires Run(gs, ls) && i < |gs| && PassRun(ps, envs) && ps[0] == gs[i]
    requires envs != [] && |envs| >= |Pending(gs[i])|
    ensures Pending(ps[|envs|]) == {} <==> Pending(gs[i]) == {} || Finds(gs[i], envs[0])
  {
    RunInv(gs, ls, i);
    InvSound(gs[i]);
    PassesDrain(ps, envs);
  }
}
