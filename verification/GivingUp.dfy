/**
 Passes of giving up. A pass looks at each membership's next message, marks what that message lacks as given up and
 the message as released where it must, and then delivers. Proved here: exactly when a pass frees the messages it
 looks at, and when passes drain all there are.
 */
module GivingUp {
  import opened Refs
  import opened Held
  import opened Delivery

  /** What a pass reads besides the group: the time, the ciphertexts kept unopened, and whether a holder of some seqs
      may still be asked. */
  datatype Env = Env(now: nat, unopened: set<(Membership, nat)>, holder: (Membership, set<nat>) -> bool)

  function Waited(r: Record, now: nat): nat {
    if now < r.since then 0 else now - r.since
  }

  /** What of a membership up to `q` holds a message up, of what is known to be sent: once it waited `GIVE_UP`, what is
      held too. */
  function Lacking(a: Author, k: Membership, q: nat, waited: nat, unopened: set<(Membership, nat)>): set<nat> {
    set t | t in Span(1, Min(q, a.Evidence())) && !a.Resolved(t) && (k, t) !in unopened
      && (waited < GIVE_UP ==> t !in a.held)
  }

  /** What one requirement of a message gives up. */
  function GivenFor(g: G, env: Env, waited: nat, q: Requirement): set<nat>
    requires q.of in g.authors
  {
    var lacking := Lacking(g.authors[q.of], q.of, q.num, waited, env.unopened);
    if lacking != {} && (waited >= GIVE_UP || !env.holder(q.of, lacking)) then lacking else {}
  }

  /** The requirements a pass looks at: a message's deps, and its author's earlier seqs. */
  function Wants(r: Record, m: Membership, s: nat): seq<Requirement>
    requires s >= 1
  {
    Named(r.header.deps) + [Requirement(m, s - 1)]
  }

  function GivenBy(g: G, env: Env, waited: nat, wants: seq<Requirement>): (given: set<(Membership, nat)>)
    ensures forall k, t :: (k, t) in given <==>
      exists q :: q in wants && q.of == k && k in g.authors && t in GivenFor(g, env, waited, q)
  {
    set q, t | q in wants && q.of in g.authors && t in GivenFor(g, env, waited, q) :: (q.of, t)
  }

  /** Whether a pass looks at a membership: its next message has waited. */
  predicate Due(g: G, env: Env, m: Membership) {
    && m in g.authors
    && g.authors[m].Pending() != {}
    && g.authors[m].Next() >= 1
    && (m, g.authors[m].Next()) in g.records
    && Waited(g.records[(m, g.authors[m].Next())], env.now) >= HOLD_OFF
  }

  function GivenAt(g: G, env: Env, m: Membership): set<(Membership, nat)>
    requires Due(g, env, m)
  {
    var s := g.authors[m].Next();
    var r := g.records[(m, s)];
    GivenBy(g, env, Waited(r, env.now), Wants(r, m, s))
  }

  /** Whether a requirement is past what its membership is known to have sent. */
  predicate Beyond(g: G, q: Requirement) {
    q.of in g.authors && q.num > g.authors[q.of].Evidence()
  }

  ghost predicate ReleasedAt(g: G, env: Env, m: Membership)
    requires Due(g, env, m)
  {
    var s := g.authors[m].Next();
    var r := g.records[(m, s)];
    Waited(r, env.now) >= GIVE_UP && !r.released && exists q :: q in Wants(r, m, s) && Beyond(g, q)
  }

  ghost function Giving(g: G, env: Env): (given: set<(Membership, nat)>)
    ensures forall p :: p in given <==> exists m :: m in g.authors && Due(g, env, m) && p in GivenAt(g, env, m)
  {
    set m, p | m in g.authors && Due(g, env, m) && p in GivenAt(g, env, m) :: p
  }

  ghost function Releasing(g: G, env: Env): (freed: set<(Membership, nat)>)
    ensures forall m, s :: (m, s) in freed <==>
      m in g.authors && Due(g, env, m) && s == g.authors[m].Next() && ReleasedAt(g, env, m)
  {
    set m | m in g.authors && Due(g, env, m) && ReleasedAt(g, env, m) :: (m, g.authors[m].Next())
  }

  /** Whether a pass finds anything to give up or release. */
  ghost predicate Finds(g: G, env: Env) {
    Giving(g, env) != {} || Releasing(g, env) != {}
  }

  function Of(given: set<(Membership, nat)>, m: Membership): (s: set<nat>)
    ensures forall t :: t in s <==> (m, t) in given
  {
    set p | p in given && p.0 == m :: p.1
  }

  /** Marks what is given up and released. */
  function Marked(g: G, given: set<(Membership, nat)>, freed: set<(Membership, nat)>): G {
    g.(
      authors := map m | m in g.authors :: g.authors[m].(givenUp := g.authors[m].givenUp + Of(given, m)),
      records := map k | k in g.records :: g.records[k].(released := g.records[k].released || k in freed))
  }

  /** One pass: nothing unless at the head, and nothing when there is nothing to give up or release; else the marks, and
      then every ready message delivered. */
  ghost predicate Passes(g: G, atHead: bool, env: Env, g': G) {
    if !atHead || !Finds(g, env) then g' == g
    else exists schedule :: Delivering(Marked(g, Giving(g, env), Releasing(g, env)), schedule, g') && Quiet(g')
  }

  /** Each membership's next message has waited `GIVE_UP`; what is behind it may be as fresh as it likes. */
  ghost predicate Overdue(g: G, now: nat) {
    forall m :: OverdueAt(g, m, now)
  }

  ghost predicate OverdueAt(g: G, m: Membership, now: nat) {
    m in g.authors && g.authors[m].Pending() != {} && (m, g.authors[m].Next()) in g.records ==>
      Waited(g.records[(m, g.authors[m].Next())], now) >= GIVE_UP
  }

  lemma MarkedAuthor(g: G, given: set<(Membership, nat)>, freed: set<(Membership, nat)>, m: Membership)
    requires m in g.authors
    ensures m in Marked(g, given, freed).authors
    ensures Marked(g, given, freed).authors[m] == g.authors[m].(givenUp := g.authors[m].givenUp + Of(given, m))
  {
  }

  /** What a message overdue is given as far as it is known to be sent: all of it, in every membership. */
  lemma FreedThrough(g: G, env: Env, m: Membership, q: Requirement, g': G)
    requires Due(g, env, m) && env.unopened == {}
    requires Waited(g.records[(m, g.authors[m].Next())], env.now) >= GIVE_UP
    requires q in Wants(g.records[(m, g.authors[m].Next())], m, g.authors[m].Next()) && q.of in g.authors
    requires g' == Marked(g, Giving(g, env), Releasing(g, env))
    ensures g'.authors[q.of].Through(Min(q.num, g.authors[q.of].Evidence()))
  {
    MarkedAuthor(g, Giving(g, env), Releasing(g, env), q.of);
    forall t: nat | 1 <= t < Min(q.num, g.authors[q.of].Evidence()) + 1 ensures g'.authors[q.of].Resolved(t) {
      if !g.authors[q.of].Resolved(t) { FreedGives(g, env, m, q, t); }
    }
  }

  lemma FreedGives(g: G, env: Env, m: Membership, q: Requirement, t: nat)
    requires Due(g, env, m) && env.unopened == {}
    requires Waited(g.records[(m, g.authors[m].Next())], env.now) >= GIVE_UP
    requires q in Wants(g.records[(m, g.authors[m].Next())], m, g.authors[m].Next()) && q.of in g.authors
    requires 1 <= t <= Min(q.num, g.authors[q.of].Evidence()) && !g.authors[q.of].Resolved(t)
    ensures (q.of, t) in Giving(g, env)
  {
    var waited := Waited(g.records[(m, g.authors[m].Next())], env.now);
    assert t in Lacking(g.authors[q.of], q.of, q.num, waited, env.unopened);
    assert t in GivenFor(g, env, waited, q);
    assert (q.of, t) in GivenAt(g, env, m);
  }

  /** A message overdue that requires one past what is known sent is released. */
  lemma FreedBeyond(g: G, env: Env, m: Membership, q: Requirement, g': G)
    requires Due(g, env, m) && g' == Marked(g, Giving(g, env), Releasing(g, env))
    requires Waited(g.records[(m, g.authors[m].Next())], env.now) >= GIVE_UP
    requires q in Wants(g.records[(m, g.authors[m].Next())], m, g.authors[m].Next())
    ensures Beyond(g, q) ==> g'.records[(m, g.authors[m].Next())].released
  {
    if Beyond(g, q) { assert g.records[(m, g.authors[m].Next())].released || ReleasedAt(g, env, m); }
  }

  /** What a message requires of a membership is met: through what is known sent, and released past it. */
  ghost predicate MetOf(g: G, r: Record, q: Requirement) {
    q.of in g.authors ==>
      var a := g.authors[q.of];
      a.Through(Min(q.num, a.Evidence())) && (q.num > a.Evidence() ==> r.released)
  }

  lemma MetDep(g: G, r: Record, d: Ref)
    requires MetOf(g, r, Requirement(d.Of(), d.num))
    ensures Met(g, r, d)
  {}

  lemma FreedOf(g: G, env: Env, m: Membership, q: Requirement, g': G)
    requires Due(g, env, m) && env.unopened == {}
    requires Waited(g.records[(m, g.authors[m].Next())], env.now) >= GIVE_UP
    requires g' == Marked(g, Giving(g, env), Releasing(g, env))
    requires q in Wants(g.records[(m, g.authors[m].Next())], m, g.authors[m].Next())
    ensures MetOf(g', g'.records[(m, g.authors[m].Next())], q)
  {
    if q.of in g.authors {
      FreedThrough(g, env, m, q, g');
      SameEvidence(g.authors[q.of], g'.authors[q.of]);
      FreedBeyond(g, env, m, q, g');
    }
  }

  /** Each dep of a message overdue is met after the marks. */
  lemma FreedDep(g: G, env: Env, m: Membership, d: Ref, g': G)
    requires Due(g, env, m) && env.unopened == {}
    requires Waited(g.records[(m, g.authors[m].Next())], env.now) >= GIVE_UP
    requires g' == Marked(g, Giving(g, env), Releasing(g, env))
    requires d in g.records[(m, g.authors[m].Next())].header.deps
    ensures Met(g', g'.records[(m, g.authors[m].Next())], d)
  {
    var s := g.authors[m].Next();
    var r := g.records[(m, s)];
    var i :| 0 <= i < |r.header.deps| && r.header.deps[i] == d;
    assert Wants(r, m, s)[i] == Requirement(d.Of(), d.num);
    FreedOf(g, env, m, Requirement(d.Of(), d.num), g');
    MetDep(g', g'.records[(m, s)], d);
  }

  /** Once it waited `GIVE_UP`, a membership's next message is ready after the marks: whatever it requires, in a cycle
      with other messages or past what is known to be sent. */
  lemma Freed(g: G, env: Env, m: Membership, g': G)
    requires Sound(g) && Due(g, env, m) && env.unopened == {}
    requires Waited(g.records[(m, g.authors[m].Next())], env.now) >= GIVE_UP
    requires g' == Marked(g, Giving(g, env), Releasing(g, env))
    ensures Ready(g', m) && g'.authors[m].Next() == g.authors[m].Next()
  {
    var a, s := g.authors[m], g.authors[m].Next();
    var wants := Wants(g.records[(m, s)], m, s);
    assert g'.authors[m].Pending() == a.Pending();
    assert g'.authors[m].Below(s) by {
      assert wants[|wants| - 1] == Requirement(m, s - 1);
      FreedThrough(g, env, m, Requirement(m, s - 1), g');
      assert s in a.held && s <= a.Evidence();
    }
    forall d | d in g'.records[(m, s)].header.deps ensures Met(g', g'.records[(m, s)], d) {
      FreedDep(g, env, m, d, g');
    }
  }

  lemma SameEvidence(a: Author, b: Author)
    requires b == a.(givenUp := b.givenUp)
    ensures a.Evidence() == b.Evidence()
  {
  }

  lemma NothingMarked(g: G)
    ensures Marked(g, {}, {}) == g
  {
    var g' := Marked(g, {}, {});
    assert forall m | m in g.authors :: Of({}, m) == {};
    assert forall m | m in g.authors :: g'.authors[m] == g.authors[m];
    assert forall k | k in g.records :: g'.records[k] == g.records[k];
    assert g'.authors == g.authors && g'.records == g.records;
  }

  lemma MarkedPending(g: G, given: set<(Membership, nat)>, freed: set<(Membership, nat)>)
    ensures Pending(Marked(g, given, freed)) == Pending(g) && Done(Marked(g, given, freed)) == Done(g)
    ensures Sound(g) ==> Sound(Marked(g, given, freed))
  {
    var g' := Marked(g, given, freed);
    assert forall m | m in g.authors :: g'.authors[m].Pending() == g.authors[m].Pending();
    if Sound(g) {
      forall m | m in g'.authors
        ensures g'.authors[m].delivered <= g'.authors[m].held && 0 !in g'.authors[m].held
        ensures forall s | s in g'.authors[m].Pending() :: Kept(g', m, s)
      {
        forall s | s in g'.authors[m].Pending() ensures Kept(g', m, s) { assert Kept(g, m, s); }
      }
    }
  }

  lemma NextIsDue(g: G, env: Env, m: Membership)
    requires Sound(g) && Overdue(g, env.now) && m in g.authors && g.authors[m].Pending() != {}
    ensures Due(g, env, m) && Waited(g.records[(m, g.authors[m].Next())], env.now) >= GIVE_UP
  {
    assert g.authors[m].Next() in g.authors[m].Pending();
    assert Kept(g, m, g.authors[m].Next());
    assert OverdueAt(g, m, env.now);
  }

  /** Every membership's message next in line before a pass is delivered after it. */
  ghost predicate NextDelivered(g: G, g': G) {
    forall m | m in g.authors && g.authors[m].Pending() != {} :: (m, g.authors[m].Next()) in Done(g')
  }

  /** A pass at the head, with nothing unopened and each next message overdue, delivers every membership's next message
      exactly when it finds something to give up or release, or nothing is held up at all: what was ready and lacks
      nothing is left where it was. */
  lemma PassDelivers(g: G, env: Env, g': G)
    requires Sound(g) && Overdue(g, env.now) && env.unopened == {}
    requires Passes(g, true, env, g')
    ensures NextDelivered(g, g') <==> Finds(g, env) || Pending(g) == {}
  {
    if !Finds(g, env) {
      NoneDelivered(g);
    } else {
      var schedule :| Delivering(Marked(g, Giving(g, env), Releasing(g, env)), schedule, g') && Quiet(g');
      forall m | m in g.authors && g.authors[m].Pending() != {} ensures (m, g.authors[m].Next()) in Done(g') {
        FreedIsDelivered(g, env, schedule, g', m);
      }
    }
  }

  lemma NoneDelivered(g: G)
    ensures NextDelivered(g, g) <==> Pending(g) == {}
  {
    if p :| p in Pending(g) {
      var (m, s) := p;
      assert (m, g.authors[m].Next()) !in Done(g);
    } else {
      forall m | m in g.authors ensures g.authors[m].Pending() == {} {
        assert forall s | s in g.authors[m].Pending() :: (m, s) in Pending(g);
      }
    }
  }

  lemma FreedIsDelivered(g: G, env: Env, schedule: seq<Membership>, g': G, m: Membership)
    requires Sound(g) && Overdue(g, env.now) && env.unopened == {} && m in g.authors && g.authors[m].Pending() != {}
    requires Delivering(Marked(g, Giving(g, env), Releasing(g, env)), schedule, g') && Quiet(g')
    ensures (m, g.authors[m].Next()) in Done(g')
  {
    var marked := Marked(g, Giving(g, env), Releasing(g, env));
    NextIsDue(g, env, m);
    Freed(g, env, m, marked);
    ReadyDelivered(marked, schedule, g', m);
  }

  /** In a state where every ready message was delivered, an overdue message finds something to give up or release. */
  lemma SettledFinds(g: G, env: Env)
    requires Sound(g) && Quiet(g) && Overdue(g, env.now) && env.unopened == {}
    requires Pending(g) != {}
    ensures Finds(g, env)
  {
    var p :| p in Pending(g);
    var m := p.0;
    assert p == (m, p.1);
    NextIsDue(g, env, m);
    if !Finds(g, env) {
      NothingMarked(g);
      Freed(g, env, m, g);
      assert false;
    }
  }

  /** A pass takes back nothing, and one that finds something leaves nothing ready. */
  lemma PassKeeps(g: G, env: Env, g': G)
    requires Sound(g) && Passes(g, true, env, g')
    ensures Sound(g') && Pending(g') <= Pending(g)
    ensures Finds(g, env) || Quiet(g) ==> Quiet(g')
  {
    if Finds(g, env) {
      var marked := Marked(g, Giving(g, env), Releasing(g, env));
      var schedule :| Delivering(marked, schedule, g') && Quiet(g');
      MarkedPending(g, Giving(g, env), Releasing(g, env));
      AlongSchedule(marked, schedule, g');
    }
  }

  /** A pass that finds something delivers each membership's next message, so what is held and not delivered shrinks
      while there is any. */
  lemma FindingPass(g: G, env: Env, g': G)
    requires Sound(g) && Overdue(g, env.now) && env.unopened == {} && Finds(g, env)
    requires Passes(g, true, env, g')
    ensures NextDelivered(g, g')
    ensures Pending(g) != {} ==> |Pending(g')| < |Pending(g)|
  {
    PassDelivers(g, env, g');
    PassKeeps(g, env, g');
    if p :| p in Pending(g) {
      var next := (p.0, g.authors[p.0].Next());
      assert p == (p.0, p.1);
      assert next in Pending(g) && next in Done(g') && next !in Pending(g');
      Shrinks(Pending(g'), Pending(g), next);
    }
  }

  /** From a state where every ready message was delivered, every pass is such a one. */
  lemma SettledPass(g: G, env: Env, g': G)
    requires Sound(g) && Quiet(g) && Overdue(g, env.now) && env.unopened == {}
    requires Passes(g, true, env, g')
    ensures NextDelivered(g, g')
    ensures Pending(g) != {} ==> |Pending(g')| < |Pending(g)|
  {
    PassDelivers(g, env, g');
    if Pending(g) != {} {
      SettledFinds(g, env);
      FindingPass(g, env, g');
    }
  }

  /** A run of passes, each at a time when every next message is overdue, as no message is opened meanwhile. */
  ghost predicate PassRun(gs: seq<G>, envs: seq<Env>) {
    |gs| == |envs| + 1 && forall i | 0 <= i < |envs| :: PassAt(gs, envs, i)
  }

  ghost predicate PassAt(gs: seq<G>, envs: seq<Env>, i: nat)
    requires i < |envs| && |gs| == |envs| + 1
  {
    envs[i].unopened == {} && Overdue(gs[i], envs[i].now) && Passes(gs[i], true, envs[i], gs[i + 1])
  }

  lemma PassRest(gs: seq<G>, envs: seq<Env>)
    requires PassRun(gs, envs) && envs != []
    ensures PassAt(gs, envs, 0) && PassRun(gs[1..], envs[1..]) && gs[1..][|envs| - 1] == gs[|envs|]
  {
    forall i | 0 <= i < |envs| - 1 ensures PassAt(gs[1..], envs[1..], i) { assert PassAt(gs, envs, i + 1); }
  }

  /** With every next message overdue and nothing unopened, what a pass finds depends on neither its time nor on who may
      still be asked. */
  lemma SameFinds(g: G, one: Env, other: Env)
    requires Sound(g) && one.unopened == other.unopened == {} && Overdue(g, one.now) && Overdue(g, other.now)
    ensures Giving(g, one) == Giving(g, other) && Releasing(g, one) == Releasing(g, other)
  {
    forall m | m in g.authors && g.authors[m].Pending() != {}
      ensures Due(g, one, m) && Due(g, other, m)
      ensures GivenAt(g, one, m) == GivenAt(g, other, m) && (ReleasedAt(g, one, m) <==> ReleasedAt(g, other, m))
    {
      SameFindsAt(g, one, other, m);
    }
    assert Giving(g, one) == Giving(g, other);
    assert Releasing(g, one) == Releasing(g, other);
  }

  lemma SameFindsAt(g: G, one: Env, other: Env, m: Membership)
    requires Sound(g) && one.unopened == other.unopened == {} && Overdue(g, one.now) && Overdue(g, other.now)
    requires m in g.authors && g.authors[m].Pending() != {}
    ensures Due(g, one, m) && Due(g, other, m)
    ensures GivenAt(g, one, m) == GivenAt(g, other, m) && (ReleasedAt(g, one, m) <==> ReleasedAt(g, other, m))
  {
    NextIsDue(g, one, m);
    NextIsDue(g, other, m);
    var s := g.authors[m].Next();
    var r := g.records[(m, s)];
    var w1, w2 := Waited(r, one.now), Waited(r, other.now);
    forall q | q in Wants(r, m, s) && q.of in g.authors ensures GivenFor(g, one, w1, q) == GivenFor(g, other, w2, q) {
      assert Lacking(g.authors[q.of], q.of, q.num, w1, one.unopened) ==
        Lacking(g.authors[q.of], q.of, q.num, w2, other.unopened);
    }
  }

  /** A first pass that finds nothing is followed by none that does. */
  lemma {:induction false} StuckForGood(gs: seq<G>, envs: seq<Env>, env: Env)
    requires PassRun(gs, envs) && Sound(gs[0])
    requires env.unopened == {} && Overdue(gs[0], env.now) && !Finds(gs[0], env)
    ensures gs[|envs|] == gs[0]
    decreases |envs|
  {
    if envs != [] {
      PassRest(gs, envs);
      SameFinds(gs[0], env, envs[0]);
      StuckForGood(gs[1..], envs[1..], env);
    }
  }

  /** From a state where every ready message was delivered, as many passes as messages are held deliver them all. */
  lemma {:induction false} SettledDrain(gs: seq<G>, envs: seq<Env>)
    requires PassRun(gs, envs) && Sound(gs[0]) && Quiet(gs[0]) && |envs| >= |Pending(gs[0])|
    ensures Pending(gs[|envs|]) == {}
    decreases |envs|
  {
    if envs != [] {
      PassRest(gs, envs);
      PassKeeps(gs[0], envs[0], gs[1]);
      SettledPass(gs[0], envs[0], gs[1]);
      if Pending(gs[0]) == {} { assert Pending(gs[1]) == {}; }
      SettledDrain(gs[1..], envs[1..]);
    }
  }

  /** No causal deadlock but the one way: as many passes as messages are held deliver them all, whatever they require of
      one another, exactly when there are none or the first pass finds something. */
  lemma PassesDrain(gs: seq<G>, envs: seq<Env>)
    requires PassRun(gs, envs) && Sound(gs[0]) && envs != [] && |envs| >= |Pending(gs[0])|
    ensures Pending(gs[|envs|]) == {} <==> Pending(gs[0]) == {} || Finds(gs[0], envs[0])
  {
    PassRest(gs, envs);
    PassKeeps(gs[0], envs[0], gs[1]);
    if Finds(gs[0], envs[0]) {
      FindingPass(gs[0], envs[0], gs[1]);
      if Pending(gs[0]) == {} { assert Pending(gs[1]) == {}; }
      SettledDrain(gs[1..], envs[1..]);
    } else {
      StuckForGood(gs, envs, envs[0]);
    }
  }

  // ---------------------------------------------------------------- in terms of the sets and times themselves

  /** Message `s` of `m`, next in line, has waited so long. */
  ghost predicate WaitedFor(g: G, env: Env, m: Membership, s: nat, long: nat) {
    m in g.authors && IsNext(g.authors[m], s) && (m, s) in g.records && env.now >= g.records[(m, s)].since + long
  }

  /** It requires the seqs of `q.of` up to `q.num`: by a dep, or as its author's earlier ones. */
  ghost predicate Needs(g: G, m: Membership, s: nat, q: Requirement)
    requires (m, s) in g.records
  {
    (q.of == m && q.num == s - 1) || exists d :: d in g.records[(m, s)].header.deps && d.Of() == q.of && d.num == q.num
  }

  /** Seq `t` of a membership, known to be sent, is neither settled nor waits here unopened. */
  ghost predicate Unsettled(g: G, env: Env, k: Membership, t: nat) {
    k in g.authors && t >= 1 && Sent(g.authors[k], t) && !Settled(g.authors[k], t) && (k, t) !in env.unopened
  }

  /** Those of a requirement that are not held. */
  ghost function Absent(g: G, env: Env, q: Requirement): (ts: set<nat>)
    ensures forall t: nat :: t in ts <==> t <= q.num && Unsettled(g, env, q.of, t) && t !in g.authors[q.of].held
  {
    set t | t in Span(1, q.num) && Unsettled(g, env, q.of, t) && t !in g.authors[q.of].held
  }

  /** A message gives seq `t` of a requirement up: it waited `GIVE_UP`; or it waited `HOLD_OFF`, the seq is not held,
      and no holder of those of the requirement that are not may still be asked. */
  ghost predicate Gives(g: G, env: Env, m: Membership, s: nat, q: Requirement, t: nat) {
    && WaitedFor(g, env, m, s, HOLD_OFF) && Needs(g, m, s, q) && t <= q.num && Unsettled(g, env, q.of, t)
    && (WaitedFor(g, env, m, s, GIVE_UP) || (t !in g.authors[q.of].held && !env.holder(q.of, Absent(g, env, q))))
  }

  lemma DueExact(g: G, env: Env, m: Membership)
    requires Sound(g)
    ensures Due(g, env, m) <==>
      m in g.authors && g.authors[m].Pending() != {} && WaitedFor(g, env, m, g.authors[m].Next(), HOLD_OFF)
    ensures Due(g, env, m) ==>
      (Waited(g.records[(m, g.authors[m].Next())], env.now) >= GIVE_UP <==>
        WaitedFor(g, env, m, g.authors[m].Next(), GIVE_UP))
  {
    if m in g.authors && g.authors[m].Pending() != {} {
      NextExact(g.authors[m], g.authors[m].Next());
      assert g.authors[m].Next() in g.authors[m].Pending();
    }
  }

  lemma NeedsExact(g: G, m: Membership, s: nat, q: Requirement)
    requires (m, s) in g.records && s >= 1
    ensures Needs(g, m, s, q) <==> q in Wants(g.records[(m, s)], m, s)
  {
    var r := g.records[(m, s)];
    var wants := Wants(r, m, s);
    if d :| d in r.header.deps && d.Of() == q.of && d.num == q.num {
      var i :| 0 <= i < |r.header.deps| && r.header.deps[i] == d;
      assert wants[i] == q;
    }
    assert wants[|r.header.deps|] == Requirement(m, s - 1);
    if q in wants {
      var i :| 0 <= i < |wants| && wants[i] == q;
      if i < |r.header.deps| { assert Named(r.header.deps)[i] == q && r.header.deps[i] in r.header.deps; }
    }
  }

  lemma LackingExact(g: G, env: Env, q: Requirement, waited: nat, t: nat)
    requires q.of in g.authors
    ensures var lacking := Lacking(g.authors[q.of], q.of, q.num, waited, env.unopened);
      && (t in lacking <==>
        t <= q.num && Unsettled(g, env, q.of, t) && (waited < GIVE_UP ==> t !in g.authors[q.of].held))
      && (waited < GIVE_UP ==> lacking == Absent(g, env, q))
  {
    forall u: nat ensures u <= g.authors[q.of].Evidence() <==>
      Sent(g.authors[q.of], u) { EvidenceExact(g.authors[q.of], u); }
  }

  lemma GivesAt(g: G, env: Env, m: Membership, q: Requirement, t: nat)
    requires Sound(g) && Due(g, env, m)
    ensures var s := g.authors[m].Next();
      var r := g.records[(m, s)];
      Gives(g, env, m, s, q, t) <==>
        q in Wants(r, m, s) && q.of in g.authors && t in GivenFor(g, env, Waited(r, env.now), q)
  {
    var s := g.authors[m].Next();
    DueExact(g, env, m);
    NeedsExact(g, m, s, q);
    if q.of in g.authors { LackingExact(g, env, q, Waited(g.records[(m, s)], env.now), t); }
  }

  /** A pass gives up on exactly what some message gives up. */
  lemma GivingExact(g: G, env: Env, k: Membership, t: nat)
    requires Sound(g)
    ensures (k, t) in Giving(g, env) <==> exists m, s: nat, n: nat :: Gives(g, env, m, s, Requirement(k, n), t)
  {
    if (k, t) in Giving(g, env) {
      var m :| m in g.authors && Due(g, env, m) && (k, t) in GivenAt(g, env, m);
      var s := g.authors[m].Next();
      var r := g.records[(m, s)];
      var q :| q in Wants(r, m, s) && q.of == k && k in g.authors && t in GivenFor(g, env, Waited(r, env.now), q);
      GivesAt(g, env, m, q, t);
      assert q == Requirement(k, q.num);
    }
    if m, s: nat, n: nat :| Gives(g, env, m, s, Requirement(k, n), t) {
      NextExact(g.authors[m], s);
      DueExact(g, env, m);
      GivesAt(g, env, m, Requirement(k, n), t);
      assert (k, t) in GivenAt(g, env, m);
    }
  }

  /** A pass releases exactly the next messages that waited `GIVE_UP`, were not released, and need a seq of a known
      membership past what that is known to have sent. */
  lemma ReleasingExact(g: G, env: Env, m: Membership, s: nat)
    requires Sound(g)
    ensures (m, s) in Releasing(g, env) <==>
      && WaitedFor(g, env, m, s, GIVE_UP) && !g.records[(m, s)].released
      && exists q :: Needs(g, m, s, q) && q.of in g.authors && !Sent(g.authors[q.of], q.num)
  {
    DueExact(g, env, m);
    if m in g.authors {
      NextExact(g.authors[m], s);
      forall q: Requirement | q.of in g.authors ensures Beyond(g, q) <==> !Sent(g.authors[q.of], q.num) {
        EvidenceExact(g.authors[q.of], q.num);
      }
      if (m, s) in g.records && s >= 1 {
        forall q ensures Needs(g, m, s, q) <==> q in Wants(g.records[(m, s)], m, s) { NeedsExact(g, m, s, q); }
      }
    }
  }

  /** While no message waited `GIVE_UP` and holders may still be asked for all that is missing, a pass changes nothing.
      */
  lemma NothingEarly(g: G, env: Env, g': G)
    requires Sound(g) && Passes(g, true, env, g')
    requires (forall m, s: nat :: !WaitedFor(g, env, m, s, GIVE_UP)) && forall k, ts :: env.holder(k, ts)
    ensures g' == g
  {
    forall k, t: nat ensures (k, t) !in Giving(g, env) { GivingExact(g, env, k, t); }
    forall m, s: nat ensures (m, s) !in Releasing(g, env) { ReleasingExact(g, env, m, s); }
    assert forall p | p in Giving(g, env) :: p == (p.0, p.1);
    assert forall p | p in Releasing(g, env) :: p == (p.0, p.1);
  }

  /** A pass that finds something gives up on that, releases that, and then delivers; it changes nothing else. */
  lemma MarkedExact(g: G, given: set<(Membership, nat)>, freed: set<(Membership, nat)>, m: Membership, t: nat)
    ensures var g' := Marked(g, given, freed);
      && g' == g.(authors := g'.authors, records := g'.records)
      && g'.authors.Keys == g.authors.Keys && g'.records.Keys == g.records.Keys
      && (m in g.authors ==>
            && g'.authors[m] == g.authors[m].(givenUp := g'.authors[m].givenUp)
            && (t in g'.authors[m].givenUp <==> t in g.authors[m].givenUp || (m, t) in given))
      && ((m, t) in g.records ==>
            && g'.records[(m, t)] == g.records[(m, t)].(released := g'.records[(m, t)].released)
            && (g'.records[(m, t)].released <==> g.records[(m, t)].released || (m, t) in freed))
  {}
}
