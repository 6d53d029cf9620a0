/**
 A session's held state as it is changed in place: each method's effect is the step the other modules reason about.
 */
module Keeper {
  import opened Refs
  import opened Held
  import opened Delivery
  import opened GivingUp
  import opened Steps

  predicate Cleared(a: Author, s: nat)
    ensures Cleared(a, s) <==> a.Below(s)
  {
    forall t | t in Span(1, s) && t < s :: a.Resolved(t)
  }

  predicate DepMet(authors: map<Membership, Author>, r: Record, d: Ref) {
    d.Of() in authors ==> Cleared(authors[d.Of()], Reach(r, d, authors[d.Of()]) + 1)
  }

  class Group {
    const me: Membership
    var epoch: nat
    var current: set<Membership>
    /** The memberships in the order they are scanned in. */
    var order: seq<Membership>
    var authors: map<Membership, Author>
    var records: map<(Membership, nat), Record>
    var index: nat
    var keep: map<Membership, set<nat>>
    var told: set<(Membership, nat)>

    function View(): G
      reads this
    {
      G(me, epoch, current, authors, records, index, keep, told)
    }

    ghost predicate Valid()
      reads this
    {
      && (forall m :: m in order <==> m in authors)
      && (forall i, j | 0 <= i < j < |order| :: order[i] != order[j])
      && Sound(View())
    }

    /** Joins: every membership starts at its cut. */
    constructor (me: Membership, epoch: nat, cut: seq<Ref>)
      requires forall i, j | 0 <= i < j < |cut| :: cut[i].Of() != cut[j].Of()
      ensures Valid() && fresh(this)
      ensures this.me == me && this.epoch == epoch && records == map[] && index == 0 && keep == map[] && told == {}
      ensures current == authors.Keys == (set r | r in cut :: r.Of())
      ensures forall r | r in cut :: authors[r.Of()] == NewAuthor(r.num)
    {
      this.me, this.epoch, records, index, keep, told := me, epoch, map[], 0, map[], {};
      var order', authors' := [], map[];
      for n := 0 to |cut|
        invariant |order'| == n && forall i | 0 <= i < n :: order'[i] == cut[i].Of()
        invariant authors'.Keys == set m | m in order'
        invariant forall i | 0 <= i < n :: authors'[cut[i].Of()] == NewAuthor(cut[i].num)
      {
        order', authors' := order' + [cut[n].Of()], authors'[cut[n].Of() := NewAuthor(cut[n].num)];
      }
      order, authors, current := order', authors', authors'.Keys;
    }

    /** Delivers a held message, naming what its requirements reach that was given up. */
    method DeliverOne(m: Membership, s: nat)
      requires m in authors && (m, s) in records
      modifies `authors, `records, `index
      ensures View() == Deliver(old(View()), m, s)
    {
      var r := records[(m, s)];
      var missing := [];
      if !r.header.control && m.key != me.key { missing := NameMissing(Requirements(r.header)); }
      var a := authors[m];
      authors := authors[m := a.(delivered := a.delivered + {s})];
      index := index + 1;
      records := records[(m, s) := r.(delivery := Some(Delivery(index, missing, s in a.givenUp)))];
    }

    /** Names what requirements reach that was given up on and not named before. */
    method NameMissing(reqs: seq<Requirement>) returns (missing: seq<(Membership, set<nat>)>)
      modifies `authors
      ensures (authors, missing) == Report(old(authors), reqs)
    {
      missing := [];
      assert reqs[0..] == reqs && missing + Report(authors, reqs).1 == Report(authors, reqs).1;
      for n := 0 to |reqs|
        invariant authors.Keys == old(authors).Keys
        invariant var rest := Report(authors, reqs[n..]);
          Report(old(authors), reqs) == (rest.0, missing + rest.1)
      {
        assert reqs[n..][0] == reqs[n] && reqs[n..][1..] == reqs[n + 1..];
        ghost var was := Report(authors, reqs[n..]);
        if reqs[n].of in authors {
          var a := authors[reqs[n].of];
          var unnamed := Unreported(a, reqs[n].num);
          authors := authors[reqs[n].of := a.(reported := a.reported + unnamed)];
          var named := if unnamed == {} then [] else [(reqs[n].of, unnamed)];
          assert missing + was.1 == (missing + named) + Report(authors, reqs[n + 1..]).1;
          missing := missing + named;
        }
      }
      assert Report(authors, reqs[|reqs|..]) == (authors, []);
      assert missing + [] == missing;
    }

    /** The first membership, in order, whose next message is ready. */
    method FirstReady() returns (ready: Option<Membership>)
      requires Valid()
      ensures ready.Some? ==> Ready(View(), ready.value)
      ensures ready.None? ==> Quiet(View())
    {
      ready := None;
      for n := 0 to |order|
        invariant forall i | 0 <= i < n :: !Ready(View(), order[i])
      {
        var m := order[n];
        var a := authors[m];
        if a.Pending() != {} && Cleared(a, a.Next()) {
          assert Kept(View(), m, a.Next());
          var r := records[(m, a.Next())];
          if forall d | d in r.header.deps :: DepMet(authors, r, d) {
            assert forall d | d in r.header.deps :: Met(View(), r, d) by {
              forall d | d in r.header.deps ensures Met(View(), r, d) { assert DepMet(authors, r, d); }
            }
            return Some(m);
          }
          assert !Ready(View(), m) by {
            var d :| d in r.header.deps && !DepMet(authors, r, d);
            assert !Met(View(), r, d);
          }
        }
      }
    }

    method DeliverNextOf(m: Membership)
      requires Valid() && Ready(View(), m)
      modifies `authors, `records, `index
      ensures Valid() && View() == DeliverNext(old(View()), m)
    {
      ScheduleStep(View(), [], View(), m);
      DeliverOne(m, authors[m].Next());
    }

    /** Delivers until nothing is ready: what is delivered then is the least closed set. */
    method DeliverReady() returns (ghost schedule: seq<Membership>)
      requires Valid()
      modifies `authors, `records, `index
      ensures Valid()
      ensures Delivering(old(View()), schedule, View()) && Quiet(View())
      ensures LeastClosed(old(View()), Done(View()))
    {
      schedule := [];
      var ready := FirstReady();
      while ready.Some?
        invariant Valid() && Delivering(old(View()), schedule, View())
        invariant if ready.Some? then Ready(View(), ready.value) else Quiet(View())
        decreases |Pending(View())|, ready.Some?
      {
        ghost var was := View();
        var m := ready.value;
        ScheduleStep(old(View()), schedule, was, m);
        DeliverNextOf(m);
        schedule := schedule + [m];
        ready := FirstReady();
      }
      LeastFixpoint(old(View()), schedule, View());
    }

    /** What a membership's next message, if it has waited, gives up on, and whether it is released. */
    method LookAt(m: Membership, env: Env) returns (given: set<(Membership, nat)>, release: bool)
      requires Valid() && m in authors
      ensures given == if Due(View(), env, m) then GivenAt(View(), env, m) else {}
      ensures release <==> Due(View(), env, m) && ReleasedAt(View(), env, m)
    {
      given, release := {}, false;
      if !Due(View(), env, m) { return; }
      var s := authors[m].Next();
      var r := records[(m, s)];
      var waited := Waited(r, env.now);
      var wants := Wants(r, m, s);
      for n := 0 to |wants|
        invariant given == GivenBy(View(), env, waited, wants[..n])
        invariant release <==> waited >= GIVE_UP && !r.released && AnyBeyond(View(), wants[..n])
      {
        var q := wants[n];
        assert wants[..n + 1] == wants[..n] + [q];
        ghost var before := given;
        if q.of in authors {
          if q.num > authors[q.of].Evidence() && waited >= GIVE_UP && !r.released {
            release := true;
          }
          var lacking := Lacking(authors[q.of], q.of, q.num, waited, env.unopened);
          if lacking != {} && (waited >= GIVE_UP || !env.holder(q.of, lacking)) {
            given := given + set t | t in lacking :: (q.of, t);
          }
        }
        GivenMore(View(), env, waited, wants[..n], q, given);
        BeyondMore(View(), wants[..n], q);
      }
      assert wants[..|wants|] == wants;
    }

    /** Marks what is given up on and released. */
    method Mark(given: set<(Membership, nat)>, freed: set<(Membership, nat)>)
      requires Valid() && freed <= records.Keys
      modifies `authors, `records
      ensures Valid() && View() == Marked(old(View()), given, freed)
    {
      Release(freed);
      Abandon(given);
      MarkedPending(old(View()), given, freed);
      SameMarks(old(View()), View(), given, freed);
    }

    method Release(freed: set<(Membership, nat)>)
      requires freed <= records.Keys
      modifies `records
      ensures records.Keys == old(records).Keys
      ensures forall k | k in records ::
        records[k] == old(records)[k].(released := old(records)[k].released || k in freed)
    {
      var todo := freed;
      while todo != {}
        invariant todo <= freed <= records.Keys == old(records).Keys
        invariant forall k | k in records ::
          records[k] == old(records)[k].(released := old(records)[k].released || k in freed - todo)
      {
        var k :| k in todo;
        records := records[k := records[k].(released := true)];
        todo := todo - {k};
      }
    }

    method Abandon(given: set<(Membership, nat)>)
      requires Ordered()
      modifies `authors
      ensures authors.Keys == old(authors).Keys
      ensures forall m | m in authors ::
        authors[m] == old(authors)[m].(givenUp := old(authors)[m].givenUp + Of(given, m))
    {
      for n := 0 to |order|
        invariant authors.Keys == old(authors).Keys
        invariant forall i | 0 <= i < n ::
          authors[order[i]] == old(authors)[order[i]].(givenUp := old(authors)[order[i]].givenUp + Of(given, order[i]))
        invariant forall i | n <= i < |order| :: authors[order[i]] == old(authors)[order[i]]
      {
        var a := authors[order[n]];
        authors := authors[order[n] := a.(givenUp := a.givenUp + Of(given, order[n]))];
      }
    }

    /** What every membership's next message gives up on, and those released. */
    method Gather(env: Env) returns (given: set<(Membership, nat)>, freed: set<(Membership, nat)>)
      requires Valid()
      ensures given == Giving(View(), env) && freed == Releasing(View(), env) && freed <= records.Keys
    {
      given, freed := {}, {};
      for n := 0 to |order|
        invariant given == GivingIn(View(), env, order[..n]) && freed == FreeingIn(View(), env, order[..n])
        invariant freed <= records.Keys
      {
        var more, release := LookAt(order[n], env);
        assert order[..n + 1] == order[..n] + [order[n]];
        GatherMore(View(), env, order[..n], order[n]);
        given := given + more;
        if release { freed := freed + {(order[n], authors[order[n]].Next())}; }
      }
      assert order[..|order|] == order;
      Gathered(View(), env, order);
    }

    /** One pass in place: looks at every next message, marks, and delivers; or returns early, as `Passes` says. */
    method GiveUp(atHead: bool, env: Env)
      requires Valid()
      modifies `authors, `records, `index
      ensures Valid() && Passes(old(View()), atHead, env, View())
    {
      if !atHead { return; }
      var given, freed := Gather(env);
      if given == {} && freed == {} { return; }
      Mark(given, freed);
      ghost var schedule := DeliverReady();
    }

    /** Raises the baseline for each dep of an epoch before `own`. */
    method BeforeAll(deps: seq<Ref>, own: nat)
      modifies `authors
      ensures authors == BeforeDeps(old(authors), deps, own)
    {
      assert deps[0..] == deps;
      for n := 0 to |deps|
        invariant BeforeDeps(old(authors), deps, own) == BeforeDeps(authors, deps[n..], own)
      {
        assert deps[n..][0] == deps[n] && deps[n..][1..] == deps[n + 1..];
        if deps[n].epoch < own {
          authors := Before(authors, deps[n].Of(), deps[n].num);
        }
      }
    }

    method LearnAll(deps: seq<Ref>)
      modifies `authors
      ensures authors == LearnDeps(old(authors), deps)
    {
      assert deps[0..] == deps;
      for n := 0 to |deps|
        invariant LearnDeps(old(authors), deps) == LearnDeps(authors, deps[n..])
      {
        assert deps[n..][0] == deps[n] && deps[n..][1..] == deps[n + 1..];
        authors := Learn(authors, deps[n].Of(), deps[n].num);
      }
    }

    /** Raises baselines and what is known by what a header names. */
    method TakeIn(h: Header)
      requires h.num >= 1
      modifies `authors
      ensures authors == Taken(old(View()), h)
    {
      if h.prev.Some? && h.prev.value.1 < me.joined {
        authors := Before(authors, h.of, h.num - 1);
      }
      BeforeAll(h.deps, me.joined);
      authors := Learn(authors, h.of, h.num - 1);
      LearnAll(h.deps);
    }

    /** Keeps a message opened for the first time. */
    method KeepNew(id: Id, h: Header, sealed: nat, now: nat)
      requires h.num >= 1 && h.of in authors && (h.of, h.num) !in records
      modifies `authors, `records
      ensures View() == Keep(old(View()), Taken(old(View()), h), Record(id, h, Some(sealed), now, false, None))
    {
      TakeIn(h);
      var a := authors[h.of];
      authors := authors[h.of := a.(held := a.held + {h.num}, known := Max(a.known, h.num))];
      records := records[(h.of, h.num) := Record(id, h, Some(sealed), now, false, None)];
    }

    /** Takes an opened header: a new record, a later sealing of a record past the cut, or no change. */
    method OpenOne(id: Id, h: Header, sealed: nat, now: nat)
      requires Valid() && Opens(View(), h)
      modifies `authors, `records
      ensures Valid() && View() == Open(old(View()), id, h, sealed, now)
    {
      OpenSound(View(), id, h, sealed, now);
      if h.of !in authors { return; }
      if (h.of, h.num) in records {
        var r := records[(h.of, h.num)];
        if r.id != id || h.num <= authors[h.of].cut || (r.sealing.Some? && r.sealing.value >= sealed) { return; }
        records := records[(h.of, h.num) := r.(sealing := Some(sealed))];
        return;
      }
      if h.num > 1 && (h.of, h.num - 1) in records
        && (h.prev.None? || h.prev.value.0 != records[(h.of, h.num - 1)].id) { return; }
      KeepNew(id, h, sealed, now);
    }

    /** Settles `keep`: its seqs that are neither held nor lost become lost, and join `told`. */
    method LoseKept()
      requires Valid()
      modifies `authors, `told
      ensures Valid() && View() == Lose(old(View()))
    {
      var todo := keep.Keys;
      while todo != {}
        modifies `authors, `told
        invariant todo <= keep.Keys && authors.Keys == old(authors).Keys
        invariant forall m | m in authors ::
          authors[m] == if m in todo then old(authors)[m]
            else old(authors)[m].(lost := old(authors)[m].lost + LackingOf(old(View()), m))
        invariant forall m, s :: (m, s) in told <==>
          (m, s) in old(told) || (m in old(authors) && m !in todo && s in LackingOf(old(View()), m))
      {
        var m :| m in todo;
        if m in authors { LoseOf(m); }
        todo := todo - {m};
      }
      LostAll(old(View()), View());
    }

    method LoseOf(m: Membership)
      requires m in authors && m in keep
      modifies `authors, `told
      ensures authors == old(authors)[m := old(authors)[m].(lost := old(authors)[m].lost + LackingOf(old(View()), m))]
      ensures forall k, s :: (k, s) in told <==> (k, s) in old(told) || (k == m && s in LackingOf(old(View()), m))
    {
      var lacking := keep[m] - authors[m].held - authors[m].lost;
      authors := authors[m := authors[m].(lost := authors[m].lost + lacking)];
      told := told + set s | s in lacking :: (m, s);
    }

    /** Settles one seq that can be opened no more; see `Missing.UnopenableSettles`. */
    method MarkUnheld(m: Membership, s: nat)
      requires Valid()
      modifies `authors, `told
      ensures Valid() && View() == Unheld(old(View()), m, s)
    {
      if m !in authors || s > authors[m].cut || s in authors[m].held || s in authors[m].lost { return; }
      ghost var was := View();
      authors := authors[m := authors[m].(lost := authors[m].lost + {s})];
      told := told + {(m, s)};
      forall k | k in authors ensures forall t | t in authors[k].Pending() :: Kept(View(), k, t) {
        forall t | t in authors[k].Pending() ensures Kept(View(), k, t) {
          assert t in was.authors[k].Pending() && Kept(was, k, t);
        }
      }
    }

    ghost predicate Ordered()
      reads this
    {
      && (forall m :: m in order <==> m in authors)
      && (forall i, j | 0 <= i < j < |order| :: order[i] != order[j])
    }

    /** Moves one membership's cut, and adds what it kept above the baseline to `keep`. */
    method MoveCut(r: Ref)
      requires Ordered()
      modifies `authors, `order, `keep
      ensures Ordered()
      ensures authors == old(authors)[r.Of() := CutOne(AuthorAt(old(authors), r.Of()), r, me.joined)]
      ensures keep == With(old(keep), r.Of(), KeptBy(AuthorAt(old(authors), r.Of()), r, me.joined))
    {
      Meet(r.Of());
      if r.epoch < me.joined {
        authors := Before(authors, r.Of(), r.num);
      }
      var a := authors[r.Of()];
      var kept := Span(Max(a.cut, a.baseline) + 1, r.num);
      authors := authors[r.Of() := a.(cut := r.num, known := Max(a.known, r.num))];
      if kept != {} { keep := keep[r.Of() := kept]; }
    }

    /** A membership to keep, if it is new. */
    method Meet(m: Membership)
      requires Ordered()
      modifies `authors, `order
      ensures Ordered() && authors == old(authors)[m := AuthorAt(old(authors), m)]
    {
      if m !in authors {
        order, authors := order + [m], authors[m := NewAuthor(0)];
      }
    }

    /** Moves each cut of a commit, and collects what it kept above the baselines. */
    method MoveCuts(cut: seq<Ref>)
      requires Ordered() && Distinct(cut)
      modifies `authors, `order, `keep
      ensures Ordered()
      ensures authors == CutAuthors(old(authors), CutMap(cut), me.joined)
      ensures keep == CutKeep(old(authors), CutMap(cut), me.joined)
    {
      keep := map[];
      for n := 0 to |cut|
        invariant Ordered()
        invariant authors == CutAuthors(old(authors), CutMap(cut[..n]), me.joined)
        invariant keep == CutKeep(old(authors), CutMap(cut[..n]), me.joined)
      {
        CutMapMore(cut, n);
        CutMore(old(authors), CutMap(cut[..n]), cut[n], me.joined);
        KeepMore(old(authors), CutMap(cut[..n]), cut[n], me.joined);
        MoveCut(cut[n]);
      }
      assert cut[..|cut|] == cut;
    }

    /** Begins the memberships new to the state. */
    method Begin(state: seq<Membership>)
      requires Ordered()
      modifies `authors, `order
      ensures Ordered()
      ensures authors.Keys == old(authors).Keys + set m | m in state
      ensures forall m | m in authors :: authors[m] == AuthorAt(old(authors), m)
    {
      for n := 0 to |state|
        invariant Ordered()
        invariant authors.Keys == old(authors).Keys + set m | m in state[..n]
        invariant forall m | m in authors :: authors[m] == AuthorAt(old(authors), m)
      {
        assert state[..n + 1] == state[..n] + [state[n]];
        Meet(state[n]);
      }
      assert state[..|state|] == state;
    }

    /** Ends a membership the state names no more, dropping what it held past its final cut and was not delivered. */
    method EndIf(m: Membership, named: bool)
      requires m in authors
      modifies `authors, `records
      ensures authors == old(authors)[m := EndedOne(old(authors)[m], named)]
      ensures records == old(records) - set s | s in old(authors)[m].held - authors[m].held :: (m, s)
    {
      var a := authors[m];
      if !a.ended && !named {
        var past := set s | s in a.held && s !in a.delivered && a.cut < s;
        assert a.held - past == End(a).held && past == a.held - End(a).held;
        authors := authors[m := a.(ended := true, held := a.held - past)];
        records := records - set s | s in past :: (m, s);
      }
    }

    method EndAll(state: seq<Membership>)
      requires Ordered()
      modifies `authors, `records
      ensures Ordered() && authors.Keys == old(authors).Keys
      ensures forall m | m in authors :: authors[m] == EndedOne(old(authors)[m], m in state)
      ensures records == Left(old(authors), authors, old(records))
    {
      LeftNone(authors, records);
      for n := 0 to |order|
        invariant Ordered() && authors.Keys == old(authors).Keys
        invariant forall i | 0 <= i < n :: authors[order[i]] == EndedOne(old(authors)[order[i]], order[i] in state)
        invariant forall i | n <= i < |order| :: authors[order[i]] == old(authors)[order[i]]
        invariant records == Left(old(authors), authors, old(records))
      {
        ghost var was := authors;
        EndIf(order[n], order[n] in state);
        DropMore(old(authors), was, authors, order[n], old(records));
      }
    }

    /** Applies a commit to the held state: what is lacking is lost, each cut moves, and memberships begin and end. */
    method Apply(cut: seq<Ref>, state: seq<Membership>)
      requires Valid() && Distinct(cut)
      modifies this
      ensures Valid() && View() == Cuts(Lose(old(View())), CutMap(cut), set m | m in state)
    {
      LoseKept();
      CutsSound(View(), CutMap(cut), set m | m in state);
      MoveOn(cut, state);
    }

    /** Begins and ends memberships as the state names them. */
    method Settle(state: seq<Membership>)
      requires Ordered()
      modifies `authors, `order, `records
      ensures Ordered()
      ensures authors == Ended(old(authors), set m | m in state)
      ensures records == Left(old(authors), authors, old(records))
    {
      Begin(state);
      ghost var begun := authors;
      EndAll(state);
      EndedAll(old(authors), begun, authors, set m | m in state);
      LeftSame(old(authors), begun, authors, old(records));
    }

    method MoveOn(cut: seq<Ref>, state: seq<Membership>)
      requires Ordered() && Distinct(cut)
      modifies this
      ensures Ordered() && View() == Cuts(old(View()), CutMap(cut), set m | m in state)
    {
      MoveCuts(cut);
      ghost var moved := authors;
      Settle(state);
      MovedHeld(old(authors), CutMap(cut), me.joined, set m | m in state, old(records));
      epoch, current := epoch + 1, set m | m in state;
    }

    /** Adds a record of one's own at the next seq, delivered in the same step. */
    method SendOne(r: Record)
      requires Valid() && Sendable(View(), r)
      modifies `authors, `records, `index
      ensures Valid() && View() == Send(old(View()), r)
    {
      SendSound(View(), r);
      var a, s := authors[me], r.header.num;
      authors := authors[me := a.(held := a.held + {s}, known := Max(a.known, s))];
      records := records[(me, s) := r];
      DeliverOne(me, s);
    }
  }

  ghost function GivingIn(g: G, env: Env, ms: seq<Membership>): set<(Membership, nat)> {
    set m, p | m in ms && Due(g, env, m) && p in GivenAt(g, env, m) :: p
  }

  ghost function FreeingIn(g: G, env: Env, ms: seq<Membership>): set<(Membership, nat)> {
    set m | m in ms && Due(g, env, m) && ReleasedAt(g, env, m) :: (m, g.authors[m].Next())
  }

  lemma GatherMore(g: G, env: Env, ms: seq<Membership>, m: Membership)
    ensures GivingIn(g, env, ms + [m]) == GivingIn(g, env, ms) + if Due(g, env, m) then GivenAt(g, env, m) else {}
    ensures FreeingIn(g, env, ms + [m]) == FreeingIn(g, env, ms) + if Due(g, env, m)
      && ReleasedAt(g, env, m) then {(m, g.authors[m].Next())} else {}
  {
    assert forall k :: k in ms + [m] <==> k in ms || k == m;
  }

  lemma Gathered(g: G, env: Env, order: seq<Membership>)
    requires forall m :: m in order <==> m in g.authors
    ensures GivingIn(g, env, order) == Giving(g, env) && FreeingIn(g, env, order) == Releasing(g, env)
  {
  }

  ghost predicate AnyBeyond(g: G, wants: seq<Requirement>) {
    exists q :: q in wants && Beyond(g, q)
  }

  lemma BeyondMore(g: G, wants: seq<Requirement>, q: Requirement)
    ensures AnyBeyond(g, wants + [q]) <==> AnyBeyond(g, wants) || Beyond(g, q)
  {
    assert q in wants + [q] && forall p :: p in wants + [q] <==> p in wants || p == q;
  }

  lemma GivenMore(g: G, env: Env, waited: nat, wants: seq<Requirement>, q: Requirement, given: set<(Membership, nat)>)
    requires given == GivenBy(g, env, waited, wants) + if q.of in g.authors
      then (set t | t in GivenFor(g, env, waited, q) :: (q.of, t)) else {}
    ensures given == GivenBy(g, env, waited, wants + [q])
  {
    assert forall p :: p in wants + [q] <==> p in wants || p == q;
  }

  lemma SameMarks(g: G, g': G, given: set<(Membership, nat)>, freed: set<(Membership, nat)>)
    requires g' == g.(authors := g'.authors, records := g'.records)
    requires g'.authors.Keys == g.authors.Keys && g'.records.Keys == g.records.Keys
    requires forall m | m in g.authors :: g'.authors[m] == g.authors[m].(givenUp := g.authors[m].givenUp + Of(given, m))
    requires forall k | k in g.records ::
      g'.records[k] == g.records[k].(released := g.records[k].released || k in freed)
    ensures g' == Marked(g, given, freed)
  {
    assert g'.authors == Marked(g, given, freed).authors;
    assert g'.records == Marked(g, given, freed).records;
  }

  lemma OpenSound(g: G, id: Id, h: Header, sealed: nat, now: nat)
    requires Sound(g) && h.num >= 1
    ensures Sound(Open(g, id, h, sealed, now))
  {
    var g' := Open(g, id, h, sealed, now);
    forall m | m in g'.authors
      ensures g'.authors[m].delivered <= g'.authors[m].held && 0 !in g'.authors[m].held
      ensures forall s | s in g'.authors[m].Pending() :: Kept(g', m, s)
    {
      forall s | s in g'.authors[m].Pending() ensures Kept(g', m, s) {
        if s in g.authors[m].held { assert s in g.authors[m].Pending() && Kept(g, m, s); }
      }
    }
  }

  lemma LostAll(g: G, g': G)
    requires Sound(g) && g' == g.(authors := g'.authors, told := g'.told) && g'.authors.Keys == g.authors.Keys
    requires forall m | m in g.authors :: g'.authors[m] == g.authors[m].(lost := g.authors[m].lost + LackingOf(g, m))
    requires forall m, s :: (m, s) in g'.told <==> (m, s) in g.told || (m in g.authors && s in LackingOf(g, m))
    ensures g' == Lose(g) && Sound(g')
  {
    assert g'.authors == Lose(g).authors;
    assert g'.told == Lose(g).told by {
      forall p ensures p in g'.told <==> p in Lose(g).told { assert p == (p.0, p.1); }
    }
    forall m | m in g'.authors ensures forall s | s in g'.authors[m].Pending() :: Kept(g', m, s) {
      forall s | s in g'.authors[m].Pending() ensures Kept(g', m, s) {
        assert s in g.authors[m].Pending() && Kept(g, m, s);
      }
    }
  }

  ghost predicate Distinct(cut: seq<Ref>) {
    forall i, j | 0 <= i < j < |cut| :: cut[i].Of() != cut[j].Of()
  }

  /** A cut's entries by membership. */
  function CutMap(cut: seq<Ref>): (c: map<Membership, Ref>)
    ensures forall m :: m in c <==> exists r :: r in cut && r.Of() == m
  {
    if cut == [] then map[] else CutMap(cut[..|cut| - 1])[cut[|cut| - 1].Of() := cut[|cut| - 1]]
  }

  lemma CutMapMore(cut: seq<Ref>, n: nat)
    requires n < |cut| && Distinct(cut)
    ensures cut[n].Of() !in CutMap(cut[..n]) && CutMap(cut[..n + 1]) == CutMap(cut[..n])[cut[n].Of() := cut[n]]
  {
    var less, more := cut[..n], cut[..n + 1];
    assert more[..n] == less && more[n] == cut[n];
    forall r | r in less ensures r.Of() != cut[n].Of() {
      var i :| 0 <= i < n && less[i] == r;
      assert cut[i] == r;
    }
  }

  lemma CutMore(authors: map<Membership, Author>, c: map<Membership, Ref>, r: Ref, own: nat)
    requires r.Of() !in c
    ensures AuthorAt(CutAuthors(authors, c, own), r.Of()) == AuthorAt(authors, r.Of())
    ensures CutAuthors(authors, c[r.Of() := r], own) ==
      CutAuthors(authors, c, own)[r.Of() := CutOne(AuthorAt(authors, r.Of()), r, own)]
  {
    var m := r.Of();
    var a, b := CutAuthors(authors, c[m := r], own),
      CutAuthors(authors, c, own)[m := CutOne(AuthorAt(authors, m), r, own)];
    assert a.Keys == b.Keys;
    forall k | k in a ensures a[k] == b[k] {}
  }

  lemma KeepMore(authors: map<Membership, Author>, c: map<Membership, Ref>, r: Ref, own: nat)
    requires r.Of() !in c
    ensures CutKeep(authors, c[r.Of() := r], own) ==
      With(CutKeep(authors, c, own), r.Of(), KeptBy(AuthorAt(authors, r.Of()), r, own))
  {
    var a, b := CutKeep(authors, c[r.Of() := r], own),
      With(CutKeep(authors, c, own), r.Of(), KeptBy(AuthorAt(authors, r.Of()), r, own));
    forall k ensures (k in a <==> k in b) && (k in a && k in b ==> a[k] == b[k]) {
      if k == r.Of() { KeepOne(authors, c, r, own); } else { KeepOther(authors, c, r, own, k); }
    }
  }

  function With(keep: map<Membership, set<nat>>, m: Membership, kept: set<nat>): map<Membership, set<nat>> {
    if kept == {} then keep else keep[m := kept]
  }

  lemma KeepOne(authors: map<Membership, Author>, c: map<Membership, Ref>, r: Ref, own: nat)
    requires r.Of() !in c
    ensures var (a, kept) := (CutKeep(authors, c[r.Of() := r], own), KeptBy(AuthorAt(authors, r.Of()), r, own));
      && r.Of() !in CutKeep(authors, c, own)
      && (r.Of() in a <==> kept != {}) && (r.Of() in a ==> a[r.Of()] == kept)
  {}

  lemma KeepOther(authors: map<Membership, Author>, c: map<Membership, Ref>, r: Ref, own: nat, k: Membership)
    requires k != r.Of()
    ensures var (a, was) := (CutKeep(authors, c[r.Of() := r], own), CutKeep(authors, c, own));
      (k in a <==> k in was) && (k in a ==> a[k] == was[k])
  {
    assert k in c ==> c[r.Of() := r][k] == c[k];
  }

  function EndedOne(a: Author, named: bool): Author {
    if !a.ended && !named then End(a) else a
  }

  /** The records left once what is held no more is dropped. */
  function Left(was: map<Membership, Author>, now: map<Membership, Author>, records: map<(Membership, nat),
      Record>): map<(Membership, nat), Record> {
    map k | k in records && !Dropped(was, now, k) :: records[k]
  }

  lemma LeftNone(authors: map<Membership, Author>, records: map<(Membership, nat), Record>)
    ensures Left(authors, authors, records) == records
  {
  }

  lemma DropMore(was: map<Membership, Author>, before: map<Membership, Author>, after: map<Membership, Author>,
      m: Membership,
                 records: map<(Membership, nat), Record>)
    requires m in was && m in before && m in after && before[m] == was[m] && after == before[m := after[m]]
    requires after[m].held <= before[m].held
    ensures Left(was, before, records) - (set s | s in before[m].held - after[m].held :: (m, s)) ==
      Left(was, after, records)
  {
  }

  lemma EndedAll(moved: map<Membership, Author>, begun: map<Membership, Author>, authors: map<Membership, Author>,
      state: set<Membership>)
    requires begun.Keys == moved.Keys + state && forall m | m in begun :: begun[m] == AuthorAt(moved, m)
    requires authors.Keys == begun.Keys && forall m | m in begun :: authors[m] == EndedOne(begun[m], m in state)
    ensures authors == Ended(moved, state)
  {
  }

  /** Moving cuts and beginning memberships change what is held of none. */
  lemma LeftSame(was: map<Membership, Author>, begun: map<Membership, Author>, now: map<Membership, Author>,
      records: map<(Membership, nat), Record>)
    requires forall m | m in was :: m in begun && begun[m].held == was[m].held
    requires forall m | m in begun && m !in was :: begun[m].held == {}
    requires begun.Keys == now.Keys
    ensures Left(begun, now, records) == Left(was, now, records)
  {
    forall k ensures Dropped(begun, now, k) <==> Dropped(was, now, k) {}
  }

  lemma MovedHeld(was: map<Membership, Author>, c: map<Membership, Ref>, own: nat, state: set<Membership>,
      records: map<(Membership, nat), Record>)
    ensures var moved := CutAuthors(was, c, own);
      Left(moved, Ended(moved, state), records) == Left(was, Ended(moved, state), records)
  {
    var moved := CutAuthors(was, c, own);
    forall k ensures Dropped(moved, Ended(moved, state), k) <==> Dropped(was, Ended(moved, state), k) {}
  }

  lemma CutsSound(g: G, c: map<Membership, Ref>, state: set<Membership>)
    requires Sound(g)
    ensures Sound(Cuts(g, c, state))
  {
    var g' := Cuts(g, c, state);
    forall m | m in g'.authors
      ensures g'.authors[m].delivered <= g'.authors[m].held && 0 !in g'.authors[m].held
      ensures forall s | s in g'.authors[m].Pending() :: Kept(g', m, s)
    {
      if m in g.authors { CutsSoundOne(g, c, state, m); }
    }
  }

  lemma CutsSoundOne(g: G, c: map<Membership, Ref>, state: set<Membership>, m: Membership)
    requires Sound(g) && m in g.authors
    ensures var g' := Cuts(g, c, state);
      && m in g'.authors && g'.authors[m].delivered <= g'.authors[m].held && 0 !in g'.authors[m].held
      && forall s | s in g'.authors[m].Pending() :: Kept(g', m, s)
  {
    var g' := Cuts(g, c, state);
    forall s | s in g'.authors[m].Pending() ensures Kept(g', m, s) {
      assert s in g.authors[m].Pending() && Kept(g, m, s);
    }
  }

  lemma SendSound(g: G, r: Record)
    requires Sound(g) && Sendable(g, r)
    ensures Sound(Send(g, r)) && Send(g, r).authors.Keys == g.authors.Keys
  {
    var a, s := g.authors[g.me], r.header.num;
    var kept := g.(authors := g.authors[g.me := a.(held := a.held + {s}, known := Max(a.known, s))],
      records := g.records[(g.me, s) := r]);
    assert Sound(kept) by {
      forall m | m in kept.authors ensures forall t | t in kept.authors[m].Pending() :: Kept(kept, m, t) {
        forall t | t in kept.authors[m].Pending() ensures Kept(kept, m, t) {
          if (m, t) != (g.me, s) { assert t in g.authors[m].Pending() && Kept(g, m, t); }
        }
      }
    }
    AfterDelivery(kept, Send(g, r), g.me, s);
  }
}
