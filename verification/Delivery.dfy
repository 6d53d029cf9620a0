/**
 What delivering every ready message reaches: the least set of deliveries closed under the readiness rule, whatever the
 order authors are scanned and ready messages picked in.
 */
module Delivery {
  import opened Refs
  import opened Held

  lemma AfterDelivery(g: G, g': G, m: Membership, s: nat)
    requires m in g.authors && (m, s) in g.records && Delivers(g, g', m, s)
    ensures Done(g') == Done(g) + {(m, s)}
    ensures Pending(g') == Pending(g) - {(m, s)}
    ensures Sound(g) && s in g.authors[m].held ==> Sound(g')
  {
    forall k | k in g.authors
      ensures g'.authors[k].delivered == (if k == m then g.authors[k].delivered + {s} else g.authors[k].delivered)
      ensures g'.authors[k].held == g.authors[k].held
    {
      SameRule(g, g', m, s, k);
    }
    if Sound(g) && s in g.authors[m].held { DeliverySound(g, g', m, s); }
  }

  lemma DeliverySound(g: G, g': G, m: Membership, s: nat)
    requires m in g.authors && (m, s) in g.records && Delivers(g, g', m, s) && Sound(g) && s in g.authors[m].held
    ensures Sound(g')
  {
    forall k | k in g'.authors
      ensures g'.authors[k].delivered <= g'.authors[k].held && 0 !in g'.authors[k].held
      ensures forall t | t in g'.authors[k].Pending() :: Kept(g', k, t)
    {
      SameRule(g, g', m, s, k);
      forall t | t in g'.authors[k].Pending() ensures Kept(g', k, t) {
        assert t in g.authors[k].Pending() && Kept(g, k, t);
      }
    }
  }

  /** A closed set stays closed as the messages it already names are delivered. */
  lemma ClosedAfter(g: G, m: Membership, done: set<(Membership, nat)>)
    requires Ready(g, m) && Closed(g, done)
    ensures Closed(DeliverNext(g, m), done)
  {
    var s, g' := g.authors[m].Next(), DeliverNext(g, m);
    ReadyFires(g, m);
    FiresGrows(g, Done(g), done, m, s);
    AfterDelivery(g, g', m, s);
    FiresSame(g, g', m, s);
  }

  lemma {:induction false} WithinClosed(g: G, schedule: seq<Membership>, g': G, done: set<(Membership, nat)>)
    requires Delivering(g, schedule, g') && Closed(g, done)
    ensures Done(g') <= done
    decreases |schedule|
  {
    if schedule != [] {
      ClosedAfter(g, schedule[0], done);
      WithinClosed(DeliverNext(g, schedule[0]), schedule[1..], g', done);
    }
  }

  /** Deliveries leave the rule as it was. */
  lemma {:induction false} RuleAlong(g: G, schedule: seq<Membership>, g': G, done: set<(Membership, nat)>,
      k: Membership, t: nat)
    requires Delivering(g, schedule, g')
    ensures Fires(g', done, k, t) <==> Fires(g, done, k, t)
    decreases |schedule|
  {
    if schedule != [] {
      FiresSameAt(g, DeliverNext(g, schedule[0]), schedule[0], g.authors[schedule[0]].Next(), done, k, t);
      RuleAlong(DeliverNext(g, schedule[0]), schedule[1..], g', done, k, t);
    }
  }

  /** Nothing delivered is taken back, each step takes one index, and what is held and not delivered shrinks by one a
      step, so every schedule ends. */
  lemma {:induction false} AlongSchedule(g: G, schedule: seq<Membership>, g': G)
    requires Delivering(g, schedule, g')
    ensures Done(g) <= Done(g') && Pending(g') <= Pending(g)
    ensures Pending(g) - Pending(g') == Done(g') - Done(g)
    ensures g'.index == g.index + |schedule|
    ensures |schedule| == |Pending(g)| - |Pending(g')|
    ensures Sound(g) ==> Sound(g')
    decreases |schedule|
  {
    if schedule != [] {
      var m := schedule[0];
      var s, next := g.authors[m].Next(), DeliverNext(g, m);
      assert (m, s) in Pending(g) && (m, s) !in Done(g);
      AfterDelivery(g, next, m, s);
      AlongSchedule(next, schedule[1..], g');
      OneStep(Pending(g), Pending(next), Pending(g'), Done(g), Done(next), Done(g'), (m, s));
    }
  }

  lemma OneStep<T>(p0: set<T>, p1: set<T>, p2: set<T>, d0: set<T>, d1: set<T>, d2: set<T>, x: T)
    requires x in p0 && x !in d0 && p1 == p0 - {x} && d1 == d0 + {x}
    requires d1 <= d2 && p2 <= p1 && p1 - p2 == d2 - d1
    ensures p0 - p2 == d2 - d0 && |p1| == |p0| - 1
  {
    assert p0 - p2 == (p1 - p2) + {x};
    assert d2 - d0 == (d2 - d1) + {x};
  }

  lemma QuietClosed(g: G, schedule: seq<Membership>, g': G)
    requires Delivering(g, schedule, g') && Quiet(g')
    ensures Closed(g, Done(g'))
  {
    AlongSchedule(g, schedule, g');
    forall m, s: nat | Fires(g, Done(g'), m, s) ensures (m, s) in Done(g') {
      RuleAlong(g, schedule, g', Done(g'), m, s);
      if (m, s) !in Done(g') {
        FiresReady(g', m, s);
        assert false;
      }
    }
  }

  /** Delivering until nothing is ready delivers exactly the least closed set: it is closed, and within every other. */
  lemma LeastFixpoint(g: G, schedule: seq<Membership>, g': G)
    requires Delivering(g, schedule, g') && Quiet(g')
    ensures LeastClosed(g, Done(g'))
  {
    QuietClosed(g, schedule, g');
    forall done | Closed(g, done) ensures Done(g') <= done {
      WithinClosed(g, schedule, g', done);
    }
  }

  /** Two schedules that leave nothing ready deliver the same messages, in as many steps. */
  lemma Confluence(g: G, s1: seq<Membership>, g1: G, s2: seq<Membership>, g2: G)
    requires Delivering(g, s1, g1) && Quiet(g1)
    requires Delivering(g, s2, g2) && Quiet(g2)
    ensures Done(g1) == Done(g2) && Pending(g1) == Pending(g2)
    ensures |s1| == |s2| && g1.index == g2.index
  {
    SameDone(g, s1, g1, s2, g2);
    AlongSchedule(g, s1, g1);
    AlongSchedule(g, s2, g2);
    SameRest(Pending(g), Done(g), Pending(g1), Pending(g2), Done(g1));
  }

  lemma SameDone(g: G, s1: seq<Membership>, g1: G, s2: seq<Membership>, g2: G)
    requires Delivering(g, s1, g1) && Quiet(g1)
    requires Delivering(g, s2, g2) && Quiet(g2)
    ensures Done(g1) == Done(g2)
  {
    NoneBeyond(g, s1, g1, s2, g2);
    NoneBeyond(g, s2, g2, s1, g1);
  }

  lemma NoneBeyond(g: G, s1: seq<Membership>, g1: G, s2: seq<Membership>, g2: G)
    requires Delivering(g, s1, g1) && Delivering(g, s2, g2) && Quiet(g2)
    ensures Done(g1) <= Done(g2)
  {
    QuietClosed(g, s2, g2);
    WithinClosed(g, s1, g1, Done(g2));
  }

  lemma SameRest<T>(p: set<T>, d: set<T>, p1: set<T>, p2: set<T>, d': set<T>)
    requires p1 <= p && p2 <= p && p - p1 == d' - d == p - p2
    ensures p1 == p2
  {
    assert p1 == p - (p - p1);
    assert p2 == p - (p - p2);
  }

  /** A message that is ready is among what is delivered. */
  lemma ReadyDelivered(g: G, schedule: seq<Membership>, g': G, m: Membership)
    requires Delivering(g, schedule, g') && Quiet(g') && Ready(g, m)
    ensures (m, g.authors[m].Next()) in Done(g')
  {
    QuietClosed(g, schedule, g');
    ReadyFires(g, m);
    FiresGrows(g, Done(g), Done(g'), m, g.authors[m].Next());
  }

  lemma {:induction false} ScheduleExtends(g: G, schedule: seq<Membership>, g': G, m: Membership)
    requires Delivering(g, schedule, g') && Ready(g', m)
    ensures Delivering(g, schedule + [m], DeliverNext(g', m))
    decreases |schedule|
  {
    if schedule == [] {
      assert [m][1..] == [];
    } else {
      ScheduleExtends(DeliverNext(g, schedule[0]), schedule[1..], g', m);
      var more := schedule + [m];
      assert more[0] == schedule[0] && more[1..] == schedule[1..] + [m];
    }
  }

  lemma ScheduleStep(g: G, schedule: seq<Membership>, at: G, m: Membership)
    requires Delivering(g, schedule, at) && Ready(at, m)
    ensures Delivering(g, schedule + [m], DeliverNext(at, m))
    ensures |Pending(DeliverNext(at, m))| < |Pending(at)|
    ensures Sound(at) ==> Sound(DeliverNext(at, m))
  {
    ScheduleExtends(g, schedule, at, m);
    assert Delivering(at, [m], DeliverNext(at, m)) by { assert [m][1..] == []; }
    AlongSchedule(at, [m], DeliverNext(at, m));
  }
}
