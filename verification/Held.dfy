/**
 One session's held state: the sets of seqs of each membership, the records of messages, the readiness test, and one
 delivery. The readiness test is also given as a monotone rule over sets of deliveries.
 */
module Held {
  import opened Refs

  /** How long, in milliseconds, a held message waits on what is lacking: see `GiveUp`. */
  const HOLD_OFF: nat := 2_000
  const GIVE_UP: nat := 30_000

  /** The state of one membership here, in sets of its seqs. */
  datatype Author = Author(
    baseline: nat, cut: nat, ended: bool, known: nat,
    held: set<nat>, delivered: set<nat>, givenUp: set<nat>, lost: set<nat>, reported: set<nat>)
  {
    /** Holds up no dependent. */
    predicate Resolved(s: nat) {
      || 1 <= s <= baseline
      || s in delivered
      || s in givenUp
      || s in lost
      || (ended && cut < s)
    }

    /** Every seq before `s` is resolved. */
    ghost predicate Below(s: nat) {
      forall t: nat :: 1 <= t < s ==> Resolved(t)
    }

    ghost predicate Through(last: nat) {
      Below(last + 1)
    }

    /** The last seq held. */
    function Last(): nat {
      if held == {} then baseline else Largest(held)
    }

    /** How far the membership itself, or a cut, shows it sent; what others name in deps does not count. */
    function Evidence(): nat {
      Max(Last(), cut)
    }

    function Pending(): set<nat> {
      held - delivered
    }

    /** Its held message next in line. */
    function Next(): nat
      requires Pending() != {}
    {
      Smallest(Pending())
    }
  }

  function NewAuthor(baseline: nat): Author {
    Author(baseline, baseline, false, baseline, {}, {}, {}, {}, {})
  }

  /** A message's header: `control` says its payload is one of the core's own. */
  datatype Header = Header(
    of: Membership, num: nat, epoch: nat, prev: Option<(Id, nat)>, deps: seq<Ref>, control: bool)

  datatype Delivery = Delivery(index: nat, missing: seq<(Membership, set<nat>)>, late: bool)

  datatype Record = Record(
    id: Id, header: Header, sealing: Option<nat>, since: nat, released: bool, delivery: Option<Delivery>)

  /** The held state of a group. `current` names the memberships of this epoch, `keep` the seqs the latest cut kept that
      must be settled by the next, `told` the losses still to be announced. */
  datatype G = G(
    me: Membership, epoch: nat, current: set<Membership>, authors: map<Membership, Author>,
    records: map<(Membership, nat), Record>, index: nat,
    keep: map<Membership, set<nat>>, told: set<(Membership, nat)>)

  /** What a message requires: every seq of a membership up to one. */
  datatype Requirement = Requirement(of: Membership, num: nat)

  function Named(deps: seq<Ref>): (reqs: seq<Requirement>)
    ensures |reqs| == |deps|
    ensures forall i | 0 <= i < |deps| :: reqs[i] == Requirement(deps[i].Of(), deps[i].num)
  {
    seq(|deps|, i requires 0 <= i < |deps| => Requirement(deps[i].Of(), deps[i].num))
  }

  function Requirements(h: Header): seq<Requirement> {
    Named(h.deps) + if h.num > 1 then [Requirement(h.of, h.num - 1)] else []
  }

  /** A message requires seq `s` of a membership. */
  ghost predicate Requires(h: Header, of: Membership, s: nat) {
    && 1 <= s
    && (|| (of == h.of && s < h.num)
        || exists d :: d in h.deps && d.Of() == of && s <= d.num)
  }

  /** How far a dep holds up a record: all the way, or once released as far as its author is known to have sent. */
  function Reach(r: Record, d: Ref, a: Author): nat {
    if r.released then Min(d.num, a.Evidence()) else d.num
  }

  ghost predicate Met(g: G, r: Record, d: Ref) {
    d.Of() in g.authors ==> g.authors[d.Of()].Through(Reach(r, d, g.authors[d.Of()]))
  }

  /** Whether a membership's next held message may be delivered now. */
  ghost predicate Ready(g: G, m: Membership) {
    && m in g.authors
    && g.authors[m].Pending() != {}
    && var s := g.authors[m].Next();
    && g.authors[m].Below(s)
    && (m, s) in g.records
    && forall d | d in g.records[(m, s)].header.deps :: Met(g, g.records[(m, s)], d)
  }

  ghost predicate Quiet(g: G) {
    forall m | m in g.authors :: !Ready(g, m)
  }

  /** Every held message not delivered yet has its record, and seqs count from 1. */
  ghost predicate Sound(g: G) {
    forall m | m in g.authors ::
      && g.authors[m].delivered <= g.authors[m].held
      && 0 !in g.authors[m].held
      && forall s | s in g.authors[m].Pending() :: Kept(g, m, s)
  }

  ghost predicate Kept(g: G, m: Membership, s: nat) {
    (m, s) in g.records && g.records[(m, s)].header.of == m && g.records[(m, s)].header.num == s
  }

  /** What is held and not delivered. */
  function Pending(g: G): (p: set<(Membership, nat)>)
    ensures forall m, s :: (m, s) in p <==> m in g.authors && s in g.authors[m].Pending()
  {
    set m, s | m in g.authors && s in g.authors[m].Pending() :: (m, s)
  }

  function Done(g: G): (d: set<(Membership, nat)>)
    ensures forall m, s :: (m, s) in d <==> m in g.authors && s in g.authors[m].delivered
  {
    set m, s | m in g.authors && s in g.authors[m].delivered :: (m, s)
  }

  // ---------------------------------------------------------------- deliver

  /** Authors that differ at most in what they reported since. */
  ghost predicate Alike(a: map<Membership, Author>, b: map<Membership, Author>) {
    && a.Keys == b.Keys
    && forall m | m in a :: b[m] == a[m].(reported := b[m].reported) && a[m].reported <= b[m].reported
  }

  /** What is given up within a requirement and not named in a `missing` before. */
  function Unreported(a: Author, q: nat): set<nat> {
    set s | s in a.givenUp && s <= q && s !in a.reported
  }

  /** Names, once each, the given-up seqs the requirements reach. */
  function Report(authors: map<Membership, Author>, reqs: seq<Requirement>): (r: (map<Membership, Author>,
      seq<(Membership, set<nat>)>))
    ensures Alike(authors, r.0)
  {
    if reqs == [] then (authors, [])
    else if reqs[0].of !in authors then Report(authors, reqs[1..])
    else
      var a := authors[reqs[0].of];
      var unnamed := Unreported(a, reqs[0].num);
      var rest := Report(authors[reqs[0].of := a.(reported := a.reported + unnamed)], reqs[1..]);
      (rest.0, (if unnamed == {} then [] else [(reqs[0].of, unnamed)]) + rest.1)
  }

  /** A delivery's effect on what is delivered, whatever it reports. */
  ghost predicate Delivers(g: G, g': G, m: Membership, s: nat)
    requires m in g.authors && (m, s) in g.records
  {
    && g' == g.(authors := g'.authors, records := g'.records, index := g.index + 1)
    && Alike(g.authors[m := g.authors[m].(delivered := g.authors[m].delivered + {s})], g'.authors)
    && g'.records.Keys == g.records.Keys
    && (forall k | k in g.records && k != (m, s) :: g'.records[k] == g.records[k])
    && g'.records[(m, s)].delivery.Some?
    && g'.records[(m, s)] == g.records[(m, s)].(delivery := g'.records[(m, s)].delivery)
    && g'.records[(m, s)].delivery.value.index == g'.index
    && g'.records[(m, s)].delivery.value.late == (s in g.authors[m].givenUp)
  }

  /** The state after seq `s` of `m` is delivered: the next index, the `missing` that `Report` names, and `late` from
      what was given up on. */
  function Deliver(g: G, m: Membership, s: nat): (g': G)
    requires m in g.authors && (m, s) in g.records
    ensures Delivers(g, g', m, s)
  {
    var r := g.records[(m, s)];
    var shown := !r.header.control && m.key != g.me.key;
    var named := if shown then Report(g.authors, Requirements(r.header)) else (g.authors, []);
    var a := named.0[m];
    g.(
      authors := named.0[m := a.(delivered := a.delivered + {s})],
      index := g.index + 1,
      records := g.records[(m, s) := r.(delivery := Some(Delivery(g.index + 1, named.1, s in a.givenUp)))])
  }

  function DeliverNext(g: G, m: Membership): (g': G)
    requires m in g.authors && g.authors[m].Pending() != {} && (m, g.authors[m].Next()) in g.records
    ensures Delivers(g, g', m, g.authors[m].Next())
  {
    Deliver(g, m, g.authors[m].Next())
  }

  /** A schedule of deliveries, each of a message ready then, from one state to another. */
  ghost predicate Delivering(g: G, schedule: seq<Membership>, g': G)
    decreases |schedule|
  {
    if schedule == [] then g' == g
    else Ready(g, schedule[0]) && Delivering(DeliverNext(g, schedule[0]), schedule[1..], g')
  }

  // ---------------------------------------------------------------- the readiness rule as a closure

  ghost predicate ResolvedBy(a: Author, m: Membership, done: set<(Membership, nat)>, s: nat) {
    || 1 <= s <= a.baseline
    || (m, s) in done
    || s in a.givenUp
    || s in a.lost
    || (a.ended && a.cut < s)
  }

  ghost predicate BelowBy(a: Author, m: Membership, done: set<(Membership, nat)>, s: nat) {
    forall t: nat :: 1 <= t < s ==> ResolvedBy(a, m, done, t)
  }

  /** The rule: with `done` delivered, seq `s` of `m` may be delivered. It reads nothing of what `g` delivered. */
  ghost predicate Fires(g: G, done: set<(Membership, nat)>, m: Membership, s: nat) {
    && m in g.authors
    && s in g.authors[m].held
    && (forall h | h in g.authors[m].held && h < s :: (m, h) in done)
    && BelowBy(g.authors[m], m, done, s)
    && (m, s) in g.records
    && forall d | d in g.records[(m, s)].header.deps && d.Of() in g.authors ::
         BelowBy(g.authors[d.Of()], d.Of(), done, Reach(g.records[(m, s)], d, g.authors[d.Of()]) + 1)
  }

  /** A set of deliveries the rule adds nothing to. */
  ghost predicate Closed(g: G, done: set<(Membership, nat)>) {
    && Done(g) <= done
    && forall m, s: nat :: Fires(g, done, m, s) ==> (m, s) in done
  }

  /** The least such set. */
  ghost predicate LeastClosed(g: G, done: set<(Membership, nat)>) {
    Closed(g, done) && forall other | Closed(g, other) :: done <= other
  }

  /** The rule is monotone in what is delivered. */
  lemma FiresGrows(g: G, done: set<(Membership, nat)>, more: set<(Membership, nat)>, m: Membership, s: nat)
    requires done <= more && Fires(g, done, m, s)
    ensures Fires(g, more, m, s)
  {
    BelowGrows(g.authors[m], m, done, more, s);
    forall d | d in g.records[(m, s)].header.deps && d.Of() in g.authors
      ensures BelowBy(g.authors[d.Of()], d.Of(), more, Reach(g.records[(m, s)], d, g.authors[d.Of()]) + 1)
    {
      BelowGrows(g.authors[d.Of()], d.Of(), done, more, Reach(g.records[(m, s)], d, g.authors[d.Of()]) + 1);
    }
  }

  lemma BelowGrows(a: Author, m: Membership, done: set<(Membership, nat)>, more: set<(Membership, nat)>, s: nat)
    requires done <= more && BelowBy(a, m, done, s)
    ensures BelowBy(a, m, more, s)
  {
    forall t: nat | 1 <= t < s ensures ResolvedBy(a, m, more, t) { assert ResolvedBy(a, m, done, t); }
  }

  lemma BelowDone(g: G, m: Membership, s: nat)
    requires m in g.authors
    ensures g.authors[m].Below(s) <==> BelowBy(g.authors[m], m, Done(g), s)
  {
    var a := g.authors[m];
    assert forall t: nat :: a.Resolved(t) <==> ResolvedBy(a, m, Done(g), t);
  }

  lemma ReadyFires(g: G, m: Membership)
    requires Ready(g, m)
    ensures Fires(g, Done(g), m, g.authors[m].Next())
    ensures (m, g.authors[m].Next()) !in Done(g)
  {
    var a, s := g.authors[m], g.authors[m].Next();
    forall h | h in a.held && h < s ensures (m, h) in Done(g) {
      assert h !in a.Pending();
    }
    BelowDone(g, m, s);
    forall d | d in g.records[(m, s)].header.deps && d.Of() in g.authors
      ensures BelowBy(g.authors[d.Of()], d.Of(), Done(g), Reach(g.records[(m, s)], d, g.authors[d.Of()]) + 1)
    {
      assert Met(g, g.records[(m, s)], d);
      BelowDone(g, d.Of(), Reach(g.records[(m, s)], d, g.authors[d.Of()]) + 1);
    }
  }

  lemma FiresReady(g: G, m: Membership, s: nat)
    requires Fires(g, Done(g), m, s) && (m, s) !in Done(g)
    ensures Ready(g, m) && g.authors[m].Next() == s
  {
    var a := g.authors[m];
    assert s in a.Pending();
    assert forall t | t in a.Pending() :: (m, t) !in Done(g);
    BelowDone(g, m, s);
    var r := g.records[(m, s)];
    forall d | d in r.header.deps ensures Met(g, r, d) {
      if d.Of() in g.authors {
        BelowDone(g, d.Of(), Reach(r, d, g.authors[d.Of()]) + 1);
      }
    }
  }

  /** The rule in a state after a delivery is the rule before it: it depends on nothing a delivery changes. */
  lemma FiresSame(g: G, g': G, m: Membership, s: nat)
    requires m in g.authors && (m, s) in g.records && Delivers(g, g', m, s)
    ensures forall done, k, t :: Fires(g', done, k, t) <==> Fires(g, done, k, t)
  {
    forall done, k, t ensures Fires(g', done, k, t) <==> Fires(g, done, k, t) {
      FiresSameAt(g, g', m, s, done, k, t);
    }
  }

  lemma SameRule(g: G, g': G, m: Membership, s: nat, k: Membership)
    requires m in g.authors && (m, s) in g.records && Delivers(g, g', m, s)
    ensures k in g.authors <==> k in g'.authors
    ensures k in g.authors ==>
      g'.authors[k] == g.authors[k].(delivered := g'.authors[k].delivered, reported := g'.authors[k].reported)
    ensures k in g.authors ==> g.authors[k].reported <= g'.authors[k].reported
  {
  }

  lemma FiresSameAt(g: G, g': G, m: Membership, s: nat, done: set<(Membership, nat)>, k: Membership, t: nat)
    requires m in g.authors && (m, s) in g.records && Delivers(g, g', m, s)
    ensures Fires(g', done, k, t) <==> Fires(g, done, k, t)
  {
    SameRule(g, g', m, s, k);
    if k in g.authors && (k, t) in g.records {
      var r, r' := g.records[(k, t)], g'.records[(k, t)];
      assert r'.header == r.header && r'.released == r.released;
      forall d | d in r.header.deps && d.Of() in g.authors
        ensures BelowBy(g'.authors[d.Of()], d.Of(), done, Reach(r', d, g'.authors[d.Of()]) + 1)
           <==> BelowBy(g.authors[d.Of()], d.Of(), done, Reach(r, d, g.authors[d.Of()]) + 1)
      {
        SameRule(g, g', m, s, d.Of());
        SameBelow(g.authors[d.Of()], g'.authors[d.Of()], d.Of(), done, Reach(r, d, g.authors[d.Of()]) + 1);
      }
      SameBelow(g.authors[k], g'.authors[k], k, done, t);
    }
  }

  lemma SameBelow(a: Author, b: Author, m: Membership, done: set<(Membership, nat)>, s: nat)
    requires b == a.(delivered := b.delivered, reported := b.reported)
    ensures BelowBy(a, m, done, s) <==> BelowBy(b, m, done, s)
  {
    assert forall t: nat :: ResolvedBy(a, m, done, t) <==> ResolvedBy(b, m, done, t);
  }

  // ---------------------------------------------------------------- in terms of the sets themselves

  /** A seq holds up no dependent: of before the session's time, delivered, given up on, lost, or past a final cut. */
  ghost predicate Settled(a: Author, t: nat) {
    || (1 <= t <= a.baseline) || t in a.delivered || t in a.givenUp || t in a.lost
    || (a.ended && a.cut < t)
  }

  /** A seq is known to be sent: it is within the cut, or not past one that is held, or not past the baseline when none
      is. */
  ghost predicate Sent(a: Author, t: nat) {
    t <= a.cut || (exists h :: h in a.held && t <= h) || (a.held == {} && t <= a.baseline)
  }

  /** What is known to be sent reaches as far as the greatest of the held seqs and the cut, and no further. */
  lemma EvidenceExact(a: Author, t: nat)
    ensures t <= a.Evidence() <==> Sent(a, t)
  {
    if a.held != {} { assert Largest(a.held) in a.held; }
  }

  /** The least seq held and not delivered. */
  ghost predicate IsNext(a: Author, s: nat) {
    s in a.held && s !in a.delivered && forall h | h in a.held && h < s :: h in a.delivered
  }

  lemma NextExact(a: Author, s: nat)
    ensures IsNext(a, s) <==> a.Pending() != {} && a.Next() == s
  {
    if IsNext(a, s) { assert s in a.Pending(); }
    if a.Pending() != {} && a.Next() == s {
      forall h | h in a.held && h < s ensures h in a.delivered { assert h !in a.Pending(); }
    }
  }

  /** A requirement reaches exactly the seqs the header requires. */
  lemma RequirementsMean(h: Header, k: Membership, t: nat)
    requires t >= 1
    ensures (exists q :: q in Requirements(h) && q.of == k && t <= q.num) <==> Requires(h, k, t)
  {
    var (reqs, named) := (Requirements(h), Named(h.deps));
    if d :| d in h.deps && d.Of() == k && t <= d.num {
      var i :| 0 <= i < |h.deps| && h.deps[i] == d;
      assert reqs[i] == named[i] == Requirement(d.Of(), d.num) && reqs[i] in reqs;
    }
    if k == h.of && t < h.num { assert reqs[|h.deps|] == Requirement(h.of, h.num - 1) && reqs[|h.deps|] in reqs; }
    if q :| q in reqs && q.of == k && t <= q.num {
      var i :| 0 <= i < |reqs| && reqs[i] == q;
      if i < |h.deps| { assert named[i] == q && h.deps[i] in h.deps; }
    }
  }

  /** What holds a message up: a seq of its own author before it, or one a dep of it reaches, that is not settled; but
      once it is released, a dep reaches only what is known to be sent. */
  ghost predicate HeldUp(g: G, r: Record, m: Membership, s: nat, k: Membership, t: nat) {
    && k in g.authors && t >= 1 && !Settled(g.authors[k], t)
    && (|| (k == m && t < s)
        || exists d :: d in r.header.deps && d.Of() == k && t <= d.num && (r.released ==> Sent(g.authors[k], t)))
  }

  /** A membership's next message is ready exactly if nothing it requires holds it up. */
  lemma ReadyExact(g: G, m: Membership, s: nat)
    ensures Ready(g, m) && g.authors[m].Next() == s <==>
      && m in g.authors && IsNext(g.authors[m], s) && (m, s) in g.records
      && forall k, t: nat :: !HeldUp(g, g.records[(m, s)], m, s, k, t)
  {
    if m in g.authors && IsNext(g.authors[m], s) && (m, s) in g.records {
      NextExact(g.authors[m], s);
      NotHeldUp(g, m, s, g.records[(m, s)]);
    } else if Ready(g, m) && g.authors[m].Next() == s {
      NextExact(g.authors[m], s);
    }
  }

  lemma NotHeldUp(g: G, m: Membership, s: nat, r: Record)
    requires m in g.authors
    ensures (g.authors[m].Below(s) && forall d | d in r.header.deps :: Met(g, r, d)) <==>
      forall k, t: nat :: !HeldUp(g, r, m, s, k, t)
  {
    if g.authors[m].Below(s) && forall d | d in r.header.deps :: Met(g, r, d) {
      forall k, t: nat ensures !HeldUp(g, r, m, s, k, t) {
        if k in g.authors && t >= 1 {
          var a := g.authors[k];
          EvidenceExact(a, t);
          forall d | d in r.header.deps && d.Of() == k && t <= d.num && (r.released ==> Sent(a, t))
            ensures Settled(a, t)
          {
            assert Met(g, r, d) && t < Reach(r, d, a) + 1 && a.Resolved(t);
          }
          assert k == m && t < s ==> a.Resolved(t);
        }
      }
    }
    if forall k, t: nat :: !HeldUp(g, r, m, s, k, t) {
      forall t: nat | 1 <= t < s ensures g.authors[m].Resolved(t) { assert !HeldUp(g, r, m, s, m, t); }
      forall d | d in r.header.deps && d.Of() in g.authors ensures Met(g, r, d) {
        var a := g.authors[d.Of()];
        forall t: nat | 1 <= t < Reach(r, d, a) + 1 ensures a.Resolved(t) {
          assert !HeldUp(g, r, m, s, d.Of(), t);
          EvidenceExact(a, t);
        }
      }
    }
  }
}
