/**
 What deliveries name missing, and what losses are told: each given-up seq a message's requirements reach is named once,
 and nothing is lost without being queued to be told.
 */
module Missing {
  import opened Refs
  import opened Held
  import opened Steps
  import opened Runs
  import opened Causal

  ghost predicate Names(missing: seq<(Membership, set<nat>)>, k: Membership, t: nat) {
    exists e :: e in missing && e.0 == k && t in e.1
  }

  /** Whether requirements reach a seq. */
  ghost predicate Reaches(reqs: seq<Requirement>, k: Membership, t: nat) {
    exists q :: q in reqs && q.of == k && t <= q.num
  }

  /** A report names exactly the given-up seqs its requirements reach that none named before, and records them. */
  lemma {:induction false} ReportExact(authors: map<Membership, Author>, reqs: seq<Requirement>, k: Membership, t: nat)
    ensures var r := Report(authors, reqs);
      && (Names(r.1, k, t) <==>
        k in authors && t in authors[k].givenUp && t !in authors[k].reported && Reaches(reqs, k, t))
      && (k in authors ==> (t in r.0[k].reported <==> t in authors[k].reported || Names(r.1, k, t)))
    decreases |reqs|
  {
    if reqs != [] {
      var q := reqs[0];
      assert forall p :: p in reqs <==> p == q || p in reqs[1..];
      if q.of !in authors {
        ReportExact(authors, reqs[1..], k, t);
      } else {
        var a := authors[q.of];
        var unnamed := Unreported(a, q.num);
        var next := authors[q.of := a.(reported := a.reported + unnamed)];
        ReportExact(next, reqs[1..], k, t);
        var first := if unnamed == {} then [] else [(q.of, unnamed)];
        var rest := Report(next, reqs[1..]).1;
        assert Report(authors, reqs).1 == first + rest;
        assert Names(first + rest, k, t) <==>
          Names(first, k, t) || Names(rest, k, t) by { NamesConcat(first, rest, k, t); }
        assert Names(first, k, t) <==> k == q.of && t in unnamed by {
          if unnamed != {} { assert (q.of, unnamed) in first; }
        }
      }
    }
  }

  lemma NamesConcat(a: seq<(Membership, set<nat>)>, b: seq<(Membership, set<nat>)>, k: Membership, t: nat)
    ensures Names(a + b, k, t) <==> Names(a, k, t) || Names(b, k, t)
  {
    assert forall e :: e in a + b <==> e in a || e in b;
  }

  ghost function MissingAt(gs: seq<G>, i: nat, m: Membership, s: nat): seq<(Membership, set<nat>)>
    requires i + 1 < |gs| && (m, s) in gs[i + 1].records && gs[i + 1].records[(m, s)].delivery.Some?
  {
    gs[i + 1].records[(m, s)].delivery.value.missing
  }

  /** A delivered chat message of another member names exactly the given-up seqs it requires that no message before it
      named. */
  lemma NamesExactly(gs: seq<G>, ls: seq<Label>, i: nat, m: Membership, s: nat, k: Membership, t: nat)
    requires Run(gs, ls) && i < |ls| && DeliversAt(gs, ls, i, m, s)
    ensures (m, s) in gs[i + 1].records && gs[i + 1].records[(m, s)].delivery.Some?
    ensures var h := gs[i + 1].records[(m, s)].header;
      Names(MissingAt(gs, i, m, s), k, t) <==>
        !h.control && m.key != gs[i].me.key && k in gs[i].authors && t in gs[i].authors[k].givenUp
          && t !in gs[i].authors[k].reported && if t == 0 then Reaches(Requirements(h), k, t) else Requires(h, k, t)
    ensures Names(MissingAt(gs, i, m, s), k, t) ==> k in gs[i + 1].authors && t in gs[i + 1].authors[k].reported
  {
    AtDelivery(gs, ls, i, m, s);
    assert StepAt(gs, ls, i);
    if t > 0 { RequirementsMean(gs[i + 1].records[(m, s)].header, k, t); }
    if ls[i].Delivering1? {
      ReportExact(gs[i].authors, Requirements(gs[i].records[(m, s)].header), k, t);
    }
  }

  /** No seq is named missing by two messages. */
  lemma NamedOnce(gs: seq<G>, ls: seq<Label>, i: nat, m: Membership, s: nat, j: nat, n: Membership, u: nat,
      k: Membership, t: nat)
    requires Run(gs, ls) && i < j < |ls| && DeliversAt(gs, ls, i, m, s) && DeliversAt(gs, ls, j, n, u)
    ensures (m, s) in gs[i + 1].records && gs[i + 1].records[(m, s)].delivery.Some?
    ensures (n, u) in gs[j + 1].records && gs[j + 1].records[(n, u)].delivery.Some?
    ensures !(Names(MissingAt(gs, i, m, s), k, t) && Names(MissingAt(gs, j, n, u), k, t))
  {
    NamesExactly(gs, ls, i, m, s, k, t);
    NamesExactly(gs, ls, j, n, u, k, t);
    if Names(MissingAt(gs, i, m, s), k, t) && Names(MissingAt(gs, j, n, u), k, t) {
      Persists(gs, ls, i + 1, j, k);
    }
  }

  /** A commit leaves nothing of what the last one kept unsettled: it is held or lost, and what is lost is told. */
  lemma CommitSettles(g: G, cut: map<Membership, Ref>, state: set<Membership>, m: Membership, s: nat)
    requires m in g.authors
    ensures var g' := Cuts(Lose(g), cut, state);
      && m in g'.authors
      && (s in g'.authors[m].lost && s !in g.authors[m].lost ==> (m, s) in g'.told)
      && (s in KeepOf(g, m) ==> s in g.authors[m].held || s in g'.authors[m].lost)
  {
    CommitAuthors(g, cut, state);
    assert Committed(g, cut, state, m).lost == g.authors[m].lost + LackingOf(g, m);
  }

  /** A step that loses a seq queues it to be told. */
  lemma LossesTold(g: G, l: Label, g': G, m: Membership, s: nat)
    requires Step(g, l, g') && m in g.authors && m in g'.authors
    ensures s in g'.authors[m].lost && s !in g.authors[m].lost ==> (m, s) in g'.told
  {
    match l
    case Committing(cut, state) => CommitSettles(g, cut, state, m, s);
    case Delivering1(n) => SameRule(g, g', n, g.authors[n].Next(), m);
    case Sending(r) => SendLosesNothing(g, r, m);
    case Opening(id, h, sealed, now) =>
    case GivingUp1(given, freed) =>
    case Unopenable(n, t) =>
    case Telling =>
    case Expiring(gone, drop) =>
  }

  /** A ciphertext too old to open settles its seq: kept, it is then held or lost for good; it alone may become lost,
      only if it was kept and not held, and exactly what becomes lost is queued to be told. Nothing else changes, and
      what is pending stays. */
  lemma UnopenableSettles(g: G, m: Membership, s: nat, k: Membership, t: nat)
    requires k in g.authors
    ensures var g' := Unheld(g, m, s);
      && g' == g.(authors := g'.authors, told := g'.told) && g'.authors.Keys == g.authors.Keys
      && g'.authors[k] == g.authors[k].(lost := g'.authors[k].lost)
      && (t in g'.authors[k].lost <==>
        t in g.authors[k].lost || ((k, t) == (m, s) && t <= g.authors[k].cut && t !in g.authors[k].held))
      && ((k, t) in g'.told <==> (k, t) in g.told || (t in g'.authors[k].lost && t !in g.authors[k].lost))
      && Pending(g') == Pending(g)
    ensures m in g.authors && s <= g.authors[m].cut ==>
      s in Unheld(g, m, s).authors[m].held || Unheld(g, m, s).authors[m].Resolved(s)
  {
    var g' := Unheld(g, m, s);
    assert forall n | n in g.authors :: g'.authors[n].Pending() == g.authors[n].Pending();
  }

  lemma SendLosesNothing(g: G, r: Record, m: Membership)
    requires Sendable(g, r) && m in g.authors
    ensures m in Send(g, r).authors && Send(g, r).authors[m].lost == g.authors[m].lost
  {
  }
}
