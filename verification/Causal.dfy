/**
 Causal order over every run: a message delivered after one that requires it was given up, lost, or before this
 session's time when that one was delivered, or that one was released from it.
 */
module Causal {
  import opened Refs
  import opened Held
  import opened Runs
  import opened Baselines

  /** The step at `i` delivers seq `s` of membership `m`. */
  ghost predicate DeliversAt(gs: seq<G>, ls: seq<Label>, i: nat, m: Membership, s: nat)
    requires i < |ls| && |gs| == |ls| + 1
  {
    || (ls[i].Delivering1? && ls[i].of == m && m in gs[i].authors && gs[i].authors[m].Pending() != {}
      && s == gs[i].authors[m].Next())
    || (ls[i].Sending? && m == gs[i].me && s == ls[i].record.header.num)
  }

  /** A delivery: before it the seq was not delivered, and after it it is, at the next index, late if it was given up.
      */
  lemma AtDelivery(gs: seq<G>, ls: seq<Label>, i: nat, m: Membership, s: nat)
    requires Run(gs, ls) && i < |ls| && DeliversAt(gs, ls, i, m, s)
    ensures m in gs[i].authors && s !in gs[i].authors[m].delivered
    ensures m in gs[i + 1].authors && s in gs[i + 1].authors[m].delivered
    ensures Kept(gs[i + 1], m, s) && gs[i + 1].records[(m, s)].delivery.Some?
    ensures gs[i + 1].index == gs[i].index + 1 == gs[i + 1].records[(m, s)].delivery.value.index
    ensures gs[i + 1].records[(m, s)].delivery.value.late <==> s in gs[i].authors[m].givenUp
    ensures gs[i].authors[m].ended ==> s <= gs[i].authors[m].cut
  {
    RunInv(gs, ls, i);
    assert StepAt(gs, ls, i);
    assert Fit(gs[i], m);
    if ls[i].Delivering1? {
      assert s in gs[i].authors[m].Pending();
      assert Kept(gs[i], m, s);
    } else {
      OwnBelow(gs[i]);
    }
  }

  /** What a message requires is resolved as it is delivered, of the memberships then known, but what it was released
      from: past what its author was known to have sent. */
  lemma AtRequirement(gs: seq<G>, ls: seq<Label>, i: nat, m: Membership, s: nat, k: Membership, t: nat)
    requires Run(gs, ls) && i < |ls| && DeliversAt(gs, ls, i, m, s)
    requires (m, s) in gs[i + 1].records && Requires(gs[i + 1].records[(m, s)].header, k, t) && k in gs[i].authors
    ensures || gs[i].authors[k].Resolved(t)
            || (gs[i + 1].records[(m, s)].released && gs[i].authors[k].Evidence() < t)
  {
    AtDelivery(gs, ls, i, m, s);
    RunInv(gs, ls, i);
    assert StepAt(gs, ls, i);
    var h := gs[i + 1].records[(m, s)].header;
    if ls[i].Delivering1? {
      var r := gs[i].records[(m, s)];
      if !(k == m && t < s) {
        var d :| d in h.deps && d.Of() == k && t <= d.num;
        assert Met(gs[i], r, d);
      }
    } else if k == m && t < s {
      assert Fit(gs[i], m);
      OwnBelow(gs[i]);
    } else {
      var d :| d in h.deps && d.Of() == k && t <= d.num;
      assert Fit(gs[i], k);
      assert gs[i].authors[k].Below(d.num);
    }
  }

  /** Causal order: if a message is delivered after one that requires it, then as that one was delivered it was given
      up, so it is marked late, or lost, or from before this session's time, as a header or cut entry read by then says;
      or that one was released from it, past what its author was known to have sent; or its membership was unknown here.
      */
  lemma CausalOrder(gs: seq<G>, ls: seq<Label>, i: nat, m: Membership, s: nat, j: nat, k: Membership, t: nat)
    requires Run(gs, ls) && i < j < |ls|
    requires DeliversAt(gs, ls, i, m, s) && DeliversAt(gs, ls, j, k, t)
    requires (m, s) in gs[i + 1].records && Requires(gs[i + 1].records[(m, s)].header, k, t)
    ensures (k, t) in gs[j + 1].records && gs[j + 1].records[(k, t)].delivery.Some?
    ensures || k !in gs[i].authors
            || (t in gs[i].authors[k].givenUp && gs[j + 1].records[(k, t)].delivery.value.late)
            || t in gs[i].authors[k].lost
            || (t <= gs[i].authors[k].baseline && Early(gs, ls, i, k, t))
            || (gs[i + 1].records[(m, s)].released && gs[i].authors[k].Evidence() < t)
  {
    AtDelivery(gs, ls, j, k, t);
    if k in gs[i].authors {
      AtRequirement(gs, ls, i, m, s, k, t);
      Persists(gs, ls, i, j, k);
      if t <= gs[i].authors[k].baseline { BaselineEarly(gs, ls, i, k, t); }
    }
  }

  /** Indexes order deliveries, and no message is delivered twice. */
  lemma DeliveredOnce(gs: seq<G>, ls: seq<Label>, i: nat, m: Membership, s: nat, j: nat, k: Membership, t: nat)
    requires Run(gs, ls) && i < j < |ls|
    requires DeliversAt(gs, ls, i, m, s) && DeliversAt(gs, ls, j, k, t)
    ensures (m, s) != (k, t)
    ensures (m, s) in gs[i + 1].records && gs[i + 1].records[(m, s)].delivery.Some?
    ensures (k, t) in gs[j + 1].records && gs[j + 1].records[(k, t)].delivery.Some?
    ensures gs[i + 1].records[(m, s)].delivery.value.index < gs[j + 1].records[(k, t)].delivery.value.index
  {
    AtDelivery(gs, ls, i, m, s);
    AtDelivery(gs, ls, j, k, t);
    IndexRises(gs, ls, i + 1, j);
    if (m, s) == (k, t) { Persists(gs, ls, i + 1, j, m); }
  }

  lemma {:induction false} IndexRises(gs: seq<G>, ls: seq<Label>, i: nat, j: nat)
    requires Run(gs, ls) && i <= j < |gs|
    ensures gs[i].index <= gs[j].index
    decreases j
  {
    if i < j {
      IndexRises(gs, ls, i, j - 1);
      assert StepAt(gs, ls, j - 1);
    }
  }
}
