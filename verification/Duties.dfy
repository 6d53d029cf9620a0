/**
 Building the cut of a commit. Each entry is extended along a chain of records, one seq at a time, as far as
 `Keepable` allows; what comes out passes the validators' checks.
 */
module Duties {
  import opened Refs
  import opened Cuts
  import opened Groups
  import opened Joining
  import opened Held

  /** The id of a membership's message `n`, from an entry on. */
  ghost function IdAt(records: map<(Membership, nat), Record>, was: Ref, n: nat): Id {
    if n == was.num || (was.Of(), n) !in records then was.id else records[(was.Of(), n)].id
  }

  /** Whether message `s` of an entry's membership may be kept after it: held, sealed in this epoch, the first of all or
      chained to the one before it, and of one's own only if another member holds it. */
  ghost predicate KeepsAt(records: map<(Membership, nat), Record>, epoch: nat, me: Key, unheld: Record -> bool,
      was: Ref, s: nat)
    requires s > 0
  {
    && (was.Of(), s) in records
    && var r := records[(was.Of(), s)];
    && r.sealing == Some(epoch)
    && (r.header.prev.Some? <==> s > 1)
    && (s > 1 ==> r.header.prev.value.0 == IdAt(records, was, s - 1))
    && (was.key == me ==> !unheld(r))
  }

  /** An entry moved on along messages that may each be kept, to the last of them. */
  ghost predicate KeepsTo(records: map<(Membership, nat), Record>, epoch: nat, me: Key, unheld: Record -> bool,
      was: Ref, now: Ref) {
    && now.Of() == was.Of() && was.num <= now.num
    && (forall s | was.num < s <= now.num :: KeepsAt(records, epoch, me, unheld, was, s))
    && if now.num == was.num then now == was
       else
         && (was.Of(), now.num) in records
         && now.id == records[(was.Of(), now.num)].id
         && now.epoch == records[(was.Of(), now.num)].header.epoch
  }

  /** And no further than it must: 100,000 on, or before a message that may not be. */
  ghost predicate KeepsAll(records: map<(Membership, nat), Record>, epoch: nat, me: Key, unheld: Record -> bool,
      was: Ref, now: Ref) {
    && KeepsTo(records, epoch, me, unheld, was, now)
    && now.num <= was.num + 100_000
    && (now.num < was.num + 100_000 ==> !KeepsAt(records, epoch, me, unheld, was, now.num + 1))
  }

  /** The cut a commit built now carries: as far as each membership's messages may be kept. It passes the cut checks of
      the rules at every member with this cut state. */
  method CutFor(cut: seq<Ref>, records: map<(Membership, nat), Record>, epoch: nat, me: Key, unheld: Record -> bool)
      returns (built: seq<Ref>)
    requires ByKey(cut)
    requires forall k | k in records :: |records[k].id| == 32
    ensures BuiltFrom(cut, built)
    ensures CutRules(cut, Moved(cut, built)) && MoveAll(cut, Moved(cut, built)) == built
    ensures forall i | 0 <= i < |cut| :: KeepsAll(records, epoch, me, unheld, cut[i], built[i])
  {
    built := [];
    for n := 0 to |cut|
      invariant |built| == n
      invariant forall i | 0 <= i < n :: Advanced(cut[i], built[i])
      invariant forall i | 0 <= i < n :: KeepsAll(records, epoch, me, unheld, cut[i], built[i])
    {
      var kept := Extend(cut[n], records, epoch, me, unheld);
      built := built + [kept];
    }
    BuiltPasses(cut, built);
    Rebuilt(cut, built);
  }

  /** Extends one entry as far as it may be. */
  method Extend(r: Ref, records: map<(Membership, nat), Record>, epoch: nat, me: Key, unheld: Record -> bool)
      returns (kept: Ref)
    requires forall k | k in records :: |records[k].id| == 32
    ensures Advanced(r, kept) && KeepsAll(records, epoch, me, unheld, r, kept)
  {
    kept := r;
    while kept.num < r.num + MAX_CUT_STEP
      invariant r.num <= kept.num <= r.num + MAX_CUT_STEP
      invariant Advanced(r, kept) && KeepsTo(records, epoch, me, unheld, r, kept)
      decreases r.num + MAX_CUT_STEP - kept.num
    {
      if (r.Of(), kept.num + 1) !in records { return; }
      var record := records[(r.Of(), kept.num + 1)];
      var sealed := record.sealing == Some(epoch);
      var chained := if kept.num > 0 then record.header.prev.Some?
        && record.header.prev.value.0 == kept.id else record.header.prev.None?;
      assert kept.id == IdAt(records, r, kept.num);
      if !sealed || !chained || (r.key == me && unheld(record)) { return; }
      kept := kept.(num := kept.num + 1, id := record.id, epoch := record.header.epoch);
    }
  }

  /** So no entry that keeps only such messages, within the step allowed, is further on. */
  lemma KeepsMost(records: map<(Membership, nat), Record>, epoch: nat, me: Key, unheld: Record -> bool, was: Ref,
      now: Ref, other: Ref)
    requires KeepsAll(records, epoch, me, unheld, was, now) && KeepsTo(records, epoch, me, unheld, was, other)
    requires other.num <= was.num + 100_000
    ensures other.num <= now.num
  {}

  ghost predicate Advanced(was: Ref, now: Ref) {
    now.Of() == was.Of() && (now == was || (was.num < now.num <= was.num + MAX_CUT_STEP && WellFormed(now)))
  }
}
