/**
 What opening a message and applying a commit do to a membership, in terms of the headers and cut entries themselves;
 and that a baseline only ever covers what a header or an entry says was sent before this session's time.
 */
module Baselines {
  import opened Refs
  import opened Held
  import opened Steps
  import opened Runs

  /** The seqs of a membership that deps name as sent before epoch `own`. */
  ghost function EarlyDeps(deps: seq<Ref>, own: nat, k: Membership): set<nat> {
    set d | d in deps && d.Of() == k && d.epoch < own :: d.num
  }

  ghost function AllDeps(deps: seq<Ref>, k: Membership): set<nat> {
    set d | d in deps && d.Of() == k :: d.num
  }

  /** The seqs of a membership that a header names as sent before epoch `own`: by its deps, or by its prev. */
  ghost function NamedEarly(h: Header, own: nat, k: Membership): set<nat> {
    EarlyDeps(h.deps, own, k) + if k == h.of && h.prev.Some? && h.prev.value.1 < own
      && h.num > 0 then {h.num - 1} else {}
  }

  /** The seqs of a membership that a header shows to be sent: its own, and its deps. */
  ghost function Shown(h: Header, k: Membership): set<nat> {
    AllDeps(h.deps, k) + if k == h.of then {h.num} else {}
  }

  /** The greatest of a number and those named. */
  ghost predicate Greatest(was: nat, named: set<nat>, now: nat) {
    was <= now && (now == was || now in named) && forall n | n in named :: n <= now
  }

  lemma GreatestThen(a: nat, x: set<nat>, b: nat, y: set<nat>, c: nat)
    requires Greatest(a, x, b) && Greatest(b, y, c)
    ensures Greatest(a, x + y, c)
  {}

  /** One membership raised to one seq, or another one. */
  lemma BeforeOne(authors: map<Membership, Author>, m: Membership, n: nat, k: Membership)
    requires k in authors
    ensures var (a, b, one) := (authors[k], Before(authors, m, n)[k], if m == k then {n} else {});
      && Greatest(a.baseline, one, b.baseline) && Greatest(a.known, one, b.known)
      && b.baseline == (if m == k then Max(a.baseline, n) else a.baseline)
  {}

  lemma LearnOne(authors: map<Membership, Author>, m: Membership, n: nat, k: Membership)
    requires k in authors
    ensures var (a, b) := (authors[k], Learn(authors, m, n)[k]);
      && b.baseline == a.baseline && b.known == (if m == k then Max(a.known, n) else a.known)
      && Greatest(a.known, if m == k then {n} else {}, b.known)
  {}

  lemma {:induction false} BeforeDepsExact(authors: map<Membership, Author>, deps: seq<Ref>, own: nat, k: Membership)
    requires k in authors
    ensures var (a, b, early) := (authors[k], BeforeDeps(authors, deps, own)[k], EarlyDeps(deps, own, k));
      Greatest(a.baseline, early, b.baseline) && Greatest(a.known, early, b.known)
    decreases |deps|
  {
    if deps != [] {
      var d := deps[0];
      var next := if d.epoch < own then Before(authors, d.Of(), d.num) else authors;
      var one := if d.Of() == k && d.epoch < own then {d.num} else {};
      BeforeOne(authors, d.Of(), d.num, k);
      BeforeDepsExact(next, deps[1..], own, k);
      DepsFirst(deps, own, k);
      var (a, x, b) := (authors[k], next[k], BeforeDeps(next, deps[1..], own)[k]);
      GreatestThen(a.baseline, one, x.baseline, EarlyDeps(deps[1..], own, k), b.baseline);
      GreatestThen(a.known, one, x.known, EarlyDeps(deps[1..], own, k), b.known);
    }
  }

  lemma DepsFirst(deps: seq<Ref>, own: nat, k: Membership)
    requires deps != []
    ensures var (d, rest) := (deps[0], deps[1..]);
      && EarlyDeps(deps, own, k) == (if d.Of() == k && d.epoch < own then {d.num} else {}) + EarlyDeps(rest, own, k)
      && AllDeps(deps, k) == (if d.Of() == k then {d.num} else {}) + AllDeps(rest, k)
  {
    assert forall x :: x in deps <==> x == deps[0] || x in deps[1..];
  }

  lemma {:induction false} LearnDepsExact(authors: map<Membership, Author>, deps: seq<Ref>, k: Membership)
    requires k in authors
    ensures var (a, b) := (authors[k], LearnDeps(authors, deps)[k]);
      b.baseline == a.baseline && Greatest(a.known, AllDeps(deps, k), b.known)
    decreases |deps|
  {
    if deps != [] {
      var d := deps[0];
      var next := Learn(authors, d.Of(), d.num);
      LearnOne(authors, d.Of(), d.num, k);
      LearnDepsExact(next, deps[1..], k);
      DepsFirst(deps, 0, k);
      var (a, x, b) := (authors[k], next[k], LearnDeps(next, deps[1..])[k]);
      GreatestThen(a.known, if d.Of() == k then {d.num} else {}, x.known, AllDeps(deps[1..], k), b.known);
    }
  }

  /** A message is kept for the first time: of a known membership, at a seq with no record, and not after a record that
      is not its prev. */
  ghost predicate KeepsNew(g: G, h: Header) {
    && h.of in g.authors && (h.of, h.num) !in g.records
    && (h.num > 1 && (h.of, h.num - 1) in g.records ==>
      h.prev.Some? && h.prev.value.0 == g.records[(h.of, h.num - 1)].id)
  }

  /** A message kept already is sealed anew, in a later epoch, and no cut keeps it yet. */
  ghost predicate Reseals(g: G, id: Id, h: Header, sealed: nat) {
    && h.of in g.authors && (h.of, h.num) in g.records && g.authors[h.of].cut < h.num
    && g.records[(h.of, h.num)].id == id
    && (g.records[(h.of, h.num)].sealing.Some? ==> g.records[(h.of, h.num)].sealing.value < sealed)
  }

  /** What opening does: to the records, and to which of three cases it is. */
  lemma OpenExact(g: G, id: Id, h: Header, sealed: nat, now: nat)
    requires h.num >= 1
    ensures var g' := Open(g, id, h, sealed, now);
      && g' == g.(authors := g'.authors, records := g'.records)
      && (KeepsNew(g, h) ==> g'.records == g.records[(h.of, h.num) := Record(id, h, Some(sealed), now, false, None)])
      && (Reseals(g, id, h, sealed) ==>
            && g'.authors == g.authors
            && g'.records == g.records[(h.of, h.num) := g.records[(h.of, h.num)].(sealing := Some(sealed))])
      && (!KeepsNew(g, h) && !Reseals(g, id, h, sealed) ==> g' == g)
  {}

  /** And to each membership as a message is kept: its own is held, what is known is all the header shows, and the
      baseline covers exactly what the header names as sent before this session joined. */
  lemma OpenRaises(g: G, id: Id, h: Header, sealed: nat, now: nat, k: Membership)
    requires h.num >= 1 && KeepsNew(g, h) && k in g.authors
    ensures var (a, b) := (g.authors[k], Open(g, id, h, sealed, now).authors[k]);
      && b == a.(baseline := b.baseline, known := b.known, held := b.held)
      && b.held == (if k == h.of then a.held + {h.num} else a.held)
      && Greatest(a.baseline, NamedEarly(h, g.me.joined, k), b.baseline)
      && Greatest(a.known, Shown(h, k), b.known)
  {
    TakenExact(g, h, k);
  }

  ghost predicate Rises(a: Author, b: Author, h: Header, own: nat, k: Membership) {
    && Greatest(a.baseline, NamedEarly(h, own, k), b.baseline)
    && Greatest(a.known, Shown(h, k), if k == h.of then Max(b.known, h.num) else b.known)
  }

  lemma TakenExact(g: G, h: Header, k: Membership)
    requires h.num >= 1 && k in g.authors
    ensures Rises(g.authors[k], Taken(g, h)[k], h, g.me.joined, k)
  {
    var own := g.me.joined;
    PrevExact(g.authors, h, own, k);
    TakenDepsExact(g.authors[k], BeforePrev(g.authors, h, own), h, own, k);
  }

  lemma PrevExact(authors: map<Membership, Author>, h: Header, own: nat, k: Membership)
    requires h.num >= 1 && k in authors
    ensures var (a, b) := (authors[k], BeforePrev(authors, h, own)[k]);
      && b.baseline ==
        (if k == h.of && h.prev.Some? && h.prev.value.1 < own then Max(a.baseline, h.num - 1) else a.baseline)
      && a.known <= b.known && (b.known == a.known || (k == h.of && b.known == h.num - 1))
  {}

  lemma TakenDepsExact(a: Author, a1: map<Membership, Author>, h: Header, own: nat, k: Membership)
    requires h.num >= 1 && k in a1
    requires a1[k].baseline == if k == h.of && h.prev.Some?
      && h.prev.value.1 < own then Max(a.baseline, h.num - 1) else a.baseline
    requires a.known <= a1[k].known && (a1[k].known == a.known || (k == h.of && a1[k].known == h.num - 1))
    ensures Rises(a, TakenDeps(a1, h, own)[k], h, own, k)
  {
    TakenFrom(a, a1, h, own, k);
  }

  lemma TakenFrom(a: Author, a1: map<Membership, Author>, h: Header, own: nat, k: Membership)
    requires h.num >= 1 && k in a1
    requires a1[k].baseline == if k == h.of && h.prev.Some?
      && h.prev.value.1 < own then Max(a.baseline, h.num - 1) else a.baseline
    requires a.known <= a1[k].known && (a1[k].known == a.known || (k == h.of && a1[k].known == h.num - 1))
    ensures Rises(a, LearnDeps(Learn(BeforeDeps(a1, h.deps, own), h.of, h.num - 1), h.deps)[k], h, own, k)
  {
    var a2 := BeforeDeps(a1, h.deps, own);
    var a3 := Learn(a2, h.of, h.num - 1);
    BeforeDepsExact(a1, h.deps, own, k);
    LearnOne(a2, h.of, h.num - 1, k);
    LearnDepsExact(a3, h.deps, k);
    var b := LearnDeps(a3, h.deps)[k];
    BaselineTo(h, own, k, a.baseline, a1[k].baseline, b.baseline);
    KnownTo(h, own, k, a.known, a1[k].known, a2[k].known, a3[k].known, b.known);
  }

  lemma BaselineTo(h: Header, own: nat, k: Membership, b0: nat, b1: nat, b2: nat)
    requires h.num >= 1 && Greatest(b1, EarlyDeps(h.deps, own, k), b2)
    requires b1 == if k == h.of && h.prev.Some? && h.prev.value.1 < own then Max(b0, h.num - 1) else b0
    ensures Greatest(b0, NamedEarly(h, own, k), b2)
  {
    var prev := if k == h.of && h.prev.Some? && h.prev.value.1 < own then {h.num - 1} else {};
    GreatestThen(b0, prev, b1, EarlyDeps(h.deps, own, k), b2);
    assert NamedEarly(h, own, k) == prev + EarlyDeps(h.deps, own, k);
  }

  lemma KnownTo(h: Header, own: nat, k: Membership, k0: nat, k1: nat, k2: nat, k3: nat, k4: nat)
    requires h.num >= 1 && k0 <= k1 && (k1 == k0 || (k == h.of && k1 == h.num - 1))
    requires Greatest(k1, EarlyDeps(h.deps, own, k), k2) && Greatest(k3, AllDeps(h.deps, k), k4)
    requires k3 == if k == h.of then Max(k2, h.num - 1) else k2
    ensures Greatest(k0, Shown(h, k), if k == h.of then Max(k4, h.num) else k4)
  {
    assert EarlyDeps(h.deps, own, k) <= AllDeps(h.deps, k);
  }

  // ---------------------------------------------------------------- sending

  /** Sending adds one's own next message to what is held, known and delivered, at the next index with nothing named
      missing, and touches nothing else. */
  lemma SendExact(g: G, r: Record)
    requires Sendable(g, r)
    ensures var (a, s) := (g.authors[g.me], r.header.num);
      Send(g, r) == g.(
        authors := g.authors[g.me :=
          a.(held := a.held + {s}, delivered := a.delivered + {s}, known := if a.known < s then s else a.known)],
        records := g.records[(g.me, s) := r.(delivery := Some(Delivery(g.index + 1, [], s in a.givenUp)))],
        index := g.index + 1)
  {}

  // ---------------------------------------------------------------- commits

  /** A membership through a commit: an entry of an epoch before `own` moves the baseline, any other leaves it; what was
      to be held and is not is lost; and one that ends by it keeps of what it did not deliver what its final cut covers.
      */
  ghost predicate CommitMoves(a: Author, keep: set<nat>, entry: Option<Ref>, own: nat, stays: bool, b: Author) {
    && b.baseline == (if entry.Some? && entry.value.epoch < own then Max(a.baseline, entry.value.num) else a.baseline)
    && b.cut == (if entry.Some? then entry.value.num else a.cut)
    && Greatest(a.known, if entry.Some? then {entry.value.num} else {}, b.known)
    && (b.delivered, b.givenUp, b.reported) == (a.delivered, a.givenUp, a.reported)
    && b.lost == a.lost + (keep - a.held)
    && b.ended == (a.ended || !stays)
    && forall s :: s in b.held <==> s in a.held && (s in a.delivered || s <= b.cut || a.ended || stays)
  }

  ghost function EntryOf(cut: map<Membership, Ref>, m: Membership): Option<Ref> {
    if m in cut then Some(cut[m]) else None
  }

  lemma CommitExact(g: G, cut: map<Membership, Ref>, state: set<Membership>, m: Membership)
    requires m in g.authors
    ensures var b := Cuts(Lose(g), cut, state);
      m in b.authors
        && CommitMoves(g.authors[m], KeepOf(g, m), EntryOf(cut, m), g.me.joined, m in state, b.authors[m])
  {
    CommitOne(g, cut, state, m);
    CommittedMoves(g, cut, state, m);
  }

  lemma CommittedMoves(g: G, cut: map<Membership, Ref>, state: set<Membership>, m: Membership)
    requires m in g.authors
    ensures CommitMoves(g.authors[m], KeepOf(g, m), EntryOf(cut, m), g.me.joined, m in state,
      Committed(g, cut, state, m))
  {}

  /** And on the rest: what it keeps anew is what lies past the last cut and the baseline, a membership that begins has
      nothing, records go only with what is dropped, and exactly what is lost by it is to be announced. */
  lemma KeepExact(g: G, cut: map<Membership, Ref>, state: set<Membership>, m: Membership, s: nat)
    requires m in g.authors
    ensures var (a, b) := (g.authors[m], Cuts(Lose(g), cut, state));
      && m in b.authors
      && (s in KeepOf(b, m) <==> m in cut && a.cut < s <= cut[m].num && b.authors[m].baseline < s)
      && ((m, s) in b.told <==> (m, s) in g.told || (m in g.keep && s in g.keep[m] && s !in a.held && s !in a.lost))
      && ((m, s) in b.records <==> (m, s) in g.records && (s in a.held ==> s in b.authors[m].held))
      && ((m, s) in b.records ==> b.records[(m, s)] == g.records[(m, s)])
  {
    CommitOne(g, cut, state, m);
    CommitKeep(g, cut, state, m);
    CommitExact(g, cut, state, m);
  }

  lemma RestExact(g: G, cut: map<Membership, Ref>, state: set<Membership>, m: Membership)
    requires m !in g.authors && m !in cut
    ensures var b := Cuts(Lose(g), cut, state);
      && b == g.(epoch := g.epoch + 1, current := state, authors := b.authors, records := b.records, keep := b.keep,
        told := b.told)
      && (m in b.authors <==> m in state) && KeepOf(b, m) == {}
      && (m in state ==> b.authors[m] == Author(0, 0, false, 0, {}, {}, {}, {}, {}))
  {
    CommitKeys(g, cut, state);
  }

  // ---------------------------------------------------------------- whole runs

  /** A step itself says that a message was sent before epoch `own`: it opens a header that names it, or a later one of
      its membership, as that old; or it reads a cut entry that old which keeps it. */
  ghost predicate SaysEarly(l: Label, own: nat, k: Membership, t: nat) {
    || (l.Opening? && exists n :: n in NamedEarly(l.header, own, k) && t <= n)
    || (l.Committing? && k in l.cut && l.cut[k].epoch < own && t <= l.cut[k].num)
  }

  /** A message before this session's time: the session began past it, or a step before `i` said so. */
  ghost predicate Early(gs: seq<G>, ls: seq<Label>, i: nat, k: Membership, t: nat)
    requires i < |gs| == |ls| + 1
  {
    || (k in gs[0].authors && t <= gs[0].authors[k].baseline)
    || exists n :: 0 <= n < i && SaysEarly(ls[n], gs[0].me.joined, k, t)
  }

  /** A baseline rises only by a step that says what it covers is that old. */
  lemma BaselineStep(g: G, l: Label, g': G, k: Membership, t: nat)
    requires Inv(g) && Step(g, l, g') && k in g'.authors && 1 <= t <= g'.authors[k].baseline
    ensures (k in g.authors && t <= g.authors[k].baseline) || SaysEarly(l, g.me.joined, k, t)
  {
    match l
    case Opening(id, h, sealed, now) => BaselineOpen(g, id, h, sealed, now, k, t);
    case Committing(cut, state) => BaselineCommit(g, cut, state, k, t);
    case Delivering1(m) => SameRule(g, g', m, g.authors[m].Next(), k);
    case Sending(r) =>
    case GivingUp1(given, freed) =>
    case Unopenable(m, s) =>
    case Telling =>
    case Expiring(gone, drop) =>
  }

  lemma BaselineOpen(g: G, id: Id, h: Header, sealed: nat, now: nat, k: Membership, t: nat)
    requires h.num >= 1 && k in g.authors && t <= Open(g, id, h, sealed, now).authors[k].baseline
    ensures t <= g.authors[k].baseline || exists n :: n in NamedEarly(h, g.me.joined, k) && t <= n
  {
    OpenExact(g, id, h, sealed, now);
    if KeepsNew(g, h) { OpenRaises(g, id, h, sealed, now, k); }
  }

  lemma BaselineCommit(g: G, cut: map<Membership, Ref>, state: set<Membership>, k: Membership, t: nat)
    requires Inv(g) && Committable(g, cut, state) && k in Cuts(Lose(g), cut, state).authors
    requires 1 <= t <= Cuts(Lose(g), cut, state).authors[k].baseline
    ensures (k in g.authors && t <= g.authors[k].baseline)
      || (k in cut && cut[k].epoch < g.me.joined && t <= cut[k].num)
  {
    if k in g.authors { CommitExact(g, cut, state, k); } else { RestExact(g, cut, state, k); }
  }

  /** So in every state of every run all that a baseline covers is from before this session's time. */
  lemma {:induction false} BaselineEarly(gs: seq<G>, ls: seq<Label>, i: nat, k: Membership, t: nat)
    requires Run(gs, ls) && i < |gs| && k in gs[i].authors && 1 <= t <= gs[i].authors[k].baseline
    ensures Early(gs, ls, i, k, t)
  {
    if i > 0 {
      BaselineAt(gs, ls, i - 1, k, t);
      if !SaysEarly(ls[i - 1], gs[0].me.joined, k, t) { BaselineEarly(gs, ls, i - 1, k, t); }
    }
  }

  lemma BaselineAt(gs: seq<G>, ls: seq<Label>, i: nat, k: Membership, t: nat)
    requires Run(gs, ls) && i < |ls| && k in gs[i + 1].authors && 1 <= t <= gs[i + 1].authors[k].baseline
    ensures (k in gs[i].authors && t <= gs[i].authors[k].baseline) || SaysEarly(ls[i], gs[0].me.joined, k, t)
  {
    RunInv(gs, ls, i);
    RunAdvances(gs, ls, 0, i);
    assert StepAt(gs, ls, i);
    BaselineStep(gs[i], ls[i], gs[i + 1], k, t);
  }

  /** Each seq up to a membership's cut is from before this session's time, held, recorded lost, or to be held before
      the next commit. */
  lemma KeptOrEarly(gs: seq<G>, ls: seq<Label>, i: nat, m: Membership, s: nat)
    requires Run(gs, ls) && i < |gs| && m in gs[i].authors && 1 <= s <= gs[i].authors[m].cut
    ensures || (s <= gs[i].authors[m].baseline && Early(gs, ls, i, m, s))
            || s in gs[i].authors[m].held || s in gs[i].authors[m].lost || s in KeepOf(gs[i], m)
  {
    if s <= gs[i].authors[m].baseline { BaselineEarly(gs, ls, i, m, s); } else { NothingSkipped(gs, ls, i, m, s); }
  }

  // ---------------------------------------------------------------- what is kept stays accounted for

  ghost predicate Settling(g: G, m: Membership, s: nat)
    requires m in g.authors
  {
    s <= g.authors[m].cut && (s in g.authors[m].held || s in g.authors[m].lost || s in KeepOf(g, m))
  }

  /** A step that keeps a seq anew, by a cut entry sent since this session joined. */
  ghost predicate KeepsSince(g: G, l: Label, m: Membership, s: nat) {
    && l.Committing? && m in l.cut && m in g.authors && g.me.joined <= l.cut[m].epoch
    && Max(g.authors[m].cut, g.authors[m].baseline) < s <= l.cut[m].num
  }

  /** Such a seq is held, lost, or to be held before the next commit, from then on and for good: no later rise of the
      baseline excuses it. */
  lemma {:induction false} KeptForGood(gs: seq<G>, ls: seq<Label>, n: nat, i: nat, m: Membership, s: nat)
    requires Run(gs, ls) && n < i < |gs| && KeepsSince(gs[n], ls[n], m, s) && m in gs[i].authors
    ensures Settling(gs[i], m, s)
    decreases i
  {
    if i == n + 1 {
      KeptAt(gs, ls, n, m, s);
    } else {
      assert m in gs[i - 1].authors by { Persists(gs, ls, n, i, m); }
      KeptForGood(gs, ls, n, i - 1, m, s);
      SettlingAt(gs, ls, i - 1, m, s);
    }
  }

  lemma KeptAt(gs: seq<G>, ls: seq<Label>, n: nat, m: Membership, s: nat)
    requires Run(gs, ls) && n < |ls| && KeepsSince(gs[n], ls[n], m, s)
    ensures m in gs[n + 1].authors && Settling(gs[n + 1], m, s)
  {
    assert StepAt(gs, ls, n);
    SettlingBegins(gs[n], ls[n].cut, ls[n].state, m, s);
  }

  lemma SettlingBegins(g: G, cut: map<Membership, Ref>, state: set<Membership>, m: Membership, s: nat)
    requires m in g.authors && m in cut && g.me.joined <= cut[m].epoch
    requires Max(g.authors[m].cut, g.authors[m].baseline) < s <= cut[m].num
    ensures m in Cuts(Lose(g), cut, state).authors && Settling(Cuts(Lose(g), cut, state), m, s)
  {
    CommitExact(g, cut, state, m);
    KeepExact(g, cut, state, m, s);
  }

  lemma SettlingAt(gs: seq<G>, ls: seq<Label>, i: nat, m: Membership, s: nat)
    requires Run(gs, ls) && i < |ls| && m in gs[i].authors && m in gs[i + 1].authors && Settling(gs[i], m, s)
    ensures Settling(gs[i + 1], m, s)
  {
    RunInv(gs, ls, i);
    assert StepAt(gs, ls, i);
    SettlingStep(gs[i], ls[i], gs[i + 1], m, s);
  }

  lemma SettlingStep(g: G, l: Label, g': G, m: Membership, s: nat)
    requires Inv(g) && Step(g, l, g') && m in g.authors && m in g'.authors && Settling(g, m, s)
    ensures Settling(g', m, s)
  {
    match l
    case Committing(cut, state) => SettlingCommit(g, cut, state, m, s);
    case Delivering1(k) => SameRule(g, g', k, g.authors[k].Next(), m);
    case Opening(id, h, sealed, now) => SettlingOpen(g, g', h, m, s);
    case Sending(r) => SettlingSend(g, r, m, s);
    case GivingUp1(given, freed) =>
    case Unopenable(k, t) =>
    case Telling =>
    case Expiring(gone, drop) =>
  }

  lemma SettlingCommit(g: G, cut: map<Membership, Ref>, state: set<Membership>, m: Membership, s: nat)
    requires Committable(g, cut, state) && m in g.authors && Settling(g, m, s)
    ensures m in Cuts(Lose(g), cut, state).authors && Settling(Cuts(Lose(g), cut, state), m, s)
  {
    CommitExact(g, cut, state, m);
  }

  lemma SettlingOpen(g: G, g': G, h: Header, m: Membership, s: nat)
    requires Opened(g, g', h) && m in g.authors && Settling(g, m, s)
    ensures m in g'.authors && Settling(g', m, s)
  {}

  lemma SettlingSend(g: G, r: Record, m: Membership, s: nat)
    requires Sendable(g, r) && m in g.authors && Settling(g, m, s)
    ensures m in Send(g, r).authors && Settling(Send(g, r), m, s)
  {}

  // ---------------------------------------------------------------- what a cut keeps from before

  /** The second message of a membership that nothing is held of, when it says the first was sent before epoch `own`. */
  ghost predicate SecondOfOld(h: Header, own: nat) {
    WellShaped(h) && h.num == 2 && h.deps == [] && h.prev.value.1 < own
  }

  /** A membership with its second message held, and the first before this session's time. */
  ghost predicate BehindSecond(a: Author) {
    a.baseline == 1 && a.held == {2} && a.lost == {}
  }

  lemma OpensBehind(g: G, id: Id, h: Header, sealed: nat, now: nat)
    requires SecondOfOld(h, g.me.joined) && KeepsNew(g, h) && g.authors[h.of] == NewAuthor(0)
    ensures var g' := Open(g, id, h, sealed, now); h.of in g'.authors && BehindSecond(g'.authors[h.of])
    ensures Open(g, id, h, sealed, now).authors[h.of].cut == 0
  {
    OpenRaises(g, id, h, sealed, now, h.of);
    assert NamedEarly(h, g.me.joined, h.of) == {1};
  }

  /** A cut entry sent since this session joined may keep what was sent before: the first message is then neither held,
      nor lost, nor waited for. */
  lemma FromBefore(g: G, cut: map<Membership, Ref>, state: set<Membership>, of: Membership)
    requires of in g.authors && BehindSecond(g.authors[of]) && g.authors[of].cut == 0 && KeepOf(g, of) == {}
    requires of in cut && cut[of].num == 2 && g.me.joined <= cut[of].epoch && of in state
    ensures var g' := Cuts(Lose(g), cut, state);
      of in g'.authors && g'.authors[of].cut == 2 && BehindSecond(g'.authors[of]) && KeepOf(g', of) == {2}
  {
    CommitExact(g, cut, state, of);
    StaysBehind(g.authors[of], cut[of], g.me.joined, Cuts(Lose(g), cut, state).authors[of]);
    OnlySecond(g, cut, state, of);
  }

  lemma StaysBehind(a: Author, r: Ref, own: nat, b: Author)
    requires BehindSecond(a) && r.num == 2 && own <= r.epoch && CommitMoves(a, {}, Some(r), own, true, b)
    ensures BehindSecond(b) && b.cut == 2
  {}

  lemma OnlySecond(g: G, cut: map<Membership, Ref>, state: set<Membership>, of: Membership)
    requires of in g.authors && g.authors[of].cut == 0 && of in cut && cut[of].num == 2
    requires of in Cuts(Lose(g), cut, state).authors && Cuts(Lose(g), cut, state).authors[of].baseline == 1
    ensures KeepOf(Cuts(Lose(g), cut, state), of) == {2}
  {
    forall s ensures s in KeepOf(Cuts(Lose(g), cut, state), of) <==> s == 2 { KeepExact(g, cut, state, of, s); }
  }

  lemma TwoSteps(g: G, l: Label, g1: G, k: Label, g2: G)
    requires Inv(g) && Step(g, l, g1) && Step(g1, k, g2)
    ensures Run([g, g1, g2], [l, k])
  {
    var gs, ls := [g, g1, g2], [l, k];
    assert StepAt(gs, ls, 0) && StepAt(gs, ls, 1);
  }

  /** Such a run: a session that joins in epoch 1 a group with a membership of epoch 0 opens that one's second message,
      and reads the commit. */
  lemma FromBeforeRuns(me: Membership, of: Membership, id: Id) returns (gs: seq<G>, ls: seq<Label>)
    requires me.joined == 1 && of.joined == 0
    ensures Run(gs, ls) && |ls| == 2 && gs[0] == Joined(me, 1, map[me := 0, of := 0])
    ensures ls[1].Committing? && of in ls[1].cut && ls[1].cut[of].epoch == 1
    ensures of in gs[2].authors && gs[2].authors[of].cut == 2
    ensures 1 !in gs[2].authors[of].held && 1 !in gs[2].authors[of].lost && 1 !in KeepOf(gs[2], of)
  {
    var h := Header(of, 2, 1, Some(([], 0)), [], false);
    var cut := map[me := Ref(me.key, 1, 0, [], 0), of := Ref(of.key, 0, 2, id, 1)];
    JoinedInv(me, 1, map[me := 0, of := 0]);
    var g := Joined(me, 1, map[me := 0, of := 0]);
    var g1 := JoinedOpens(g, me, of, id, h);
    assert Committable(g1, cut, {me, of});
    FromBefore(g1, cut, {me, of}, of);
    TwoSteps(g, Opening(id, h, 1, 0), g1, Committing(cut, {me, of}), Cuts(Lose(g1), cut, {me, of}));
    gs, ls := [g, g1, Cuts(Lose(g1), cut, {me, of})], [Opening(id, h, 1, 0), Committing(cut, {me, of})];
  }

  lemma JoinedOpens(g: G, me: Membership, of: Membership, id: Id, h: Header) returns (g1: G)
    requires me.joined == 1 && of.joined == 0 && g == Joined(me, 1, map[me := 0, of := 0])
    requires SecondOfOld(h, 1) && h.of == of
    ensures Step(g, Opening(id, h, 1, 0), g1) && g1.me == me && g1.current == {me, of} && g1.epoch == 1
    ensures me in g1.authors && g1.authors[me].cut == 0 && KeepOf(g1, of) == {}
    ensures of in g1.authors && BehindSecond(g1.authors[of]) && g1.authors[of].cut == 0
  {
    g1 := Open(g, id, h, 1, 0);
    OpenExact(g, id, h, 1, 0);
    OpensBehind(g, id, h, 1, 0);
    OpenRaises(g, id, h, 1, 0, me);
  }
}
