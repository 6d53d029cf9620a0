/**
 What changes a group's held state: opening and sending messages, deliveries, giving up, commits, losses and expiry; and
 what every step keeps.
 */
module Steps {
  import opened Refs
  import opened Held
  import opened GivingUp

  // ---------------------------------------------------------------- opening

  /** Raises a membership's baseline to `s` at least: what lies behind it is not this session's to hold. */
  function Before(authors: map<Membership, Author>, m: Membership, s: nat): (r: map<Membership, Author>)
    ensures Raised(authors, r)
  {
    if m !in authors then authors
    else authors[m := authors[m].(baseline := Max(authors[m].baseline, s), known := Max(authors[m].known, s))]
  }

  function Learn(authors: map<Membership, Author>, m: Membership, s: nat): (r: map<Membership, Author>)
    ensures Raised(authors, r)
  {
    if m !in authors then authors else authors[m := authors[m].(known := Max(authors[m].known, s))]
  }

  /** Only baselines and what is known moved, and only up. */
  ghost predicate Raised(a: map<Membership, Author>, b: map<Membership, Author>) {
    && a.Keys == b.Keys
    && forall m | m in a ::
         && b[m] == a[m].(baseline := b[m].baseline, known := b[m].known)
         && a[m].baseline <= b[m].baseline
         && a[m].known <= b[m].known
  }

  function BeforeDeps(authors: map<Membership, Author>, deps: seq<Ref>, own: nat): (r: map<Membership, Author>)
    ensures Raised(authors, r)
  {
    if deps == [] then authors
    else BeforeDeps(if deps[0].epoch < own then Before(authors, deps[0].Of(), deps[0].num) else authors, deps[1..], own)
  }

  function LearnDeps(authors: map<Membership, Author>, deps: seq<Ref>): (r: map<Membership, Author>)
    ensures Raised(authors, r)
  {
    if deps == [] then authors else LearnDeps(Learn(authors, deps[0].Of(), deps[0].num), deps[1..])
  }

  /** Seqs count from 1, `prev` is present exactly past the first, and each dep names another membership, none of them
      twice. */
  predicate WellShaped(h: Header) {
    && h.num >= 1
    && (h.prev.Some? <==> h.num > 1)
    && (forall i, j | 0 <= i < j < |h.deps| :: h.deps[i].Of() != h.deps[j].Of())
    && forall d | d in h.deps :: d.Of() != h.of && d.num >= 1
  }

  /** What decrypting it checked: of a membership in the group or just ended, and then within its final cut. */
  predicate Opens(g: G, h: Header) {
    WellShaped(h) && h.of != g.me && (h.of in g.authors ==> g.authors[h.of].ended ==> h.num <= g.authors[h.of].cut)
  }

  /** A message's author and what it names, as it is opened. */
  function Taken(g: G, h: Header): (r: map<Membership, Author>)
    requires h.num >= 1
    ensures Raised(g.authors, r)
  {
    TakenDeps(BeforePrev(g.authors, h, g.me.joined), h, g.me.joined)
  }

  function TakenDeps(authors: map<Membership, Author>, h: Header, own: nat): (r: map<Membership, Author>)
    requires h.num >= 1
    ensures Raised(authors, r)
  {
    LearnDeps(Learn(BeforeDeps(authors, h.deps, own), h.of, h.num - 1), h.deps)
  }

  function BeforePrev(authors: map<Membership, Author>, h: Header, own: nat): (r: map<Membership, Author>)
    requires h.num >= 1
    ensures Raised(authors, r)
  {
    if h.prev.Some? && h.prev.value.1 < own then Before(authors, h.of, h.num - 1) else authors
  }

  /** What opening may change: baselines and what is known rise, one seq is held with its record, or a sealing is newer.
      */
  ghost predicate Opened(g: G, g': G, h: Header) {
    && g' == g.(authors := g'.authors, records := g'.records)
    && g'.authors.Keys == g.authors.Keys
    && (forall k | k in g.records :: k in g'.records && g'.records[k].header == g.records[k].header)
    && forall m | m in g.authors ::
         && g'.authors[m] ==
           g.authors[m].(baseline := g'.authors[m].baseline, known := g'.authors[m].known, held := g'.authors[m].held)
         && g.authors[m].baseline <= g'.authors[m].baseline
         && (|| g'.authors[m].held == g.authors[m].held
             || (m == h.of && g'.authors[m].held == g.authors[m].held + {h.num} && Kept(g', m, h.num)))
  }

  /** Keeps a message not kept before. */
  function Keep(g: G, authors: map<Membership, Author>, r: Record): (g': G)
    requires Raised(g.authors, authors) && r.header.of in g.authors && (r.header.of, r.header.num) !in g.records
    ensures Opened(g, g', r.header)
  {
    var m, s := r.header.of, r.header.num;
    var a := authors[m];
    g.(authors := authors[m := a.(held := a.held + {s}, known := Max(a.known, s))], records := g.records[(m, s) := r])
  }

  /** The state after a header was opened: a new record, a later sealing, or unchanged when it conflicts with a record
      or adds nothing. */
  function Open(g: G, id: Id, h: Header, sealed: nat, now: nat): (g': G)
    requires h.num >= 1
    ensures Opened(g, g', h)
  {
    if h.of !in g.authors then g
    else if (h.of, h.num) in g.records then
      var r := g.records[(h.of, h.num)];
      if r.id != id || h.num <= g.authors[h.of].cut || (r.sealing.Some? && r.sealing.value >= sealed) then g
      else g.(records := g.records[(h.of, h.num) := r.(sealing := Some(sealed))])
    else if h.num > 1 && (h.of, h.num - 1) in g.records
      && (h.prev.None? || h.prev.value.0 != g.records[(h.of, h.num - 1)].id) then g
    else Keep(g, Taken(g, h), Record(id, h, Some(sealed), now, false, None))
  }

  // ---------------------------------------------------------------- losses

  /** The seqs of `keep` still unsettled for a membership. */
  function LackingOf(g: G, m: Membership): set<nat>
    requires m in g.authors
  {
    if m in g.keep then g.keep[m] - g.authors[m].held - g.authors[m].lost else {}
  }

  function AllLacking(g: G): (l: set<(Membership, nat)>)
    ensures forall m, s :: (m, s) in l <==> m in g.authors && s in LackingOf(g, m)
  {
    set m, s | m in g.authors && s in LackingOf(g, m) :: (m, s)
  }

  /** The state with every unsettled seq of `keep` lost and to be announced. */
  function Lose(g: G): G {
    g.(
      authors := map m | m in g.authors :: g.authors[m].(lost := g.authors[m].lost + LackingOf(g, m)),
      told := g.told + AllLacking(g))
  }

  /** The state with one seq within the cut, if not held, lost and to be announced. */
  function Unheld(g: G, m: Membership, s: nat): G {
    if m !in g.authors || s > g.authors[m].cut || s in g.authors[m].held || s in g.authors[m].lost then g
    else g.(authors := g.authors[m := g.authors[m].(lost := g.authors[m].lost + {s})], told := g.told + {(m, s)})
  }

  // ---------------------------------------------------------------- commits

  /** A membership's state once a cut names it at `r`. An entry of an epoch before `own` moves the baseline along with
      the cut. */
  function CutOne(a: Author, r: Ref, own: nat): Author {
    var b := if r.epoch < own then a.(baseline := Max(a.baseline, r.num), known := Max(a.known, r.num)) else a;
    b.(cut := r.num, known := Max(b.known, r.num))
  }

  /** The seqs that such an entry newly keeps and this session must settle. */
  function KeptBy(a: Author, r: Ref, own: nat): set<nat> {
    var b := if r.epoch < own then Max(a.baseline, r.num) else a.baseline;
    Span(Max(a.cut, b) + 1, r.num)
  }

  /** A membership that ended: what is held past its final cut and not delivered is dropped. */
  function End(a: Author): Author {
    a.(ended := true, held := set s | s in a.held && (s in a.delivered || s <= a.cut))
  }

  function AuthorAt(authors: map<Membership, Author>, m: Membership): Author {
    if m in authors then authors[m] else NewAuthor(0)
  }

  function CutAuthors(authors: map<Membership, Author>, cut: map<Membership, Ref>, own: nat): map<Membership, Author> {
    map m | m in authors.Keys + cut.Keys :: if m in cut then CutOne(AuthorAt(authors, m), cut[m], own) else authors[m]
  }

  /** The next `keep`: for each membership the cut names, its newly kept seqs, if any. */
  function CutKeep(authors: map<Membership, Author>, cut: map<Membership, Ref>, own: nat): map<Membership, set<nat>> {
    map m | m in cut && KeptBy(AuthorAt(authors, m), cut[m], own) != {} :: KeptBy(AuthorAt(authors, m), cut[m], own)
  }

  function Ended(authors: map<Membership, Author>, state: set<Membership>): map<Membership, Author> {
    map m | m in authors.Keys + state ::
      if m !in authors then NewAuthor(0)
      else if !authors[m].ended && m !in state then End(authors[m])
      else authors[m]
  }

  /** Held before and not after. */
  predicate Dropped(was: map<Membership, Author>, now: map<Membership, Author>, k: (Membership, nat)) {
    k.0 in was && k.0 in now && k.1 in was[k.0].held && k.1 !in now[k.0].held
  }

  /** The state after a commit with this cut and these memberships: every author moved, begun or ended, the records of
      dropped seqs gone, and `keep` anew. */
  function Cuts(g: G, cut: map<Membership, Ref>, state: set<Membership>): G {
    var authors := Ended(CutAuthors(g.authors, cut, g.me.joined), state);
    g.(
      epoch := g.epoch + 1,
      current := state,
      authors := authors,
      records := map k | k in g.records && !Dropped(g.authors, authors, k) :: g.records[k],
      keep := CutKeep(g.authors, cut, g.me.joined))
  }

  // ---------------------------------------------------------------- sending

  /** Whether this session may send a message: the next of its own membership, naming messages delivered to it. */
  predicate Sendable(g: G, r: Record) {
    && g.me in g.current && g.me in g.authors
    && WellShaped(r.header)
    && r.header.of == g.me
    && r.header.num == g.authors[g.me].Last() + 1
    && !r.released
    && forall d | d in r.header.deps && d.Of() in g.authors :: d.num in g.authors[d.Of()].delivered
  }

  /** The state after one's own next record is added and delivered in one step. */
  function Send(g: G, r: Record): G
    requires Sendable(g, r)
  {
    var a, s := g.authors[g.me], r.header.num;
    var kept := g.(authors := g.authors[g.me := a.(held := a.held + {s}, known := Max(a.known, s))],
      records := g.records[(g.me, s) := r]);
    Deliver(kept, g.me, s)
  }

  // ---------------------------------------------------------------- expiry

  /** Drops delivered messages' records, and ended memberships with nothing left here. */
  predicate Expirable(g: G, gone: set<(Membership, nat)>, drop: set<Membership>) {
    && (forall k | k in gone && k.0 in g.authors :: k.1 !in g.authors[k.0].Pending())
    && forall m | m in drop && m in g.authors ::
      g.authors[m].ended && g.authors[m].held == g.authors[m].delivered && m !in g.keep
  }

  function Expire(g: G, gone: set<(Membership, nat)>, drop: set<Membership>): G {
    g.(authors := g.authors - drop, records := g.records - gone)
  }
}
