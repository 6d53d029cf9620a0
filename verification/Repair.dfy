/**
 Repair by pull, one group's part: what each holder offers, the one request at a time, what an answer or its absence
 strikes, and that it ends.
 */
module Repair {
  import opened Refs
  import opened Answers

  const TIMEOUT: nat := 10_000
  const LARGE_TIMEOUT: nat := 120_000
  /** How many of a membership's seqs a request asks for. */
  const ASKED: nat := 512

  /** What is known of a member that may be asked: listed in its summary, announced, listed as sealed in this epoch; and
      whether it can be asked now. */
  datatype Holder = Holder(summary: Set, announced: Set, sealed: Set, served: bool)
  datatype Request = Request(holder: Key, asked: Set, epoch: nat, until: nat)
  type Struck = map<(Key, Membership), set<nat>>

  /** `wanted` is everything to ask for, a wait's positions among it; `stale` is asked for only where it is listed as
      sealed. */
  datatype State = State(epoch: nat, wanted: Set, stale: Set, holders: map<Key, Holder>, struck: Struck,
    request: Option<Request>)

  function Union(a: Set, b: Set): (s: Set)
    ensures forall p :: In(p, s) <==> In(p, a) || In(p, b)
  {
    map m | m in a.Keys + b.Keys :: Nums(a, m) + Nums(b, m)
  }

  function StruckOf(struck: Struck, k: Key, m: Membership): set<nat> {
    if (k, m) in struck then struck[(k, m)] else {}
  }

  ghost predicate IsStruck(struck: Struck, k: Key, p: Pos) {
    p.1 in StruckOf(struck, k, p.0)
  }

  function Remains(want: Set, held: Set, struck: Struck, k: Key, m: Membership): (r: set<nat>)
    ensures forall n :: n in r <==> In((m, n), want) && In((m, n), held) && !IsStruck(struck, k, (m, n))
  {
    Nums(want, m) * Nums(held, m) - StruckOf(struck, k, m)
  }

  /** What holder `k` can still be asked of `want`; a membership with nothing left is left out. */
  function Offer(want: Set, held: Set, struck: Struck, k: Key): (o: Set)
    ensures forall p :: In(p, o) <==> In(p, want) && In(p, held) && !IsStruck(struck, k, p)
    ensures forall m | m in o :: o[m] != {}
  {
    map m | m in want && m in held && Remains(want, held, struck, k, m) != {} :: Remains(want, held, struck, k, m)
  }

  function Offered(s: State, k: Key): (o: Set)
    ensures forall m | m in o :: o[m] != {}
    ensures forall p | In(p, o) :: !IsStruck(s.struck, k, p)
  {
    if k !in s.holders then map[]
    else
      var h := s.holders[k];
      Union(Offer(s.wanted, Union(h.summary, h.announced), s.struck, k), Offer(s.stale, h.sealed, s.struck, k))
  }

  /** The lowest `n` of a set. */
  function Lowest(s: set<nat>, n: nat): (r: set<nat>)
    ensures r <= s && |r| == Min(|s|, n) && (|s| <= n ==> r == s)
    ensures s != {} && n > 0 ==> Smallest(s) in r
    ensures forall x, y | x in r && y in s - r :: x < y
    decreases n
  {
    if n == 0 || s == {} then {}
    else
      var x := Smallest(s);
      var rest := Lowest(s - {x}, n - 1);
      assert s - ({x} + rest) == (s - {x}) - rest;
      {x} + rest
  }

  function Asked(o: Set): (a: Set)
    ensures a.Keys == o.Keys && forall p | In(p, a) :: In(p, o)
    ensures forall m | m in o && o[m] != {} :: a[m] != {}
  {
    map m | m in o :: Lowest(o[m], ASKED)
  }

  function Least(o: Set): (p: Pos)
    requires o != map[] && forall m | m in o :: o[m] != {}
    ensures In(p, o) && forall q | In(q, o) && q != p :: Lt(p, q)
  {
    var m := First(o.Keys);
    (m, Smallest(o[m]))
  }

  /** A holder that may be asked now: connected, and with something on offer. */
  predicate Askable(s: State, k: Key) {
    k in s.holders && s.holders[k].served && Offered(s, k) != map[]
  }

  /** The first of two holders to ask: the one offering the lowest, then by key. */
  predicate Sooner(s: State, a: Key, b: Key)
    requires Askable(s, a) && Askable(s, b)
  {
    Precedes(Least(Offered(s, a)), a, Least(Offered(s, b)), b)
  }

  predicate Precedes(p: Pos, a: Key, q: Pos, b: Key) {
    Lt(p, q) || (p == q && a <= b)
  }

  lemma PrecedesOrder(p: Pos, a: Key, q: Pos, b: Key, r: Pos, c: Key)
    ensures Precedes(p, a, q, b) || Precedes(q, b, p, a)
    ensures Precedes(p, a, q, b) && Precedes(q, b, r, c) ==> Precedes(p, a, r, c)
  {}

  function Until(h: Holder, asked: Set, now: nat): nat {
    if Offer(asked, h.announced, map[], 0) != map[] then now + LARGE_TIMEOUT else now + TIMEOUT
  }

  function RequestTo(s: State, k: Key, now: nat): Request
    requires k in s.holders
  {
    var asked := Asked(Offered(s, k));
    Request(k, asked, s.epoch, Until(s.holders[k], asked, now))
  }

  function Wire(asked: Set): (wants: seq<Seqs>)
    ensures ToSet(wants) == asked
  {
    CarriesSet(asked);
    ToSeqs(asked)
  }

  /** The request to make now. */
  ghost predicate Requests(s: State, r: Request, now: nat) {
    && Askable(s, r.holder) && (forall k | Askable(s, k) :: Sooner(s, r.holder, k))
    && r.asked == Asked(Offered(s, r.holder)) && r.epoch == s.epoch
      && r.until == Until(s.holders[r.holder], r.asked, now)
  }

  lemma SoonerOrder(s: State, a: Key, b: Key, c: Key)
    requires Askable(s, a) && Askable(s, b) && Askable(s, c)
    ensures Sooner(s, a, b) || Sooner(s, b, a)
    ensures Sooner(s, a, b) && Sooner(s, b, c) ==> Sooner(s, a, c)
  {
    PrecedesOrder(Least(Offered(s, a)), a, Least(Offered(s, b)), b, Least(Offered(s, c)), c);
  }

  /** The first to ask of some holders. */
  ghost predicate FirstOf(s: State, ks: set<Key>, best: Option<Key>) {
    match best
    case None => forall k | k in ks :: !Askable(s, k)
    case Some(b) => Askable(s, b) && forall k | k in ks && Askable(s, k) :: Sooner(s, b, k)
  }

  lemma BestDecides(s: State, best: Option<Key>)
    requires FirstOf(s, s.holders.Keys, best)
    ensures best.None? <==> NoneAskable(s)
  {}

  ghost predicate NoneAskable(s: State) {
    forall k :: !Askable(s, k)
  }

  lemma FirstGrows(s: State, ks: set<Key>, best: Option<Key>, k: Key)
    requires FirstOf(s, ks, best)
    ensures FirstOf(s, ks + {k}, if Askable(s, k) && (best.None? || !Sooner(s, best.value, k)) then Some(k) else best)
  {
    if Askable(s, k) {
      SoonerOrder(s, k, k, k);
      if best.Some? {
        forall c | c in ks && Askable(s, c) ensures Sooner(s, best.value, k) || Sooner(s, k, c) {
          SoonerOrder(s, k, best.value, c);
        }
      }
    }
  }

  ghost predicate Strikes(was: Struck, now: Struck, k: Key, covered: Set) {
    forall other, m: Membership ::
      StruckOf(now, other, m) == StruckOf(was, other, m) + if other == k then Nums(covered, m) else {}
  }

  /** A request ends, if it does, with an answer of `items` that says it covers `answers`, or with none: what that
      covered is struck for its holder, unless the request is of an earlier epoch. */
  ghost predicate Settled(s: State, ends: bool, items: seq<Item>, answers: seq<Seqs>, t: State) {
    && (ends ==> s.request.Some?)
    && t == s.(request := if ends then None else s.request, struck := t.struck)
    && if ends && s.request.value.epoch == s.epoch
       then Strikes(s.struck, t.struck, s.request.value.holder, Covered(s.request.value.asked, items, answers))
       else t.struck == s.struck
  }

  /** The state once the member's state of the group is another. */
  function Owned(s: State, epoch: nat, wanted: Set, stale: Set, holders: map<Key, Holder>): State {
    State(epoch, wanted, stale, holders, if epoch > s.epoch then map[] else s.struck, s.request)
  }

  /** A later epoch begins afresh: each holder offers all it holds of what is wanted, whatever it was struck for; and
      however the request out of the earlier epoch ends, nothing is struck for it. */
  lemma BeginsAfresh(s: State, epoch: nat, wanted: Set, stale: Set, holders: map<Key, Holder>, k: Key, p: Pos)
    requires epoch > s.epoch && k in holders && (s.request.Some? ==> s.request.value.epoch <= s.epoch)
    ensures var t := Owned(s, epoch, wanted, stale, holders);
      && (In(p, Offered(t, k)) <==>
            || (In(p, wanted) && In(p, Union(holders[k].summary, holders[k].announced)))
            || (In(p, stale) && In(p, holders[k].sealed)))
      && forall items, answers, u | Settled(t, t.request.Some?, items, answers, u) :: u.struck == map[]
  {}

  /** In the same epoch nothing struck is offered again. */
  lemma StaysStruck(s: State, wanted: Set, stale: Set, holders: map<Key, Holder>, k: Key, p: Pos)
    requires IsStruck(s.struck, k, p)
    ensures !In(p, Offered(Owned(s, s.epoch, wanted, stale, holders), k))
  {}

  /** One group's part of the peers a member is connected to or knows of. */
  class Peers {
    var epoch: nat
    var wanted: Set
    var stale: Set
    var holders: map<Key, Holder>
    var struck: Struck
    var request: Option<Request>

    function View(): State
      reads this
    {
      State(epoch, wanted, stale, holders, struck, request)
    }

    constructor (epoch: nat, wanted: Set, stale: Set)
      ensures View() == State(epoch, wanted, stale, map[], map[], None)
    {
      this.epoch, this.wanted, this.stale, holders, struck, request := epoch, wanted, stale, map[], map[], None;
    }

    /** The member's state of the group changed: in a later epoch nothing is struck. */
    method Own(epoch: nat, wanted: Set, stale: Set, holders: map<Key, Holder>)
      modifies this
      ensures View() == Owned(old(View()), epoch, wanted, stale, holders)
    {
      if epoch > this.epoch { struck := map[]; }
      this.epoch, this.wanted, this.stale, this.holders := epoch, wanted, stale, holders;
    }

    /** The connection to a peer ended, or no longer serves the group: its request is dropped. */
    method Drop(peer: Key)
      modifies `request
      ensures request == if old(request).Some? && old(request).value.holder == peer then None else old(request)
    {
      if request.Some? && request.value.holder == peer { request := None; }
    }

    method Strike(k: Key, covered: Set)
      modifies `struck
      ensures Strikes(old(struck), struck, k, covered)
    {
      var todo, done := covered.Keys, {};
      while todo != {}
        invariant todo <= covered.Keys && done == covered.Keys - todo
        invariant forall other, m: Membership ::
          StruckOf(struck, other, m) == StruckOf(old(struck), other, m) + if other == k
            && m in done then covered[m] else {}
        decreases todo
      {
        var m := First(todo);
        struck := struck[(k, m) := StruckOf(struck, k, m) + covered[m]];
        todo, done := todo - {m}, done + {m};
      }
    }

    /** An answer: what it covers is struck, unless it is to a request of an earlier epoch. */
    method Held(peer: Key, items: seq<Item>, answers: seq<Seqs>)
      modifies `request, `struck
      ensures Settled(old(View()), old(request).Some? && old(request).value.holder == peer, items, answers, View())
    {
      if request.Some? && request.value.holder == peer {
        var r := request.value;
        request := None;
        if r.epoch == epoch { Strike(peer, Covered(r.asked, items, answers)); }
      }
    }

    method Timeouts(now: nat)
      modifies `request, `struck
      ensures Settled(old(View()), old(request).Some? && now >= old(request).value.until, [], [], View())
    {
      if request.Some? && now >= request.value.until {
        var r := request.value;
        request := None;
        if r.epoch == epoch { Strike(r.holder, r.asked); }
      }
    }

    /** The holder to ask next. */
    method Best() returns (best: Option<Key>)
      ensures FirstOf(View(), holders.Keys, best)
    {
      best := None;
      var todo := holders.Keys;
      while todo != {}
        invariant todo <= holders.Keys
        invariant FirstOf(View(), holders.Keys - todo, best)
        decreases todo
      {
        var k :| k in todo;
        FirstGrows(View(), holders.Keys - todo, best, k);
        assert holders.Keys - (todo - {k}) == holders.Keys - todo + {k};
        if Askable(View(), k) && (best.None? || !Sooner(View(), best.value, k)) { best := Some(k); }
        todo := todo - {k};
      }
    }

    /** Asks the holder with the lowest on offer for the first `ASKED` of each membership, if no request is out. */
    method Repair(now: nat) returns (wants: Option<seq<Seqs>>)
      modifies `request
      ensures Outcome(old(View()), View(), wants, now)
    {
      if request.Some? { return None; }
      ghost var was := View();
      var best := Best();
      if best.None? {
        BestDecides(was, best);
        return None;
      }
      var asked := Make(best.value, now);
      RequestSteps(was, best.value, now);
      wants := Some(asked);
      assert View() == was.(request := Some(RequestTo(was, best.value, now)));
    }

    /** Makes the request to a holder, and the wants it carries. */
    method Make(k: Key, now: nat) returns (wants: seq<Seqs>)
      requires k in holders
      modifies `request
      ensures request == Some(RequestTo(old(View()), k, now)) && ToSet(wants) == request.value.asked
    {
      var r := RequestTo(View(), k, now);
      request := Some(r);
      wants := Wire(r.asked);
    }
  }

  /** What a round of repair comes to: nothing while a request is out, or when no one can be asked; else the request
      due. */
  ghost predicate Outcome(s: State, t: State, wants: Option<seq<Seqs>>, now: nat) {
    match wants
    case None => t == s && (s.request.Some? || NoneAskable(s))
    case Some(seqs) => s.request.None? && Asks(s, t, now) && ToSet(seqs) == t.request.value.asked
  }

  /** The request to make now is made. */
  ghost predicate Asks(s: State, t: State, now: nat) {
    && t.request.Some? && Requests(s, t.request.value, now)
    && AskStep(s, t.request.value.holder, t.request.value.until, t)
  }

  /** Some holder with something on offer is asked for it: all that the runs need of a request. */
  ghost predicate AskStep(s: State, k: Key, until: nat, t: State) {
    s.request.None? && Askable(s, k) && t == s.(request := Some(Request(k, Asked(Offered(s, k)), s.epoch, until)))
  }

  lemma RequestSteps(s: State, k: Key, now: nat)
    requires s.request.None? && FirstOf(s, s.holders.Keys, Some(k))
    ensures Asks(s, s.(request := Some(RequestTo(s, k, now))), now)
  {}

  // ---------------------------------------------------------------- the request, in terms of what is known

  /** A position a holder may be asked for: wanted and listed or announced by it, or stale and listed as sealed by it;
      and not struck for it. */
  ghost predicate OnOffer(s: State, k: Key, p: Pos) {
    && k in s.holders && !IsStruck(s.struck, k, p)
    && (|| (In(p, s.wanted) && (In(p, s.holders[k].summary) || In(p, s.holders[k].announced)))
        || (In(p, s.stale) && In(p, s.holders[k].sealed)))
  }

  lemma OfferedExact(s: State, k: Key, p: Pos)
    ensures In(p, Offered(s, k)) <==> OnOffer(s, k, p)
  {}

  /** As the member's state changes, what each holder may be asked for is what is then wanted of it, less what it was
      struck for in that very epoch; the request out stays. */
  lemma OwnedOffers(s: State, epoch: nat, wanted: Set, stale: Set, holders: map<Key, Holder>, k: Key, p: Pos)
    ensures var t := Owned(s, epoch, wanted, stale, holders);
      && t.epoch == epoch && t.request == s.request
      && (In(p, Offered(t, k)) <==>
        && k in holders && (IsStruck(s.struck, k, p) ==> epoch > s.epoch)
        && (|| (In(p, wanted) && (In(p, holders[k].summary) || In(p, holders[k].announced)))
            || (In(p, stale) && In(p, holders[k].sealed))))
  {
    OfferedExact(Owned(s, epoch, wanted, stale, holders), k, p);
  }

  lemma AskableExact(s: State, k: Key)
    ensures Askable(s, k) <==> k in s.holders && s.holders[k].served && exists p :: OnOffer(s, k, p)
  {
    var o := Offered(s, k);
    if o != map[] { OfferedExact(s, k, Least(o)); }
    if p :| OnOffer(s, k, p) { OfferedExact(s, k, p); }
  }

  /** `p` is what the holder offers first, no holder that can be asked offers an earlier one, and of those that offer it
      first this one has the lowest key. */
  ghost predicate FirstOnOffer(s: State, holder: Key, p: Pos) {
    && OnOffer(s, holder, p)
    && forall k, q | k in s.holders && s.holders[k].served && OnOffer(s, k, q) :: Lt(p, q) || (p == q && holder <= k)
  }

  /** What a request asks of a membership: the lowest 512 of what is on offer, or all of it. */
  ghost predicate AsksLowest(s: State, holder: Key, asked: Set, m: Membership) {
    && |Nums(asked, m)| <= 512
    && (forall n | n in Nums(asked, m) :: OnOffer(s, holder, (m, n)))
    && forall n | OnOffer(s, holder, (m, n)) && n !in Nums(asked, m) ::
         |Nums(asked, m)| == 512 && forall x | x in Nums(asked, m) :: x < n
  }

  /** The request made: to the holder that offers the first of all, for the lowest of each membership, of this epoch,
      and for 120 seconds if anything it asks for was announced, else for 10. */
  lemma RequestExact(s: State, r: Request, now: nat)
    requires Requests(s, r, now)
    ensures s.holders[r.holder].served && exists p :: FirstOnOffer(s, r.holder, p)
    ensures forall m :: AsksLowest(s, r.holder, r.asked, m)
    ensures r.epoch == s.epoch
    ensures r.until ==
      if exists p :: In(p, r.asked) && In(p, s.holders[r.holder].announced) then now + 120_000 else now + 10_000
  {
    FirstIsOffered(s, r.holder);
    forall m ensures AsksLowest(s, r.holder, r.asked, m) { LowestAsked(s, r.holder, m); }
    UntilExact(s.holders[r.holder], r.asked, now);
  }

  lemma FirstIsOffered(s: State, holder: Key)
    requires Askable(s, holder) && forall k | Askable(s, k) :: Sooner(s, holder, k)
    ensures FirstOnOffer(s, holder, Least(Offered(s, holder)))
  {
    var p := Least(Offered(s, holder));
    OfferedExact(s, holder, p);
    forall k, q | k in s.holders && s.holders[k].served && OnOffer(s, k, q)
      ensures Lt(p, q) || (p == q && holder <= k)
    {
      AskableExact(s, k);
      assert Sooner(s, holder, k);
      FirstAgainst(s, holder, k, q);
    }
  }

  lemma FirstAgainst(s: State, holder: Key, k: Key, q: Pos)
    requires Askable(s, holder) && Askable(s, k) && Sooner(s, holder, k) && OnOffer(s, k, q)
    ensures var p := Least(Offered(s, holder)); Lt(p, q) || (p == q && holder <= k)
  {
    var least := Least(Offered(s, k));
    assert least == q || Lt(least, q) by { OfferedExact(s, k, q); }
    PrecedesPast(Least(Offered(s, holder)), holder, least, k, q);
  }

  lemma PrecedesPast(p: Pos, a: Key, least: Pos, b: Key, q: Pos)
    requires Precedes(p, a, least, b) && (least == q || Lt(least, q))
    ensures Lt(p, q) || (p == q && a <= b)
  {}

  lemma LowestAsked(s: State, holder: Key, m: Membership)
    ensures AsksLowest(s, holder, Asked(Offered(s, holder)), m)
  {
    var o := Offered(s, holder);
    LowestOf(o, m);
    forall n ensures n in Nums(o, m) <==> OnOffer(s, holder, (m, n)) { OfferedExact(s, holder, (m, n)); }
  }

  lemma LowestOf(o: Set, m: Membership)
    ensures var (all, asked) := (Nums(o, m), Nums(Asked(o), m));
      && |asked| <= 512 && asked <= all
      && forall n | n in all && n !in asked :: |asked| == 512 && forall x | x in asked :: x < n
  {
    if m in o {
      var asked := Lowest(o[m], ASKED);
      assert Nums(Asked(o), m) == asked;
      forall n, x | n in o[m] && n !in asked && x in asked ensures x < n { assert n in o[m] - asked; }
    }
  }

  lemma UntilExact(h: Holder, asked: Set, now: nat)
    ensures Until(h, asked, now) == if exists p ::
      In(p, asked) && In(p, h.announced) then now + 120_000 else now + 10_000
  {
    var o := Offer(asked, h.announced, map[], 0);
    if o != map[] { assert In(Least(o), o); }
    if p :| In(p, asked) && In(p, h.announced) { assert In(p, o); }
  }
}
