/**
 Runs of repair within an epoch, against honest holders. An answer names no request: one that comes after its request
 timed out or was dropped is taken for the answer to whichever request is out to that holder then. Repair still ends;
 what it may leave unsent is exactly what such an answer was wrongly taken to cover.
 */
module RepairRuns {
  import opened Refs
  import opened Answers
  import opened Repair

  /** Requests whose own answers are still to come, though they are out no more, with their holders. */
  type Owed = seq<(Key, Set)>

  datatype World = World(s: State, owed: Owed)

  /** A holder's answer: what it holds and has ciphertexts of, what it sends from where, and what it says it covers. */
  datatype Reply = Reply(actual: Set, ciphertext: Pos -> Option<Item>, items: seq<Item>, covered: Set, at: seq<Pos>)

  ghost predicate HonestTo(r: Reply, asked: Set) {
    Answers.Honest(asked, r.actual, r.ciphertext, r.items, r.covered, r.at)
  }

  /**
   What happens: wants and holders change in any way; a request is dropped with its connection, or times out, and its
   answer may come yet; it is answered; or an answer owed comes late, number `to` of those.
   */
  datatype Label =
    | Change(wanted: Set, stale: Set, holders: map<Key, Holder>)
    | Dropped
    | Ask(holder: Key, until: nat)
    | Answered(reply: Reply)
    | TimedOut
    | Late(to: nat, reply: Reply)

  ghost predicate Step(w: World, l: Label, w': World) {
    var (s, t) := (w.s, w'.s);
    match l
    case Change(wanted, stale, holders) =>
      t == s.(wanted := wanted, stale := stale, holders := holders) && w'.owed == w.owed
    case Dropped =>
      s.request.Some? && t == s.(request := None) && w'.owed == w.owed + [Out(s)]
    case Ask(k, until) => AskStep(s, k, until, t) && w'.owed == w.owed
    case Answered(reply) =>
      && s.request.Some? && HonestTo(reply, s.request.value.asked)
      && Settled(s, true, reply.items, ToSeqs(reply.covered), t) && w'.owed == w.owed
    case TimedOut =>
      s.request.Some? && Settled(s, true, [], [], t) && w'.owed == w.owed + [Out(s)]
    case Late(to, reply) =>
      && to < |w.owed| && HonestTo(reply, w.owed[to].1)
      && Settled(s, Meets(w, l), reply.items, ToSeqs(reply.covered), t)
      && w'.owed == if Meets(w, l) then w.owed[to := Out(s)] else w.owed[..to] + w.owed[to + 1..]
  }

  /** The request out, as one owed an answer. */
  function Out(s: State): (Key, Set)
    requires s.request.Some?
  {
    (s.request.value.holder, s.request.value.asked)
  }

  /** Whether a late answer comes while a request is out to its holder, which it then ends. */
  predicate Meets(w: World, l: Label) {
    l.Late? && l.to < |w.owed| && w.s.request.Some? && w.s.request.value.holder == w.owed[l.to].0
  }

  /** A request of this epoch is settled by its own answer, or by none. */
  predicate Timely(w: World, l: Label) {
    (l.Answered? || l.TimedOut?) && w.s.request.Some? && w.s.request.value.epoch == w.s.epoch
  }

  /** It is settled by another's answer. */
  predicate Mistaken(w: World, l: Label) {
    Meets(w, l) && w.s.request.value.epoch == w.s.epoch
  }

  predicate Settles(w: World, l: Label) {
    Timely(w, l) || Mistaken(w, l)
  }

  // ---------------------------------------------------------------- what every step keeps

  ghost predicate Asking(asked: Set) {
    exists p: Pos :: In(p, asked)
  }

  /** Nothing of a request is struck. */
  ghost predicate Untouched(struck: Struck, k: Key, asked: Set) {
    forall p: Pos | In(p, asked) :: !IsStruck(struck, k, p)
  }

  ghost predicate Inv(w: World) {
    && (w.s.request.Some? ==> Asking(Out(w.s).1) && Untouched(w.s.struck, Out(w.s).0, Out(w.s).1))
    && forall i | 0 <= i < |w.owed| :: Asking(w.owed[i].1)
  }

  lemma AskInv(s: State, k: Key)
    requires Askable(s, k)
    ensures Asking(Asked(Offered(s, k))) && Untouched(s.struck, k, Asked(Offered(s, k)))
  {
    var p := Least(Offered(s, k));
    var n :| n in Asked(Offered(s, k))[p.0];
    assert In((p.0, n), Asked(Offered(s, k)));
  }

  lemma StepInv(w: World, l: Label, w': World)
    requires Inv(w) && Step(w, l, w')
    ensures Inv(w') && w'.s.epoch == w.s.epoch
  {
    if l.Ask? { AskInv(w.s, l.holder); }
  }

  /** And so does the beginning of another epoch. */
  lemma EpochInv(w: World, epoch: nat, wanted: Set, stale: Set, holders: map<Key, Holder>)
    requires Inv(w)
    ensures Inv(World(Owned(w.s, epoch, wanted, stale, holders), w.owed))
  {}

  // ---------------------------------------------------------------- what is struck

  type Pair = (Key, Pos)

  /** Everything on offer, and what the requests out and owed ask for, is of these. */
  ghost predicate OfThese(w: World, all: set<Pair>) {
    && (forall k: Key, p: Pos | In(p, Offered(w.s, k)) :: (k, p) in all)
    && (w.s.request.Some? ==> Of(Out(w.s), all))
    && forall i | 0 <= i < |w.owed| :: Of(w.owed[i], all)
  }

  ghost predicate Of(x: (Key, Set), all: set<Pair>) {
    forall p: Pos | In(p, x.1) :: (x.0, p) in all
  }

  ghost function Unstruck(all: set<Pair>, struck: Struck): (r: set<Pair>)
    ensures forall x: Pair :: x in r <==> x in all && !IsStruck(struck, x.0, x.1)
  {
    set x | x in all && !IsStruck(struck, x.0, x.1)
  }

  /** What a settled request strikes. */
  function Marks(w: World, l: Label): Set
    requires Settles(w, l)
  {
    match l
    case Answered(reply) => Covered(w.s.request.value.asked, reply.items, ToSeqs(reply.covered))
    case Late(to, reply) => Covered(w.s.request.value.asked, reply.items, ToSeqs(reply.covered))
    case _ => w.s.request.value.asked
  }

  lemma SettleStrikes(w: World, l: Label, w': World)
    requires Step(w, l, w')
    ensures if Settles(w, l) then Strikes(w.s.struck, w'.s.struck, Out(w.s).0, Marks(w, l))
            else w'.s.struck == w.s.struck
  {}

  /** Its own answer, or none, strikes something it asked for and nothing else; what it strikes for an answer is what
      that covered. */
  lemma TimelyMarks(w: World, l: Label, w': World)
    requires Inv(w) && Step(w, l, w') && Timely(w, l)
    ensures exists p: Pos :: In(p, Out(w.s).1) && In(p, Marks(w, l))
    ensures Marks(w, l) == if l.Answered? then l.reply.covered else Out(w.s).1
    ensures forall p: Pos | In(p, Marks(w, l)) :: In(p, Out(w.s).1)
  {
    var asked := Out(w.s).1;
    if l.Answered? {
      var r := l.reply;
      CarriesSet(asked);
      StruckIsCovered(asked, r.actual, r.ciphertext, r.items, r.covered, r.at);
      CoversSome(asked, r.actual, r.ciphertext, r.items, r.covered, r.at);
    }
  }

  /** Another's answer strikes all of the request if it is short, and else what it covered. */
  lemma MistakenMarks(w: World, l: Label, w': World)
    requires Inv(w) && Step(w, l, w') && Mistaken(w, l)
    ensures exists p: Pos :: In(p, w.owed[l.to].1) && In(p, l.reply.covered)
    ensures forall p: Pos | In(p, l.reply.covered) :: In(p, w.owed[l.to].1)
    ensures Marks(w, l) == if Bytes(l.reply.items) < ANSWER then Out(w.s).1 else l.reply.covered
  {
    var r := l.reply;
    CoversSome(w.owed[l.to].1, r.actual, r.ciphertext, r.items, r.covered, r.at);
    CarriesSet(r.covered);
  }

  // ---------------------------------------------------------------- repair ends

  lemma StrikesShrink(was: Struck, now: Struck, k: Key, marks: Set, all: set<Pair>)
    requires Strikes(was, now, k, marks)
    ensures Unstruck(all, now) <= Unstruck(all, was)
    ensures forall p: Pos | In(p, marks) && !IsStruck(was, k, p) && (k, p) in all ::
      |Unstruck(all, now)| < |Unstruck(all, was)|
  {
    forall x: Pair | x in Unstruck(all, now) ensures x in Unstruck(all, was) {
      assert StruckOf(was, x.0, x.1.0) <= StruckOf(now, x.0, x.1.0);
    }
    forall p: Pos | In(p, marks) && !IsStruck(was, k, p)
      && (k, p) in all ensures |Unstruck(all, now)| < |Unstruck(all, was)| {
      assert StruckOf(now, k, p.0) == StruckOf(was, k, p.0) + Nums(marks, p.0);
      Shrinks(Unstruck(all, now), Unstruck(all, was), (k, p));
    }
  }

  /** A request settled by its own answer, or by none, leaves fewer positions unstruck; no step leaves more. */
  lemma StepShrinks(w: World, l: Label, w': World, all: set<Pair>)
    requires Inv(w) && Step(w, l, w') && OfThese(w, all)
    ensures |Unstruck(all, w'.s.struck)| + (if Timely(w, l) then 1 else 0) <= |Unstruck(all, w.s.struck)|
  {
    SettleStrikes(w, l, w');
    if Settles(w, l) {
      StrikesShrink(w.s.struck, w'.s.struck, Out(w.s).0, Marks(w, l), all);
      SubsetSize(Unstruck(all, w'.s.struck), Unstruck(all, w.s.struck));
    }
    if Timely(w, l) { TimelyMarks(w, l, w'); }
  }

  /** One settled by another's answer leaves fewer exactly if that answer is short, or covered something not struck. */
  lemma MistakenShrinks(w: World, l: Label, w': World, all: set<Pair>)
    requires Inv(w) && Step(w, l, w') && OfThese(w, all) && Mistaken(w, l)
    ensures |Unstruck(all, w'.s.struck)| < |Unstruck(all, w.s.struck)| <==>
      Bytes(l.reply.items) < ANSWER || !NothingLeft(w, l)
    ensures Bytes(l.reply.items) >= ANSWER && NothingLeft(w, l) ==> SameStruck(w.s.struck, w'.s.struck)
  {
    var (k, asked0) := w.owed[l.to];
    SettleStrikes(w, l, w');
    MistakenMarks(w, l, w');
    StrikesShrink(w.s.struck, w'.s.struck, k, Marks(w, l), all);
    assert Of(w.owed[l.to], all) && Of(Out(w.s), all);
    if Bytes(l.reply.items) >= ANSWER && NothingLeft(w, l) {
      NothingNew(w.s.struck, w'.s.struck, k, l.reply.covered);
      assert Unstruck(all, w'.s.struck) == Unstruck(all, w.s.struck);
    }
  }

  /** All that a late answer covered is struck already. */
  ghost predicate NothingLeft(w: World, l: Label)
    requires Mistaken(w, l)
  {
    forall p: Pos | In(p, l.reply.covered) :: IsStruck(w.s.struck, w.owed[l.to].0, p)
  }

  ghost predicate SameStruck(a: Struck, b: Struck) {
    forall k: Key, m: Membership :: StruckOf(a, k, m) == StruckOf(b, k, m)
  }

  lemma NothingNew(was: Struck, now: Struck, k: Key, marks: Set)
    requires Strikes(was, now, k, marks) && forall p: Pos | In(p, marks) :: IsStruck(was, k, p)
    ensures SameStruck(was, now)
  {
    forall other: Key, m: Membership ensures StruckOf(was, other, m) == StruckOf(now, other, m) {
      forall n | n in Nums(marks, m) ensures n in StruckOf(was, k, m) { assert In((m, n), marks); }
    }
  }

  /** How many of the requests owed an answer are in part struck: only their answers may strike nothing new. */
  ghost function Spoiled(owed: Owed, struck: Struck): nat {
    if owed == [] then 0 else Spoiled(owed[..|owed| - 1], struck) + SpoiledOne(owed[|owed| - 1], struck)
  }

  ghost function SpoiledOne(x: (Key, Set), struck: Struck): nat {
    if Untouched(struck, x.0, x.1) then 0 else 1
  }

  lemma {:induction false} SpoiledAtMost(owed: Owed, struck: Struck)
    ensures Spoiled(owed, struck) <= |owed|
    decreases |owed|
  {
    if owed != [] { SpoiledAtMost(owed[..|owed| - 1], struck); }
  }

  lemma SpoiledPush(owed: Owed, x: (Key, Set), struck: Struck)
    ensures Spoiled(owed + [x], struck) == Spoiled(owed, struck) + SpoiledOne(x, struck)
  {
    assert (owed + [x])[..|owed|] == owed;
  }

  lemma {:induction false} SpoiledSet(owed: Owed, i: nat, x: (Key, Set), struck: Struck)
    requires i < |owed|
    ensures Spoiled(owed[i := x], struck) + SpoiledOne(owed[i], struck) == Spoiled(owed, struck) + SpoiledOne(x, struck)
    decreases |owed|
  {
    var n := |owed| - 1;
    if i == n {
      assert owed[i := x][..n] == owed[..n];
    } else {
      assert owed[i := x][..n] == owed[..n][i := x];
      SpoiledSet(owed[..n], i, x, struck);
    }
  }

  lemma {:induction false} SpoiledDrop(owed: Owed, i: nat, struck: Struck)
    requires i < |owed|
    ensures Spoiled(owed[..i] + owed[i + 1..], struck) <= Spoiled(owed, struck)
    decreases |owed|
  {
    var n := |owed| - 1;
    var less := owed[..i] + owed[i + 1..];
    if i == n {
      assert less == owed[..n];
    } else {
      assert less == (owed[..n][..i] + owed[..n][i + 1..]) + [owed[n]];
      SpoiledDrop(owed[..n], i, struck);
      SpoiledPush(owed[..n][..i] + owed[..n][i + 1..], owed[n], struck);
    }
  }

  lemma {:induction false} SpoiledSame(owed: Owed, a: Struck, b: Struck)
    requires SameStruck(a, b)
    ensures Spoiled(owed, a) == Spoiled(owed, b)
    decreases |owed|
  {
    if owed != [] {
      var x := owed[|owed| - 1];
      SpoiledSame(owed[..|owed| - 1], a, b);
      assert forall p: Pos :: IsStruck(a, x.0, p) <==> IsStruck(b, x.0, p);
    }
  }

  /** What falls with every settlement, while at most `n` answers are owed. */
  ghost function Potential(w: World, all: set<Pair>, n: nat): nat {
    |Unstruck(all, w.s.struck)| * (n + 1) + Spoiled(w.owed, w.s.struck)
  }

  lemma Less(u: nat, v: nat, n: nat, x: nat, y: nat)
    requires v < u && y <= n
    ensures v * (n + 1) + y + 1 <= u * (n + 1) + x
  {
    NoMore(u, v + 1, n);
    assert (v + 1) * (n + 1) == v * (n + 1) + (n + 1);
  }

  lemma NoMore(u: nat, v: nat, n: nat)
    requires v <= u
    ensures v * (n + 1) <= u * (n + 1)
  {}

  /** A late answer that strikes nothing new was owed to a spoiled request, and leaves in its place one that is not. */
  lemma IdleFalls(w: World, l: Label, w': World, all: set<Pair>)
    requires Inv(w) && Step(w, l, w') && OfThese(w, all) && Mistaken(w, l) && Bytes(l.reply.items) >= ANSWER
    requires NothingLeft(w, l)
    ensures Spoiled(w'.owed, w'.s.struck) + 1 == Spoiled(w.owed, w.s.struck)
  {
    MistakenShrinks(w, l, w', all);
    MistakenMarks(w, l, w');
    SpoiledSame(w'.owed, w.s.struck, w'.s.struck);
    SpoiledSet(w.owed, l.to, Out(w.s), w.s.struck);
    var p: Pos :| In(p, w.owed[l.to].1) && In(p, l.reply.covered);
    assert IsStruck(w.s.struck, w.owed[l.to].0, p);
  }

  /** A step that settles nothing strikes nothing, and spoils nothing. */
  lemma OtherStep(w: World, l: Label, w': World)
    requires Inv(w) && Step(w, l, w') && !Settles(w, l)
    ensures w'.s.struck == w.s.struck && Spoiled(w'.owed, w'.s.struck) <= Spoiled(w.owed, w.s.struck)
  {
    SettleStrikes(w, l, w');
    match l
    case Dropped => SpoiledPush(w.owed, Out(w.s), w.s.struck);
    case TimedOut => SpoiledPush(w.owed, Out(w.s), w.s.struck);
    case Late(to, reply) =>
      if Meets(w, l) { SpoiledSet(w.owed, to, Out(w.s), w.s.struck); } else { SpoiledDrop(w.owed, to, w.s.struck); }
    case _ =>
  }

  lemma StepFalls(w: World, l: Label, w': World, all: set<Pair>, n: nat)
    requires Inv(w) && Step(w, l, w') && OfThese(w, all) && |w'.owed| <= n
    ensures Potential(w', all, n) + (if Settles(w, l) then 1 else 0) <= Potential(w, all, n)
  {
    var (u, v) := (|Unstruck(all, w.s.struck)|, |Unstruck(all, w'.s.struck)|);
    var (x, y) := (Spoiled(w.owed, w.s.struck), Spoiled(w'.owed, w'.s.struck));
    StepShrinks(w, l, w', all);
    SpoiledAtMost(w'.owed, w'.s.struck);
    NoMore(u, v, n);
    if v < u {
      Less(u, v, n, x, y);
    } else if Mistaken(w, l) {
      MistakenShrinks(w, l, w', all);
      IdleFalls(w, l, w', all);
    } else {
      OtherStep(w, l, w');
    }
  }

  // ---------------------------------------------------------------- whole runs

  ghost predicate Path(ws: seq<World>, ls: seq<Label>) {
    |ws| == |ls| + 1 && forall i | 0 <= i < |ls| :: StepAt(ws, ls, i)
  }

  ghost predicate StepAt(ws: seq<World>, ls: seq<Label>, i: nat)
    requires i < |ls| && |ws| == |ls| + 1
  {
    Step(ws[i], ls[i], ws[i + 1])
  }

  lemma PathRest(ws: seq<World>, ls: seq<Label>)
    requires Path(ws, ls) && ls != []
    ensures Step(ws[0], ls[0], ws[1]) && Path(ws[1..], ls[1..]) && ws[1..][|ls| - 1] == ws[|ls|]
  {
    forall i | 0 <= i < |ls[1..]| ensures StepAt(ws[1..], ls[1..], i) { assert StepAt(ws, ls, i + 1); }
    assert StepAt(ws, ls, 0);
  }

  /** How many requests of the epoch are settled along a run. */
  function Settlements(ws: seq<World>, ls: seq<Label>): nat
    requires |ws| == |ls| + 1
    decreases |ls|
  {
    if ls == [] then 0 else Settlements(ws[1..], ls[1..]) + if Settles(ws[0], ls[0]) then 1 else 0
  }

  /** How many of them by their own answer, or by none. */
  function TimelyOnes(ws: seq<World>, ls: seq<Label>): nat
    requires |ws| == |ls| + 1
    decreases |ls|
  {
    if ls == [] then 0 else TimelyOnes(ws[1..], ls[1..]) + if Timely(ws[0], ls[0]) then 1 else 0
  }

  /** How many requests time out or are dropped. */
  function Unanswered(ls: seq<Label>): nat {
    if ls == [] then 0 else Unanswered(ls[1..]) + if ls[0].TimedOut? || ls[0].Dropped? then 1 else 0
  }

  lemma OwedGrows(w: World, l: Label, w': World)
    requires Step(w, l, w')
    ensures |w'.owed| <= |w.owed| + if l.TimedOut? || l.Dropped? then 1 else 0
  {}

  ghost predicate AllOfThese(ws: seq<World>, all: set<Pair>) {
    forall w | w in ws :: OfThese(w, all)
  }

  lemma OfTheseFirst(ws: seq<World>, all: set<Pair>)
    requires AllOfThese(ws, all) && ws != []
    ensures OfThese(ws[0], all) && AllOfThese(ws[1..], all)
  {
    assert forall w | w in ws[1..] :: w in ws;
  }

  lemma {:induction false} PotentialFalls(ws: seq<World>, ls: seq<Label>, all: set<Pair>, n: nat)
    requires Path(ws, ls) && Inv(ws[0]) && AllOfThese(ws, all) && |ws[0].owed| + Unanswered(ls) <= n
    ensures Settlements(ws, ls) + Potential(ws[|ls|], all, n) <= Potential(ws[0], all, n)
    decreases |ls|
  {
    if ls != [] {
      PathRest(ws, ls);
      OfTheseFirst(ws, all);
      StepInv(ws[0], ls[0], ws[1]);
      OwedGrows(ws[0], ls[0], ws[1]);
      StepFalls(ws[0], ls[0], ws[1], all, n);
      PotentialFalls(ws[1..], ls[1..], all, n);
    }
  }

  /** Repair ends: however wants and holders change and whenever answers come, an epoch settles no more requests than
      its positions on offer, counted by holder, times one more than the answers that are or become owed, and as many
      again. With none owed it is no more than the positions on offer. */
  lemma RepairEnds(ws: seq<World>, ls: seq<Label>, all: set<Pair>)
    requires Path(ws, ls) && Inv(ws[0]) && AllOfThese(ws, all)
    ensures var (first, last) := (|Unstruck(all, ws[0].s.struck)|, |Unstruck(all, ws[|ls|].s.struck)|);
      Settlements(ws, ls) + last <= first * (|ws[0].owed| + Unanswered(ls) + 1) + |ws[0].owed|
  {
    var n := |ws[0].owed| + Unanswered(ls);
    PotentialFalls(ws, ls, all, n);
    SpoiledAtMost(ws[0].owed, ws[0].s.struck);
    AtLeast(|Unstruck(all, ws[|ls|].s.struck)|, n);
  }

  lemma AtLeast(u: nat, n: nat)
    ensures u <= u * (n + 1)
  {}

  /** And those settled by their own answers, or by none, are no more than the positions on offer in any case. */
  lemma {:induction false} TimelyEnds(ws: seq<World>, ls: seq<Label>, all: set<Pair>)
    requires Path(ws, ls) && Inv(ws[0]) && AllOfThese(ws, all)
    ensures TimelyOnes(ws, ls) + |Unstruck(all, ws[|ls|].s.struck)| <= |Unstruck(all, ws[0].s.struck)|
    decreases |ls|
  {
    if ls != [] {
      PathRest(ws, ls);
      OfTheseFirst(ws, all);
      StepInv(ws[0], ls[0], ws[1]);
      StepShrinks(ws[0], ls[0], ws[1], all);
      TimelyEnds(ws[1..], ls[1..], all);
    }
  }

  // ---------------------------------------------------------------- what repair leaves

  /** A request to the holder that asks for the position ends with no answer. */
  ghost predicate Silent(w: World, l: Label, k: Key, p: Pos) {
    l.TimedOut? && w.s.request.Some? && Out(w.s).0 == k && In(p, Out(w.s).1)
  }

  /** The holder an answer comes from. */
  ghost predicate From(w: World, l: Label, k: Key) {
    match l
    case Answered(_) => w.s.request.Some? && Out(w.s).0 == k
    case Late(to, _) => to < |w.owed| && w.owed[to].0 == k
    case _ => false
  }

  /** An answer of the holder covers the position: it is among what that sends, if the holder has it. */
  ghost predicate Sent(w: World, l: Label, k: Key, p: Pos) {
    && (l.Answered? || l.Late?) && From(w, l, k) && In(p, l.reply.covered)
    && (In(p, l.reply.actual) && l.reply.ciphertext(p).Some? ==> p in l.reply.at)
  }

  /** A short answer to another request is taken to cover the position, which it does not. */
  ghost predicate Missed(w: World, l: Label, k: Key, p: Pos) {
    Mistaken(w, l) && Out(w.s).0 == k && Bytes(l.reply.items) < ANSWER && In(p, Out(w.s).1) && !In(p, l.reply.covered)
  }

  lemma CoveredIsSent(r: Reply, asked: Set, p: Pos)
    requires HonestTo(r, asked) && In(p, r.covered) && In(p, r.actual) && r.ciphertext(p).Some?
    ensures p in r.at
  {
    assert p in Common(r.covered, r.actual);
  }

  /** Whatever a step strikes, it strikes for one of these. */
  lemma StepAccounts(w: World, l: Label, w': World, k: Key, p: Pos)
    requires Inv(w) && Step(w, l, w') && IsStruck(w'.s.struck, k, p) && !IsStruck(w.s.struck, k, p)
    ensures Silent(w, l, k, p) || Sent(w, l, k, p) || Missed(w, l, k, p)
  {
    SettleStrikes(w, l, w');
    var marks := Marks(w, l);
    assert StruckOf(w'.s.struck, k, p.0) ==
      StruckOf(w.s.struck, k, p.0) + if k == Out(w.s).0 then Nums(marks, p.0) else {};
    assert In(p, marks) && k == Out(w.s).0;
    if Timely(w, l) {
      TimelyMarks(w, l, w');
      if l.Answered? && In(p, l.reply.actual) && l.reply.ciphertext(p).Some? { CoveredIsSent(l.reply, Out(w.s).1, p); }
    } else {
      MistakenMarks(w, l, w');
      if In(p, l.reply.covered) && In(p, l.reply.actual)
        && l.reply.ciphertext(p).Some? { CoveredIsSent(l.reply, w.owed[l.to].1, p); }
    }
  }

  ghost predicate Accounted(ws: seq<World>, ls: seq<Label>, i: nat, k: Key, p: Pos)
    requires |ws| == |ls| + 1 && i < |ls|
  {
    Silent(ws[i], ls[i], k, p) || Sent(ws[i], ls[i], k, p) || Missed(ws[i], ls[i], k, p)
  }

  /** Whatever an epoch strikes is accounted for by a step of it. */
  lemma {:induction false} AllAccounted(ws: seq<World>, ls: seq<Label>, k: Key, p: Pos) returns (i: nat)
    requires Path(ws, ls) && Inv(ws[0]) && IsStruck(ws[|ls|].s.struck, k, p) && !IsStruck(ws[0].s.struck, k, p)
    ensures i < |ls| && Accounted(ws, ls, i, k, p)
    decreases |ls|
  {
    assert ls != [];
    PathRest(ws, ls);
    StepInv(ws[0], ls[0], ws[1]);
    if IsStruck(ws[1].s.struck, k, p) {
      StepAccounts(ws[0], ls[0], ws[1], k, p);
      i := 0;
    } else {
      var j := AllAccounted(ws[1..], ls[1..], k, p);
      assert ws[1..][j] == ws[j + 1] && ls[1..][j] == ls[j + 1];
      i := j + 1;
    }
  }

  /** A holder that can be asked has the position, by what it says, and it is wanted. */
  ghost predicate Claims(s: State, k: Key, p: Pos) {
    && k in s.holders && s.holders[k].served && In(p, s.wanted)
    && In(p, Union(s.holders[k].summary, s.holders[k].announced))
  }

  /** At rest: it is not on offer any more. */
  lemma RestIsStruck(s: State, k: Key, p: Pos)
    requires Claims(s, k, p) && !Askable(s, k)
    ensures IsStruck(s.struck, k, p)
  {
    var h := s.holders[k];
    assert !In(p, Offered(s, k));
    assert !In(p, Offer(s.wanted, Union(h.summary, h.announced), s.struck, k));
  }

  /** Where repair rests, for each wanted position a served holder claims: the holder did not answer a request for it;
      or answered for it, sending it if it had it; or a short answer of it to another request was taken for the answer.
      */
  lemma RestsComplete(ws: seq<World>, ls: seq<Label>, k: Key, p: Pos) returns (i: nat)
    requires Path(ws, ls) && Inv(ws[0]) && ws[0].s.struck == map[]
    requires Claims(ws[|ls|].s, k, p) && !Askable(ws[|ls|].s, k)
    ensures i < |ls| && Accounted(ws, ls, i, k, p)
  {
    RestIsStruck(ws[|ls|].s, k, p);
    i := AllAccounted(ws, ls, k, p);
  }

  // ---------------------------------------------------------------- with no request left unanswered

  /** No answer of the holder is owed. */
  ghost predicate NoneOwed(owed: Owed, k: Key) {
    forall i | 0 <= i < |owed| :: owed[i].0 != k
  }

  /** No request to the holder times out or is dropped along the run. */
  ghost predicate AllAnswered(ws: seq<World>, ls: seq<Label>, k: Key)
    requires |ws| == |ls| + 1
  {
    forall i | 0 <= i < |ls| && (ls[i].TimedOut? || ls[i].Dropped?) && ws[i].s.request.Some? ::
      ws[i].s.request.value.holder != k
  }

  lemma StepOwes(w: World, l: Label, w': World, k: Key)
    requires Step(w, l, w') && NoneOwed(w.owed, k)
    requires (l.TimedOut? || l.Dropped?) && w.s.request.Some? ==> w.s.request.value.holder != k
    ensures NoneOwed(w'.owed, k)
  {}

  lemma {:induction false} NeverOwed(ws: seq<World>, ls: seq<Label>, k: Key, i: nat)
    requires Path(ws, ls) && NoneOwed(ws[0].owed, k) && AllAnswered(ws, ls, k) && i < |ws|
    ensures NoneOwed(ws[i].owed, k)
  {
    if i > 0 {
      NeverOwed(ws, ls, k, i - 1);
      assert StepAt(ws, ls, i - 1);
      StepOwes(ws[i - 1], ls[i - 1], ws[i], k);
    }
  }

  /** Of a holder that is owed nothing and answers each request, every wanted position it claims was sent, if it had it:
      no answer of it is ever taken for another. */
  lemma RestsAnswered(ws: seq<World>, ls: seq<Label>, k: Key, p: Pos) returns (i: nat)
    requires Path(ws, ls) && Inv(ws[0]) && ws[0].s.struck == map[] && NoneOwed(ws[0].owed, k) && AllAnswered(ws, ls, k)
    requires Claims(ws[|ls|].s, k, p) && !Askable(ws[|ls|].s, k)
    ensures i < |ls| && ls[i].Answered? && Sent(ws[i], ls[i], k, p)
  {
    i := RestsComplete(ws, ls, k, p);
    NeverOwed(ws, ls, k, i);
    assert StepAt(ws, ls, i);
  }
}
