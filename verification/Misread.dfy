/**
 Late answers misread. A short one that comes as another request is out is taken to cover that, so what that asked for
 is struck though the holder has it, answers both requests and never sends it; and a full one may strike nothing at
 all.
 */
module Misread {
  import opened Refs
  import opened Answers
  import opened Repair
  import opened RepairRuns

  function One(m: Membership, nums: set<nat>): Set {
    map[m := nums]
  }

  /** A member that holds the first three messages of a membership, and can be asked. */
  function Has(m: Membership): Holder {
    Holder(One(m, {1, 2, 3}), map[], map[], true)
  }

  /** The second of them fills an answer. */
  function Ciphertexts(m: Membership, small: Item, big: Item): Pos -> Option<Item> {
    (p: Pos) => if p.0 != m || p.1 !in {1, 2, 3} then None else if p.1 == 2 then Some(big) else Some(small)
  }

  /** The asker's state: which of them it wants, and is struck for. */
  function At(k: Key, m: Membership, wanted: set<nat>, struck: Struck, request: Option<Request>): State {
    State(0, One(m, wanted), map[], map[k := Has(m)], struck, request)
  }

  function Struck1(k: Key, m: Membership, nums: set<nat>): Struck {
    if nums == {} then map[] else map[(k, m) := nums]
  }

  lemma SameSets(a: Set, b: Set)
    requires a.Keys == b.Keys && forall p: Pos :: In(p, a) <==> In(p, b)
    ensures a == b
  {
    forall m | m in a ensures a[m] == b[m] {
      forall n: nat ensures n in a[m] <==> n in b[m] { assert In((m, n), a) <==> In((m, n), b); }
    }
  }

  lemma OnOffer(k: Key, m: Membership, wanted: set<nat>, gone: set<nat>)
    requires wanted <= {1, 2, 3} && wanted - gone != {}
    ensures Offered(At(k, m, wanted, Struck1(k, m, gone), None), k) == One(m, wanted - gone)
  {
    var s := At(k, m, wanted, Struck1(k, m, gone), None);
    var o := Offered(s, k);
    forall p: Pos ensures In(p, o) <==> In(p, One(m, wanted - gone)) {
      assert IsStruck(s.struck, k, p) <==> p.0 == m && p.1 in gone;
    }
    var n :| n in wanted - gone;
    assert In((m, n), o);
    forall x | x in o ensures x == m {
      var y :| y in o[x];
      assert In((x, y), o);
    }
    SameSets(o, One(m, wanted - gone));
  }

  /** One request: asks for all that is on offer. */
  lemma Asking1(k: Key, m: Membership, wanted: set<nat>, gone: set<nat>)
    requires wanted <= {1, 2, 3} && wanted - gone != {}
    ensures var s := At(k, m, wanted, Struck1(k, m, gone), None);
      AskStep(s, k, 0, s.(request := Some(Request(k, One(m, wanted - gone), 0, 0))))
  {
    OnOffer(k, m, wanted, gone);
    SubsetSize(wanted - gone, {1, 2, 3});
    assert |{1, 2, 3}| == 3;
    assert Asked(One(m, wanted - gone)) == One(m, wanted - gone);
  }

  lemma NoneOffered(k: Key, m: Membership)
    ensures !Askable(At(k, m, {1, 2, 3}, Struck1(k, m, {1, 2, 3}), None), k)
  {
    var s := At(k, m, {1, 2, 3}, Struck1(k, m, {1, 2, 3}), None);
    var o := Offered(s, k);
    forall p: Pos ensures !In(p, o) {
      assert IsStruck(s.struck, k, p) || !In(p, One(m, {1, 2, 3}));
    }
    assert forall x | x in o :: exists y: nat :: In((x, y), o);
  }

  lemma Striking(k: Key, m: Membership, gone: set<nat>, more: set<nat>)
    requires more != {}
    ensures Strikes(Struck1(k, m, gone), Struck1(k, m, gone + more), k, One(m, more))
  {}

  /** An honest answer to a request for the first alone. */
  function First(m: Membership, small: Item, big: Item): Reply {
    Reply(One(m, {1, 2, 3}), Ciphertexts(m, small, big), [small], One(m, {1}), [(m, 1)])
  }

  lemma FirstHonest(m: Membership, small: Item, big: Item)
    ensures HonestTo(First(m, small, big), One(m, {1})) && Bytes([small]) == |small|
  {
    assert [small][..0] == [];
    assert Common(One(m, {1}), One(m, {1, 2, 3})) == {(m, 1)};
  }

  /** And to one for the second and third: it is full with the second. */
  function Second(m: Membership, small: Item, big: Item): Reply {
    Reply(One(m, {1, 2, 3}), Ciphertexts(m, small, big), [big], One(m, {2}), [(m, 2)])
  }

  lemma SecondHonest(m: Membership, small: Item, big: Item)
    requires |big| >= ANSWER
    ensures HonestTo(Second(m, small, big), One(m, {2, 3}))
  {
    assert [big][..0] == [];
    var asked, p := One(m, {2, 3}), (m, 3);
    assert In(p, asked) && In(p, One(m, {1, 2, 3}));
    var less := UpTo(asked, p);
    assert less.Keys == {m};
    SameSets(less, One(m, {2}));
    assert Common(One(m, {2}), One(m, {1, 2, 3})) == {(m, 2)};
  }

  // ---------------------------------------------------------------- the run

  function W0(k: Key, m: Membership): World {
    World(At(k, m, {1}, map[], None), [])
  }

  function W1(k: Key, m: Membership): World {
    World(At(k, m, {1}, map[], Some(Request(k, One(m, {1}), 0, 0))), [])
  }

  function W2(k: Key, m: Membership): World {
    World(At(k, m, {1}, Struck1(k, m, {1}), None), [(k, One(m, {1}))])
  }

  function W3(k: Key, m: Membership): World {
    World(At(k, m, {1, 2, 3}, Struck1(k, m, {1}), None), [(k, One(m, {1}))])
  }

  function W4(k: Key, m: Membership): World {
    World(At(k, m, {1, 2, 3}, Struck1(k, m, {1}), Some(Request(k, One(m, {2, 3}), 0, 0))), [(k, One(m, {1}))])
  }

  function W5(k: Key, m: Membership): World {
    World(At(k, m, {1, 2, 3}, Struck1(k, m, {1, 2, 3}), None), [(k, One(m, {2, 3}))])
  }

  function W6(k: Key, m: Membership): World {
    World(At(k, m, {1, 2, 3}, Struck1(k, m, {1, 2, 3}), None), [])
  }

  /** A relation that holds at least between worlds one step apart. The run is shown of any such relation, and so of the
      steps themselves. */
  type Relation = (World, Label, World) -> bool

  ghost predicate Allows(step: Relation) {
    forall w, l, w' {:trigger Step(w, l, w')} :: Step(w, l, w') ==> step(w, l, w')
  }

  lemma AsksFirst(step: Relation, k: Key, m: Membership)
    requires Allows(step)
    ensures step(W0(k, m), Ask(k, 0), W1(k, m))
  {
    assert {1} - {} == {1};
    Asking1(k, m, {1}, {});
    assert Step(W0(k, m), Ask(k, 0), W1(k, m));
  }

  lemma TimesOut(step: Relation, k: Key, m: Membership)
    requires Allows(step)
    ensures step(W1(k, m), TimedOut, W2(k, m))
  {
    Striking(k, m, {}, {1});
    assert {} + {1} == {1};
    assert Step(W1(k, m), TimedOut, W2(k, m));
  }

  function Wanting(k: Key, m: Membership): Label {
    Change(One(m, {1, 2, 3}), map[], map[k := Has(m)])
  }

  lemma WantsMore(step: Relation, k: Key, m: Membership)
    requires Allows(step)
    ensures step(W2(k, m), Wanting(k, m), W3(k, m))
  {
    assert Step(W2(k, m), Wanting(k, m), W3(k, m));
  }

  lemma AsksMore(step: Relation, k: Key, m: Membership)
    requires Allows(step)
    ensures step(W3(k, m), Ask(k, 0), W4(k, m))
  {
    assert {1, 2, 3} - {1} == {2, 3};
    Asking1(k, m, {1, 2, 3}, {1});
    assert Step(W3(k, m), Ask(k, 0), W4(k, m));
  }

  lemma TakesFirst(step: Relation, k: Key, m: Membership, small: Item, big: Item)
    requires Allows(step) && |small| < ANSWER
    ensures step(W4(k, m), Late(0, First(m, small, big)), W5(k, m))
  {
    FirstHonest(m, small, big);
    Striking(k, m, {1}, {2, 3});
    assert {1} + {2, 3} == {1, 2, 3};
    assert Step(W4(k, m), Late(0, First(m, small, big)), W5(k, m));
  }

  lemma TakesSecond(step: Relation, k: Key, m: Membership, small: Item, big: Item)
    requires Allows(step) && |big| >= ANSWER
    ensures step(W5(k, m), Late(0, Second(m, small, big)), W6(k, m))
  {
    SecondHonest(m, small, big);
    assert Step(W5(k, m), Late(0, Second(m, small, big)), W6(k, m));
  }

  function Worlds(k: Key, m: Membership): seq<World> {
    [W0(k, m), W1(k, m), W2(k, m), W3(k, m), W4(k, m), W5(k, m), W6(k, m)]
  }

  function Labels(k: Key, m: Membership, small: Item, big: Item): seq<Label> {
    [Ask(k, 0), TimedOut, Wanting(k, m), Ask(k, 0), Late(0, First(m, small, big)), Late(0, Second(m, small, big))]
  }

  ghost predicate LinkedAt(ws: seq<World>, ls: seq<Label>, step: Relation, i: nat)
    requires i < |ls| && |ws| == |ls| + 1
  {
    step(ws[i], ls[i], ws[i + 1])
  }

  lemma Links(step: Relation, k: Key, m: Membership, small: Item, big: Item)
    requires Allows(step) && |small| < ANSWER <= |big|
    ensures forall i | 0 <= i < 6 :: LinkedAt(Worlds(k, m), Labels(k, m, small, big), step, i)
  {
    AsksFirst(step, k, m);
    TimesOut(step, k, m);
    WantsMore(step, k, m);
    AsksMore(step, k, m);
    TakesFirst(step, k, m, small, big);
    TakesSecond(step, k, m, small, big);
  }

  ghost function Stepping(): Relation {
    (w, l, w') => Step(w, l, w')
  }

  lemma Steps(k: Key, m: Membership, small: Item, big: Item)
    requires |small| < ANSWER <= |big|
    ensures Path(Worlds(k, m), Labels(k, m, small, big))
  {
    var (ws, ls) := (Worlds(k, m), Labels(k, m, small, big));
    Links(Stepping(), k, m, small, big);
    forall i | 0 <= i < |ls| ensures StepAt(ws, ls, i) { assert LinkedAt(ws, ls, Stepping(), i); }
  }

  /** Nothing brings the position, and no request for it is left unanswered by time. */
  ghost predicate NeverBrought(ws: seq<World>, ls: seq<Label>, k: Key, p: Pos)
    requires |ws| == |ls| + 1
  {
    forall i | 0 <= i < |ls| :: NotBroughtAt(ws, ls, k, p, i)
  }

  ghost predicate NotBroughtAt(ws: seq<World>, ls: seq<Label>, k: Key, p: Pos, i: nat)
    requires |ws| == |ls| + 1 && i < |ls|
  {
    && !Silent(ws[i], ls[i], k, p) && !Sent(ws[i], ls[i], k, p)
    && ((ls[i].Answered? || ls[i].Late?) ==> p !in ls[i].reply.at)
  }

  lemma NotBrought(k: Key, m: Membership, small: Item, big: Item, i: nat)
    requires i < 6
    ensures NotBroughtAt(Worlds(k, m), Labels(k, m, small, big), k, (m, 3), i)
  {}

  /**
   A run against an honest holder. A request for the first message times out. The second and third are wanted too, and
   asked for; then the answer to the first request comes, and is taken for theirs. Their own answer, full with the
   second message, comes when no request is out. Repair rests: the third message is wanted, the holder has it, claims
   it and can be asked, and nothing ever brought it.
   */
  lemma LeavesOne(k: Key, m: Membership, small: Item, big: Item) returns (ws: seq<World>, ls: seq<Label>)
    requires |small| < ANSWER <= |big|
    ensures Path(ws, ls) && Inv(ws[0]) && ws[0].s.struck == map[] && ws[0].owed == []
    ensures Claims(ws[|ls|].s, k, (m, 3)) && !Askable(ws[|ls|].s, k) && NeverBrought(ws, ls, k, (m, 3))
    ensures Ciphertexts(m, small, big)((m, 3)) == Some(small)
    ensures forall l | l in ls && l.Late? ::
      l.reply.actual == One(m, {1, 2, 3}) && l.reply.ciphertext == Ciphertexts(m, small, big)
  {
    ws, ls := Worlds(k, m), Labels(k, m, small, big);
    Steps(k, m, small, big);
    forall i | 0 <= i < |ls| ensures NotBroughtAt(ws, ls, k, (m, 3), i) { NotBrought(k, m, small, big, i); }
    NoneOffered(k, m);
  }

  /** A late answer that settles a request and strikes nothing new: full, and of what its own request was struck for. */
  lemma StrikesNothing(k: Key, m: Membership, small: Item, big: Item) returns (w: World, l: Label, w': World)
    requires |big| >= ANSWER
    ensures Inv(w) && Step(w, l, w') && Mistaken(w, l) && w'.s.struck == w.s.struck
  {
    var owed := [(k, One(m, {2}))];
    var reply := Second(m, small, big);
    w := World(At(k, m, {1, 2, 3}, Struck1(k, m, {2}), Some(Request(k, One(m, {1, 3}), 0, 0))), owed);
    l := Late(0, reply);
    w' := World(At(k, m, {1, 2, 3}, Struck1(k, m, {2}), None), [(k, One(m, {1, 3}))]);
    AloneHonest(m, small, big);
    CarriesSet(One(m, {2}));
    Striking(k, m, {2}, {2});
    assert {2} + {2} == {2};
    assert In((m, 2), One(m, {2})) && In((m, 1), One(m, {1, 3}));
  }

  lemma AloneHonest(m: Membership, small: Item, big: Item)
    ensures HonestTo(Second(m, small, big), One(m, {2})) && Bytes([big]) == |big|
  {
    assert [big][..0] == [];
    assert Common(One(m, {2}), One(m, {1, 2, 3})) == {(m, 2)};
  }
}
