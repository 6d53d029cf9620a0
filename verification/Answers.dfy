/**
 A holder's answer to a request for messages: what it covers, what it sends, and what the asker takes from it. Positions
 are kept here as the sets that the interval sets stand for.
 */
module Answers {
  import opened Refs

  /** About how many bytes an answer brings. */
  const ANSWER: nat := 1_048_576

  /** Positions by membership. */
  type Set = map<Membership, set<nat>>
  type Pos = (Membership, nat)
  type Item = seq<byte>

  /** A membership's positions, as frames carry them. */
  datatype Seqs = Seqs(of: Membership, nums: set<nat>)

  predicate Before(a: Membership, b: Membership) {
    a.key < b.key || (a.key == b.key && a.joined < b.joined)
  }

  predicate Lt(a: Pos, b: Pos) {
    Before(a.0, b.0) || (a.0 == b.0 && a.1 < b.1)
  }

  /** All the positions of a set. */
  ghost predicate In(p: Pos, s: Set) {
    p.0 in s && p.1 in s[p.0]
  }

  lemma {:induction false} HasFirst(ms: set<Membership>)
    requires ms != {}
    ensures exists m :: m in ms && forall n | n in ms && n != m :: Before(m, n)
    decreases |ms|
  {
    var m :| m in ms;
    if ms - {m} != {} {
      HasFirst(ms - {m});
      var z :| z in ms - {m} && forall n | n in ms - {m} && n != z :: Before(z, n);
      var w := if Before(m, z) then m else z;
      forall n | n in ms && n != w ensures Before(w, n) {
        assert n == m || n in ms - {m};
      }
    } else {
      assert forall n | n in ms :: n == m || n in ms - {m};
    }
  }

  function First(ms: set<Membership>): (m: Membership)
    requires ms != {}
    ensures m in ms && forall n | n in ms && n != m :: Before(m, n)
  {
    HasFirst(ms);
    var m :| m in ms && forall n | n in ms && n != m :: Before(m, n);
    m
  }

  function Nums(s: Set, m: Membership): set<nat> {
    if m in s then s[m] else {}
  }

  function Add(s: Set, one: Seqs): Set {
    s[one.of := Nums(s, one.of) + one.nums]
  }

  /** Frames' lists of positions put together, a membership named twice having both. */
  function ToSet(seqs: seq<Seqs>): Set {
    if seqs == [] then map[] else Add(ToSet(seqs[..|seqs| - 1]), seqs[|seqs| - 1])
  }

  function ToSeqs(s: Set): seq<Seqs>
    decreases |s.Keys|
  {
    if s == map[] then []
    else
      var m := First(s.Keys);
      Shrinks((s - {m}).Keys, s.Keys, m);
      [Seqs(m, s[m])] + ToSeqs(s - {m})
  }

  lemma AddCommutes(s: Set, a: Seqs, b: Seqs)
    ensures Add(Add(s, a), b) == Add(Add(s, b), a)
  {
    forall m ensures Nums(Add(Add(s, a), b), m) == Nums(Add(Add(s, b), a), m) {
      assert a.of == b.of ==> Nums(s, a.of) + a.nums + b.nums == Nums(s, a.of) + b.nums + a.nums;
    }
    forall m | m in Add(Add(s, a), b) ensures Add(Add(s, a), b)[m] == Add(Add(s, b), a)[m] {
      assert Nums(Add(Add(s, a), b), m) == Nums(Add(Add(s, b), a), m);
    }
  }

  lemma {:induction false} ToSetJoins(one: Seqs, rest: seq<Seqs>)
    ensures ToSet([one] + rest) == Add(ToSet(rest), one)
    decreases |rest|
  {
    var all := [one] + rest;
    if rest == [] {
      assert all[..0] == [] && ToSet(all[..0]) == map[];
    } else {
      assert all[..|rest|] == [one] + rest[..|rest| - 1];
      ToSetJoins(one, rest[..|rest| - 1]);
      AddCommutes(ToSet(rest[..|rest| - 1]), one, rest[|rest| - 1]);
    }
  }

  lemma AddBack(s: Set, m: Membership)
    requires m in s
    ensures Add(s - {m}, Seqs(m, s[m])) == s
  {
    assert Add(s - {m}, Seqs(m, s[m])).Keys == s.Keys;
    assert {} + s[m] == s[m];
  }

  /** What frames carry of a set is the set. */
  lemma {:induction false} CarriesSet(s: Set)
    ensures ToSet(ToSeqs(s)) == s
    ensures ToSeqs(s) == [] <==> s == map[]
    decreases |s.Keys|
  {
    if s != map[] {
      var m := First(s.Keys);
      Shrinks((s - {m}).Keys, s.Keys, m);
      CarriesSet(s - {m});
      ToSetJoins(Seqs(m, s[m]), ToSeqs(s - {m}));
      AddBack(s, m);
    }
  }

  /** The positions that frames' lists name, each by any one of them. */
  lemma {:induction false} NamedBySome(seqs: seq<Seqs>, p: Pos)
    ensures In(p, ToSet(seqs)) <==> exists one :: one in seqs && one.of == p.0 && p.1 in one.nums
    decreases |seqs|
  {
    if seqs != [] {
      var rest, last := seqs[..|seqs| - 1], seqs[|seqs| - 1];
      NamedBySome(rest, p);
      assert forall one :: one in seqs <==> one in rest || one == last;
    }
  }

  function Bytes(items: seq<Item>): nat {
    if items == [] then 0 else Bytes(items[..|items| - 1]) + |items[|items| - 1]|
  }

  lemma BytesPush(items: seq<Item>, c: Item)
    ensures Bytes(items + [c]) == Bytes(items) + |c|
  {
    assert (items + [c])[..|items|] == items;
  }

  /** The ciphertexts sent, `at` their positions, are those there are of the positions `due`, each once and in order. */
  ghost predicate Sends(at: seq<Pos>, items: seq<Item>, ciphertext: Pos -> Option<Item>, due: set<Pos>) {
    && |at| == |items|
    && (forall i | 0 <= i < |at| :: ciphertext(at[i]) == Some(items[i]))
    && (forall i, j | 0 <= i < j < |at| :: Lt(at[i], at[j]))
    && (forall p :: p in at <==> p in due && ciphertext(p).Some?)
  }

  /** Within a size, but for its last. */
  predicate Within(items: seq<Item>) {
    items == [] || Bytes(items[..|items| - 1]) < ANSWER
  }

  /** Takes the next position due: its ciphertext, if there is one. */
  lemma SendsNext(at: seq<Pos>, items: seq<Item>, ciphertext: Pos -> Option<Item>, due: set<Pos>, p: Pos)
    requires Sends(at, items, ciphertext, due) && forall q | q in due :: Lt(q, p)
    ensures ciphertext(p).Some? ==> Sends(at + [p], items + [ciphertext(p).value], ciphertext, due + {p})
    ensures ciphertext(p).None? ==> Sends(at, items, ciphertext, due + {p})
  {
    forall q | q in at ensures Lt(q, p) { assert q in due; }
    if ciphertext(p).Some? {
      assert forall q :: q in at + [p] <==> q in at || q == p;
    }
  }

  /** The positions of one membership. */
  ghost function At(m: Membership, nums: set<nat>): (s: set<Pos>)
    ensures forall p :: p in s <==> p.0 == m && p.1 in nums
  {
    set n | n in nums :: (m, n)
  }

  /** The positions asked for that are held. */
  ghost function Common(asked: Set, held: Set): (s: set<Pos>)
    ensures forall p :: p in s <==> In(p, asked) && In(p, held)
  {
    set m, n | m in asked && n in asked[m] && In((m, n), held) :: (m, n)
  }

  /** The asked positions before one. */
  function UpTo(asked: Set, p: Pos): (s: Set)
    ensures forall q :: In(q, s) <==> In(q, asked) && Lt(q, p)
  {
    map m | m in asked && !Before(p.0, m) :: set n | n in asked[m] && (m == p.0 ==> n < p.1)
  }

  /** The positions of the memberships already gone through. */
  ghost function Done(asked: Set, held: Set, left: set<Membership>): (s: set<Pos>)
    ensures forall p :: p in s <==> In(p, asked) && In(p, held) && p.0 !in left
  {
    set p | p in Common(asked, held) && p.0 !in left
  }

  /** One membership's part of an answer: its positions in order, until the answer is full at one of them. */
  method AnswerOne(m: Membership, nums: set<nat>, ciphertext: Pos -> Option<Item>, sent: seq<Item>, sized: nat,
      ghost where: seq<Pos>, ghost done: set<Pos>)
    returns (items: seq<Item>, size: nat, full: Option<nat>, ghost at: seq<Pos>)
    requires sized == Bytes(sent) && Within(sent) && Sends(where, sent, ciphertext, done)
    requires forall q | q in done :: Before(q.0, m)
    ensures size == Bytes(items) && Within(items)
    ensures full.None? ==> Sends(at, items, ciphertext, done + At(m, nums))
    ensures full.Some? ==> size >= ANSWER && full.value in nums
    ensures full.Some? ==> Sends(at, items, ciphertext, done + At(m, set n | n in nums && n < full.value))
  {
    items, size, at := sent, sized, where;
    var todo, gone := nums, {};
    assert done + At(m, gone) == done;
    while todo != {}
      invariant todo <= nums && gone == nums - todo && forall x, y | x in gone && y in todo :: x < y
      invariant size == Bytes(items) && Within(items) && Sends(at, items, ciphertext, done + At(m, gone))
      decreases todo
    {
      var s := Smallest(todo);
      if size >= ANSWER {
        assert gone == set n | n in nums && n < s;
        return items, size, Some(s), at;
      }
      SendsNext(at, items, ciphertext, done + At(m, gone), (m, s));
      assert done + At(m, gone) + {(m, s)} == done + At(m, gone + {s});
      if ciphertext((m, s)).Some? {
        var c := ciphertext((m, s)).value;
        BytesPush(items, c);
        assert (items + [c])[..|items|] == items;
        size, items, at := size + |c|, items + [c], at + [(m, s)];
      }
      todo, gone := todo - {s}, gone + {s};
    }
    assert gone == nums;
    full := None;
  }

  /** Answers `asked`: `items` are the ciphertexts sent and `covered` the positions dealt with, which stop short of all
      asked only once `items` has reached `ANSWER` bytes. */
  method Answer(asked: Set, held: Set, ciphertext: Pos -> Option<Item>)
      returns (items: seq<Item>, covered: Set, ghost at: seq<Pos>)
    ensures covered == asked
      || (Bytes(items) >= ANSWER && exists p: Pos :: In(p, asked) && In(p, held) && covered == UpTo(asked, p))
    ensures Sends(at, items, ciphertext, Common(covered, held))
    ensures Within(items)
  {
    var left, size := asked.Keys, 0;
    items, at := [], [];
    while left != {}
      invariant left <= asked.Keys && size == Bytes(items) && Within(items)
      invariant forall m, n | m in asked && m !in left && n in left :: Before(m, n)
      invariant Sends(at, items, ciphertext, Done(asked, held, left))
      decreases left
    {
      var m := First(left);
      if m in held {
        ghost var done := Done(asked, held, left);
        var full: Option<nat>;
        items, size, full, at := AnswerOne(m, asked[m] * held[m], ciphertext, items, size, at, done);
        if full.Some? {
          covered := UpTo(asked, (m, full.value));
          assert done + At(m, set n | n in asked[m] * held[m] && n < full.value) == Common(covered, held);
          return;
        }
        assert done + At(m, asked[m] * held[m]) == Done(asked, held, left - {m});
      } else {
        assert Done(asked, held, left) == Done(asked, held, left - {m});
      }
      left := left - {m};
    }
    covered := asked;
    assert Done(asked, held, left) == Common(covered, held);
  }

  /** What an asker takes an answer as having covered: all it asked, if the answer is short or says it covers nothing.
      */
  function Covered(asked: Set, items: seq<Item>, answers: seq<Seqs>): Set {
    if answers == [] || Bytes(items) < ANSWER then asked else ToSet(answers)
  }

  /** What an answer may be, of a holder that runs `Answer`: this is what its contract states. */
  ghost predicate Honest(asked: Set, held: Set, ciphertext: Pos -> Option<Item>, items: seq<Item>, covered: Set,
      at: seq<Pos>) {
    && (covered == asked
      || (Bytes(items) >= ANSWER && exists p: Pos :: In(p, asked) && In(p, held) && covered == UpTo(asked, p)))
    && Sends(at, items, ciphertext, Common(covered, held))
  }

  /** What is struck for an honest answer is exactly what it covered. */
  lemma StruckIsCovered(asked: Set, held: Set, ciphertext: Pos -> Option<Item>, items: seq<Item>, covered: Set,
      at: seq<Pos>)
    requires Honest(ToSet(ToSeqs(asked)), held, ciphertext, items, covered, at)
    ensures Covered(asked, items, ToSeqs(covered)) == covered
  {
    CarriesSet(asked);
    CarriesSet(covered);
    if covered != asked {
      var p: Pos :| In(p, asked) && In(p, held) && covered == UpTo(asked, p);
      assert p.0 in covered;
    }
  }

  /** An answer names no request, so one may be taken for the answer to another. Whatever request it answered and
      whichever, `asked`, is out as it comes, what is struck is what it covered exactly if it covered all that is out,
      or it is full and covered something. */
  lemma StruckForAny(asked: Set, items: seq<Item>, covered: Set)
    ensures Covered(asked, items, ToSeqs(covered)) == covered <==>
      covered == asked || (Bytes(items) >= ANSWER && covered != map[])
  {
    CarriesSet(covered);
  }

  /** An honest answer covers something of what was asked, if anything was. */
  lemma CoversSome(asked: Set, held: Set, ciphertext: Pos -> Option<Item>, items: seq<Item>, covered: Set, at: seq<Pos>)
    requires Honest(asked, held, ciphertext, items, covered, at) && exists p: Pos :: In(p, asked)
    ensures exists p: Pos :: In(p, asked) && In(p, covered)
    ensures forall p: Pos | In(p, covered) :: In(p, asked)
  {
    if covered != asked {
      assert |at| > 0;
      assert at[0] in at && In(at[0], covered);
    }
  }
}
