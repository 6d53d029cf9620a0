/**
 What each source spent in a window, at the membership service: a /48 is held to its own budget however many /64s it
 uses, and tracks no more than `NETS` of them.
 */
module Quotas {
  import opened Refs
  import opened Requests

  /** How many of its /64s a /48 has entries for, at most. */
  const NETS: nat := 16

  /** What was spent, and how many /64s of each /48 are tracked there. */
  datatype Tab = Tab(spent: map<Source, nat>, nets: map<nat, nat>)

  function NetOf(k: Source): nat
    requires k.Net64?
  {
    k.net64 / 65_536
  }

  function NetCount(t: Tab, n: nat): nat {
    if n in t.nets then t.nets[n] else 0
  }

  function SpentBy(t: Tab, k: Source): nat {
    if k in t.spent then t.spent[k] else 0
  }

  predicate Tracks(t: Tab, k: Source) {
    k in t.spent || (k.Net64? ==> NetCount(t, NetOf(k)) < NETS)
  }

  predicate FitsKey(t: Tab, sources: nat, limit: nat, k: Source, amount: nat) {
    Tracks(t, k) ==> (|t.spent| < sources || k in t.spent) && SpentBy(t, k) + amount <= Allowed(limit, k)
  }

  function ChargeKey(t: Tab, k: Source, amount: nat): Tab {
    if !Tracks(t, k) then t
    else Tab(
      t.spent[k := SpentBy(t, k) + amount],
      if k.Net64? && k !in t.spent then t.nets[NetOf(k) := NetCount(t, NetOf(k)) + 1] else t.nets)
  }

  function ChargeKeys(t: Tab, ks: seq<Source>, amount: nat): Tab {
    if ks == [] then t else ChargeKey(ChargeKeys(t, ks[..|ks| - 1], amount), ks[|ks| - 1], amount)
  }

  /** The charges of a window. */
  type Charges = seq<(Address, nat)>

  /** All that was charged to the addresses of a source: of a /48, over all its /64s. */
  function Drawn(taken: Charges, k: Source): nat {
    if taken == [] then 0
    else Drawn(taken[..|taken| - 1], k) + if k in Sources(taken[|taken| - 1].0) then taken[|taken| - 1].1 else 0
  }

  ghost function TrackedOf(t: Tab, n: nat): set<Source> {
    set k | k in t.spent && k.Net64? && NetOf(k) == n
  }

  /** The count of a /48's tracked /64s is right, and at most `NETS`. */
  ghost predicate NetOk(t: Tab, n: nat) {
    NetCount(t, n) == |TrackedOf(t, n)| && NetCount(t, n) <= NETS
  }

  /** What a source spent is all it drew, unless it is a /64 past those its /48 tracks. */
  ghost predicate KeyOk(t: Tab, drawn: nat, k: Source) {
    if k in t.spent then t.spent[k] == drawn else drawn == 0 || (k.Net64? && NetCount(t, NetOf(k)) == NETS)
  }

  ghost predicate TabOk(t: Tab, drawn: Source -> nat) {
    (forall k :: KeyOk(t, drawn(k), k)) && forall n: nat :: NetOk(t, n)
  }

  ghost predicate WithinLimit(t: Tab, limit: nat) {
    forall k | k in t.spent :: t.spent[k] <= Allowed(limit, k)
  }

  lemma ChargeKeyNets(t: Tab, k: Source, amount: nat, n: nat)
    requires NetOk(t, n)
    ensures NetOk(ChargeKey(t, k, amount), n)
  {
    var u := ChargeKey(t, k, amount);
    if k.Net64? && Tracks(t, k) && k !in t.spent && NetOf(k) == n {
      assert TrackedOf(u, n) == TrackedOf(t, n) + {k};
    } else {
      assert TrackedOf(u, n) == TrackedOf(t, n);
    }
  }

  lemma ChargeKeyOk(t: Tab, drawn: Source -> nat, after: Source -> nat, k: Source, amount: nat)
    requires TabOk(t, drawn) && forall x :: after(x) == drawn(x) + if x == k then amount else 0
    ensures TabOk(ChargeKey(t, k, amount), after)
  {
    var u := ChargeKey(t, k, amount);
    forall n: nat ensures NetOk(u, n) {
      assert NetOk(t, n);
      ChargeKeyNets(t, k, amount, n);
    }
    forall x ensures KeyOk(u, after(x), x) {
      assert KeyOk(t, drawn(x), x) && after(x) == drawn(x) + if x == k then amount else 0;
      if k.Net64? { assert NetOk(t, NetOf(k)); }
    }
  }

  ghost function DrawnWith(taken: Charges, ks: seq<Source>, amount: nat): Source -> nat {
    k => Drawn(taken, k) + if k in ks then amount else 0
  }

  lemma {:induction false} ChargeKeysOk(t: Tab, taken: Charges, ks: seq<Source>, amount: nat)
    requires TabOk(t, DrawnWith(taken, [], amount)) && forall i, j | 0 <= i < j < |ks| :: ks[i] != ks[j]
    ensures TabOk(ChargeKeys(t, ks, amount), DrawnWith(taken, ks, amount))
    decreases |ks|
  {
    if ks != [] {
      var rest, k := ks[..|ks| - 1], ks[|ks| - 1];
      ChargeKeysOk(t, taken, rest, amount);
      assert ks == rest + [k] && k !in rest;
      ChargeKeyOk(ChargeKeys(t, rest, amount), DrawnWith(taken, rest, amount), DrawnWith(taken, ks, amount), k, amount);
    }
  }

  /** The sources of an address that a charge adds. */
  function NewKeys(t: Tab, from: Address): set<Source> {
    set k | k in Sources(from) && k !in t.spent && Tracks(t, k)
  }

  lemma Unfold(t: Tab, a: Source, b: Source, amount: nat)
    ensures ChargeKeys(t, [a], amount) == ChargeKey(t, a, amount)
    ensures ChargeKeys(t, [a, b], amount) == ChargeKey(ChargeKey(t, a, amount), b, amount)
  {
    assert [a][..0] == [] && [a, b][..1] == [a];
    assert ChargeKeys(t, [], amount) == t;
  }

  /** What a charge of an address does, as its /64 and its /48 are tracked each on its own. */
  lemma ChargeFrom(t: Tab, from: Address, amount: nat)
    ensures var u := ChargeKeys(t, Sources(from), amount);
      && u.spent.Keys == t.spent.Keys + NewKeys(t, from)
      && forall k | k in u.spent :: u.spent[k] == SpentBy(t, k) + if k in Sources(from) then amount else 0
  {
    var ks := Sources(from);
    Unfold(t, ks[0], ks[|ks| - 1], amount);
    assert ks == if |ks| == 1 then [ks[0]] else [ks[0], ks[1]];
  }

  /** A charge that fits keeps each source within its allowance, and adds sources only below the number tracked. */
  lemma FitKeeps(t: Tab, sources: nat, limit: nat, from: Address, amount: nat)
    requires WithinLimit(t, limit) && forall k | k in Sources(from) :: FitsKey(t, sources, limit, k, amount)
    ensures WithinLimit(ChargeKeys(t, Sources(from), amount), limit)
    ensures NewKeys(t, from) == {} || |t.spent| < sources
  {
    ChargeFrom(t, from, amount);
    var u := ChargeKeys(t, Sources(from), amount);
    forall k | k in u.spent ensures u.spent[k] <= Allowed(limit, k) {
      if k in Sources(from) { assert FitsKey(t, sources, limit, k, amount); }
    }
    if k :| k in NewKeys(t, from) { assert FitsKey(t, sources, limit, k, amount); }
  }

  lemma NewSize(t: Tab, from: Address, amount: nat)
    ensures |ChargeKeys(t, Sources(from), amount).spent| == |t.spent| + |NewKeys(t, from)|
    ensures |NewKeys(t, from)| <= |Sources(from)|
  {
    ChargeFrom(t, from, amount);
    var u := ChargeKeys(t, Sources(from), amount);
    assert |u.spent| == |u.spent.Keys| && |t.spent| == |t.spent.Keys|;
    var ks := Sources(from);
    SubsetSize(NewKeys(t, from), {ks[0], ks[|ks| - 1]});
    if |ks| == 1 { SubsetSize(NewKeys(t, from), {ks[0]}); }
  }

  /** A charge that fits takes a quota past the sources it is to track exactly when it is one short of them and neither
      the address's /64 nor its /48 is tracked yet. */
  lemma PastSources(t: Tab, sources: nat, limit: nat, from: Address, amount: nat)
    requires |t.spent| <= sources && WithinLimit(t, limit)
    requires forall k | k in Sources(from) :: FitsKey(t, sources, limit, k, amount)
    ensures |ChargeKeys(t, Sources(from), amount).spent| > sources <==>
      |t.spent| + 1 == sources && |Sources(from)| == 2 && forall k | k in Sources(from) :: k !in t.spent && Tracks(t, k)
    ensures |ChargeKeys(t, Sources(from), amount).spent| <= sources + 1
  {
    FitKeeps(t, sources, limit, from, amount);
    NewSize(t, from, amount);
    var ks := Sources(from);
    Distinct(from);
    if |ks| == 2 {
      if forall k | k in ks :: k !in t.spent && Tracks(t, k) {
        assert NewKeys(t, from) == {ks[0], ks[1]};
      } else {
        var k :| k in ks && !(k !in t.spent && Tracks(t, k));
        SubsetSize(NewKeys(t, from), {ks[0], ks[1]} - {k});
      }
    }
  }

  /** So it can: a quota to track one source tracks the two of its first IPv6 address. */
  lemma TracksOneMore(limit: nat, from: Address)
    requires limit > 0 && |Sources(from)| == 2
    ensures forall k | k in Sources(from) :: FitsKey(Tab(map[], map[]), 1, limit, k, 1)
    ensures |ChargeKeys(Tab(map[], map[]), Sources(from), 1).spent| == 2
  {
    PastSources(Tab(map[], map[]), 1, limit, from, 1);
  }

  class Quota {
    const period: nat
    const limit: nat
    const sources: nat
    var window: nat
    var spent: map<Source, nat>
    var nets: map<nat, nat>
    /** What was charged in the window. */
    ghost var taken: Charges

    function View(): Tab
      reads this
    {
      Tab(spent, nets)
    }

    ghost predicate Valid()
      reads this
    {
      period > 0 && TabOk(View(), DrawnWith(taken, [], 0))
    }

    /** What a quota keeps that is charged only what fits. */
    ghost predicate Bounded()
      reads this
    {
      WithinLimit(View(), limit) && |spent| <= sources + 1
    }

    constructor (period: nat, limit: nat, sources: nat)
      requires period > 0
      ensures Valid() && Bounded() && taken == [] && window == 0
      ensures this.period == period && this.limit == limit && this.sources == sources
    {
      this.period, this.limit, this.sources, window, spent, nets, taken := period, limit, sources, 0, map[], map[], [];
      new;
      forall n: nat ensures NetOk(View(), n) {
        assert TrackedOf(View(), n) == {};
      }
    }

    /** Forgets what was spent as another window begins. */
    method Roll(at: nat)
      requires Valid()
      modifies this
      ensures Valid() && window == at / period
      ensures if window == old(window) then View() == old(View())
        && taken == old(taken) else View() == Tab(map[], map[]) && taken == []
    {
      if at / period != window {
        window, spent, nets, taken := at / period, map[], map[], [];
        forall n: nat ensures NetOk(View(), n) {
          assert TrackedOf(View(), n) == {};
        }
      }
    }

    method Fits(at: nat, from: Address, amount: nat) returns (fits: bool)
      requires Valid()
      modifies this
      ensures Valid() && window == at / period
      ensures if window == old(window) then View() == old(View())
        && taken == old(taken) else View() == Tab(map[], map[]) && taken == []
      ensures fits <==> forall k | k in Sources(from) :: FitsKey(View(), sources, limit, k, amount)
    {
      Roll(at);
      var ks := Sources(from);
      fits := forall k | k in ks :: FitsKey(View(), sources, limit, k, amount);
    }

    /** Charges each source of an address that is tracked. */
    method Charge(at: nat, from: Address, amount: nat)
      requires Valid()
      modifies this
      ensures Valid() && window == at / period
      ensures View() ==
        ChargeKeys(if window == old(window) then old(View()) else Tab(map[], map[]), Sources(from), amount)
      ensures taken == (if window == old(window) then old(taken) else []) + [(from, amount)]
    {
      Roll(at);
      var ks := Sources(from);
      ghost var was := View();
      for i := 0 to |ks|
        invariant View() == ChargeKeys(was, ks[..i], amount)
        modifies `spent, `nets
      {
        assert ks[..i + 1][..i] == ks[..i];
        ChargeOne(ks[i], amount);
      }
      assert ks[..|ks|] == ks;
      Charged(was, taken, from, amount);
      taken := taken + [(from, amount)];
    }

    method ChargeOne(k: Source, amount: nat)
      modifies `spent, `nets
      ensures View() == ChargeKey(old(View()), k, amount)
    {
      if Tracks(View(), k) {
        if k.Net64? && k !in spent { nets := nets[NetOf(k) := NetCount(View(), NetOf(k)) + 1]; }
        spent := spent[k := SpentBy(View(), k) + amount];
      }
    }

    /** Charges what fits, and nothing that does not. */
    method Take(at: nat, from: Address, amount: nat) returns (fits: bool)
      requires Valid() && Bounded()
      modifies this
      ensures Valid() && Bounded() && window == at / period
      ensures fits <==> var t := if window == old(window) then old(View()) else Tab(map[], map[]);
        forall k | k in Sources(from) :: FitsKey(t, sources, limit, k, amount)
      ensures taken == (if window == old(window) then old(taken) else []) + if fits then [(from, amount)] else []
    {
      fits := Fits(at, from, amount);
      if fits {
        FitKeeps(View(), sources, limit, from, amount);
        NewSize(View(), from, amount);
        Charge(at, from, amount);
      }
    }
  }

  lemma Charged(t: Tab, taken: Charges, from: Address, amount: nat)
    requires TabOk(t, DrawnWith(taken, [], 0))
    ensures TabOk(ChargeKeys(t, Sources(from), amount), DrawnWith(taken + [(from, amount)], [], 0))
  {
    SameDrawn(t, DrawnWith(taken, [], 0), DrawnWith(taken, [], amount));
    Distinct(from);
    ChargeKeysOk(t, taken, Sources(from), amount);
    var longer := taken + [(from, amount)];
    assert longer[..|taken|] == taken;
    SameDrawn(ChargeKeys(t, Sources(from), amount), DrawnWith(taken, Sources(from), amount), DrawnWith(longer, [], 0));
  }

  lemma SameDrawn(t: Tab, a: Source -> nat, b: Source -> nat)
    requires TabOk(t, a) && forall k :: a(k) == b(k)
    ensures TabOk(t, b)
  {
    forall k ensures KeyOk(t, b(k), k) {
      assert KeyOk(t, a(k), k);
    }
  }

  /** When a charge fits, in terms of what was drawn in the window: for each of its sources that is tracked, or can
      still be, it and what was drawn stay within the limit, which for a /48 is 16 times that of one. */
  lemma FitsExact(t: Tab, taken: Charges, sources: nat, limit: nat, k: Source, amount: nat)
    requires TabOk(t, DrawnWith(taken, [], 0))
    ensures FitsKey(t, sources, limit, k, amount) <==>
      || (k.Net64? && k !in t.spent && |TrackedOf(t, k.net64 / 65_536)| == 16)
      || ((k in t.spent || |t.spent| < sources)
          && Drawn(taken, k) + amount <= (if k.Net48? then 16 * limit else limit))
  {
    assert KeyOk(t, DrawnWith(taken, [], 0)(k), k);
    if k.Net64? { assert NetOk(t, NetOf(k)); }
  }

  /** In a window a quota charged only what fits lets an IPv4 address draw its limit, and a /48 `WIDE` times it, however
      many /64s it draws through; and a /64 its limit, unless its /48 tracks `NETS` others. */
  lemma Budgeted(t: Tab, taken: Charges, limit: nat, k: Source)
    requires TabOk(t, DrawnWith(taken, [], 0)) && WithinLimit(t, limit)
    ensures k.V4? ==> Drawn(taken, k) <= limit
    ensures k.Net48? ==> Drawn(taken, k) <= WIDE * limit
    ensures k.Net64? ==> Drawn(taken, k) <= limit || (k !in t.spent && |TrackedOf(t, NetOf(k))| == NETS)
  {
    assert KeyOk(t, DrawnWith(taken, [], 0)(k), k);
    if k.Net64? { assert NetOk(t, NetOf(k)); }
  }
}
