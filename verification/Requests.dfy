/** Requests in flight at the membership service: their totals are the sums over the admissions not dropped. */
module Requests {

  /** How many times the limit of one source a /48 has. */
  const WIDE: nat := 16
  const MAX_BODY: nat := 4_194_304
  const HEAD_LOGS: nat := 256

  /** An address: IPv6 as its 128 bits. */
  datatype Address = V4Address(v4: nat) | V6Address(bits: nat)
  /** A key that counters are kept under. */
  datatype Source = V4(v4: nat) | Net64(net64: nat) | Net48(net48: nat)
  datatype Route = AppendRoute | ReadRoute | HeadsRoute

  const TWO32: nat := 0x1_0000_0000
  const TWO64: nat := 0x1_0000_0000_0000_0000
  const TWO80: nat := 0x1_0000_0000_0000_0000_0000

  /** The keys an address counts under: one for IPv4, plain or mapped into IPv6, and two for other IPv6. */
  function Sources(from: Address): seq<Source> {
    match from
    case V4Address(v4) => [V4(v4)]
    case V6Address(bits) =>
      if bits / TWO32 == 0xffff then [V4(bits % TWO32)] else [Net64(bits / TWO64), Net48(bits / TWO80)]
  }

  /** A source's part of a limit: that of one, or a /48's. */
  function Allowed(limit: nat, k: Source): nat {
    if k.Net48? then WIDE * limit else limit
  }

  function AnswerBytes(route: Route): nat {
    match route
    case ReadRoute => MAX_BODY
    case HeadsRoute => HEAD_LOGS * 1024
    case AppendRoute => 4096
  }

  /** An address's /48 is that of its /64. */
  lemma NetsAgree(from: Address)
    ensures forall a, b | Net64(a) in Sources(from) && Net48(b) in Sources(from) :: a / 65_536 == b
    ensures |Sources(from)| == 2 ==>
      Sources(from)[0].Net64? && Sources(from)[1].Net48? && Sources(from)[0].net64 / 65_536 == Sources(from)[1].net48
  {}

  /** The IPv6 addresses that stand for IPv4 ones. */
  ghost predicate Mapped(bits: nat) {
    0xffff_0000_0000 <= bits < 0x1_0000_0000_0000
  }

  /** What an address counts under: the IPv4 address it is or stands for; else the blocks of 2 to the 64th and to the
      80th addresses that it lies in. */
  lemma SourcesExact(from: Address, k: Source)
    ensures k in Sources(from) <==>
      match k
      case V4(v4) => from == V4Address(v4)
        || (from.V6Address? && Mapped(from.bits) && from.bits == 0xffff_0000_0000 + v4)
      case Net64(n) =>
        from.V6Address? && !Mapped(from.bits) && n * TWO64 <= from.bits < (n + 1) * TWO64
      case Net48(n) =>
        from.V6Address? && !Mapped(from.bits) && n * TWO80 <= from.bits < (n + 1) * TWO80
  {
    if from.V6Address? {
      var bits := from.bits;
      DivExact(bits, TWO32, 0xffff);
      match k
      case V4(v4) =>
      case Net64(n) => DivExact(bits, TWO64, n);
      case Net48(n) => DivExact(bits, TWO80, n);
    }
  }

  lemma DivExact(x: nat, d: nat, q: nat)
    requires d > 0
    ensures x / d == q <==> q * d <= x < (q + 1) * d
  {
    var (p, r) := (x / d, x % d);
    assert x == p * d + r && r < d;
    if p < q { Spread(p, q, d); }
    if q < p { Spread(q, p, d); }
  }

  lemma Spread(p: nat, q: nat, d: nat)
    requires p < q
    ensures (p + 1) * d <= q * d
  {
    var n := q - (p + 1);
    assert q * d == (p + 1) * d + n * d;
  }

  datatype Policy = Policy(requestsAtOnce: nat, bytesAtOnce: nat, bytesAtOnceInAll: nat)
  datatype Held = Held(requests: nat, bytes: nat)

  /** An admission: its address and bytes, and whether it is not dropped. */
  datatype Admission = Admission(from: Address, bytes: nat, live: bool)

  /** What is summed over admissions. */
  datatype Measure = AllBytes | BytesOf(of: Source) | RequestsOf(of: Source)

  function Amount(a: Admission, what: Measure): nat {
    if !a.live then 0
    else match what
      case AllBytes => a.bytes
      case BytesOf(k) => if k in Sources(a.from) then a.bytes else 0
      case RequestsOf(k) => if k in Sources(a.from) then 1 else 0
  }

  function Sum(s: seq<Admission>, what: Measure): nat {
    if s == [] then 0 else Sum(s[..|s| - 1], what) + Amount(s[|s| - 1], what)
  }

  lemma SumPush(s: seq<Admission>, a: Admission, what: Measure)
    ensures Sum(s + [a], what) == Sum(s, what) + Amount(a, what)
  {
    assert (s + [a])[..|s|] == s;
  }

  lemma {:induction false} SumSet(s: seq<Admission>, i: nat, a: Admission, what: Measure)
    requires i < |s|
    ensures Sum(s[i := a], what) + Amount(s[i], what) == Sum(s, what) + Amount(a, what)
    decreases |s|
  {
    var n := |s| - 1;
    if i == n {
      assert s[i := a][..n] == s[..n];
    } else {
      assert s[i := a][..n] == s[..n][i := a];
      SumSet(s[..n], i, a, what);
    }
  }

  /** No admission counts for more than all do. */
  lemma {:induction false} SumCovers(s: seq<Admission>, i: nat, what: Measure)
    requires i < |s|
    ensures Amount(s[i], what) <= Sum(s, what)
    decreases |s|
  {
    if i < |s| - 1 { SumCovers(s[..|s| - 1], i, what); }
  }

  function HeldOf(sources: map<Source, Held>, k: Source): Held {
    if k in sources then sources[k] else Held(0, 0)
  }

  /** A source's counters are its sums, within policy; it is there only while it has a request. */
  ghost predicate Counted(sources: map<Source, Held>, all: seq<Admission>, p: Policy, k: Source) {
    && HeldOf(sources, k) == Held(Sum(all, RequestsOf(k)), Sum(all, BytesOf(k)))
    && (k in sources ==> sources[k].requests > 0)
    && HeldOf(sources, k).requests <= Allowed(p.requestsAtOnce, k)
      && HeldOf(sources, k).bytes <= Allowed(p.bytesAtOnce, k)
  }

  function Raised(h: Held, raised: bool, requests: nat, bytes: nat): Held {
    if raised then Held(h.requests + requests, h.bytes + bytes) else h
  }

  lemma Distinct(from: Address)
    ensures forall i, j | 0 <= i < j < |Sources(from)| :: Sources(from)[i] != Sources(from)[j]
    ensures 0 < |Sources(from)| <= 2
  {}

  /** A live admission's sources are counted, for at least its request and bytes. */
  lemma Covers(sources: map<Source, Held>, all: seq<Admission>, p: Policy, at: nat, k: Source)
    requires at < |all| && all[at].live && k in Sources(all[at].from) && Counted(sources, all, p, k)
    ensures k in sources && sources[k].requests >= 1 && sources[k].bytes >= all[at].bytes
  {
    SumCovers(all, at, RequestsOf(k));
    SumCovers(all, at, BytesOf(k));
  }

  /** With no request there are no bytes. */
  lemma {:induction false} NoRequests(s: seq<Admission>, k: Source)
    requires Sum(s, RequestsOf(k)) == 0
    ensures Sum(s, BytesOf(k)) == 0
    decreases |s|
  {
    if s != [] { NoRequests(s[..|s| - 1], k); }
  }

  /** A source is counted for a request of so many bytes, and for no other bytes if for no other request. */
  predicate Droppable(sources: map<Source, Held>, k: Source, bytes: nat) {
    k in sources && sources[k].requests >= 1 && sources[k].bytes >= bytes
      && (sources[k].requests == 1 ==> sources[k].bytes == bytes)
  }

  /** What dropping an admission leaves of a source of it: no bytes with no request. */
  lemma DropLeaves(sources: map<Source, Held>, all: seq<Admission>, p: Policy, at: nat, k: Source)
    requires at < |all| && all[at].live && k in Sources(all[at].from) && Counted(sources, all, p, k)
    ensures Droppable(sources, k, all[at].bytes)
  {
    Covers(sources, all, p, at, k);
    var gone := all[at].(live := false);
    SumSet(all, at, gone, RequestsOf(k));
    SumSet(all, at, gone, BytesOf(k));
    if sources[k].requests == 1 { NoRequests(all[at := gone], k); }
  }

  predicate IsFull(held: Held, p: Policy, k: Source, more: nat) {
    held.requests >= Allowed(p.requestsAtOnce, k) || held.bytes + more > Allowed(p.bytesAtOnce, k)
  }

  /** A request passes no limit together with the admissions not dropped: of bytes in all, and for each of its sources
      of requests and bytes, a /48 having 16 times the limits of one. */
  ghost predicate HasRoom(all: seq<Admission>, p: Policy, from: Address, more: nat) {
    && Sum(all, AllBytes) + more <= p.bytesAtOnceInAll
    && forall k | k in Sources(from) ::
         var times := if k.Net48? then 16 else 1;
         && Sum(all, RequestsOf(k)) + 1 <= times * p.requestsAtOnce
         && Sum(all, BytesOf(k)) + more <= times * p.bytesAtOnce
  }

  lemma RoomExact(sources: map<Source, Held>, all: seq<Admission>, p: Policy, from: Address, more: nat)
    requires forall k :: Counted(sources, all, p, k)
    ensures HasRoom(all, p, from, more) <==>
      Sum(all, AllBytes) + more <= p.bytesAtOnceInAll
        && forall k | k in Sources(from) :: !IsFull(HeldOf(sources, k), p, k, more)
  {
    forall k | k in Sources(from)
      ensures HeldOf(sources, k) == Held(Sum(all, RequestsOf(k)), Sum(all, BytesOf(k)))
    {
      assert Counted(sources, all, p, k);
    }
  }

  lemma AdmitCounted(was: map<Source, Held>, now: map<Source, Held>, all: seq<Admission>, p: Policy, one: Admission,
      k: Source)
    requires Counted(was, all, p, k) && one.live
    requires (k in Sources(one.from) ==> !IsFull(HeldOf(was, k), p, k, one.bytes))
    requires HeldOf(now, k) == Raised(HeldOf(was, k), k in Sources(one.from), 1, one.bytes)
    requires k in now ==> k in was || k in Sources(one.from)
    ensures Counted(now, all + [one], p, k)
  {
    SumPush(all, one, RequestsOf(k));
    SumPush(all, one, BytesOf(k));
  }

  lemma SetCounted(was: map<Source, Held>, now: map<Source, Held>, all: seq<Admission>, p: Policy, at: nat,
      one: Admission, k: Source)
    requires Counted(was, all, p, k) && at < |all| && all[at].live && one.from == all[at].from
    requires one.bytes <= all[at].bytes
    requires
      var (requests, bytes) := if one.live then (0, all[at].bytes - one.bytes) else (1, all[at].bytes);
      HeldOf(was, k) == Raised(HeldOf(now, k), k in Sources(one.from), requests, bytes)
    requires k in now ==> now[k].requests > 0
    ensures Counted(now, all[at := one], p, k)
  {
    SumSet(all, at, one, RequestsOf(k));
    SumSet(all, at, one, BytesOf(k));
  }

  class InFlight {
    const policy: Policy
    var bytes: nat
    var sources: map<Source, Held>
    /** Every admission made, dropped ones too. */
    ghost var all: seq<Admission>

    ghost predicate Valid()
      reads this
    {
      && bytes == Sum(all, AllBytes) && bytes <= policy.bytesAtOnceInAll
      && forall k :: Counted(sources, all, policy, k)
    }

    constructor (policy: Policy)
      ensures Valid() && all == [] && this.policy == policy
    {
      this.policy, bytes, sources, all := policy, 0, map[], [];
    }

    predicate Full(k: Source, more: nat)
      reads this
    {
      IsFull(HeldOf(sources, k), policy, k, more)
    }

    /** Admits a request exactly if it passes no limit together with the admissions not dropped, and then counts it. */
    method Admit(from: Address, route: Route, body: nat) returns (ok: bool)
      requires Valid()
      modifies this
      ensures Valid()
      ensures ok <==> HasRoom(old(all), policy, from, 2 * body + AnswerBytes(route))
      ensures AnswerBytes(route) == if route.ReadRoute? then 4_194_304 else if route.HeadsRoute? then 262_144 else 4096
      ensures all == if ok then old(all) + [Admission(from, 2 * body + AnswerBytes(route), true)] else old(all)
      ensures !ok ==> bytes == old(bytes) && sources == old(sources)
    {
      var more := 2 * body + AnswerBytes(route);
      var ks := Sources(from);
      ok := bytes + more <= policy.bytesAtOnceInAll && forall k | k in ks :: !Full(k, more);
      RoomExact(sources, all, policy, from, more);
      if !ok { return; }
      bytes := bytes + more;
      Raise(from, more);
      ghost var one := Admission(from, more, true);
      SumPush(all, one, AllBytes);
      ghost var longer := all + [one];
      forall k ensures Counted(sources, longer, policy, k) {
        assert Counted(old(sources), all, policy, k);
        AdmitCounted(old(sources), sources, all, policy, one, k);
      }
      all := longer;
    }

    method Raise(from: Address, more: nat)
      modifies `sources
      ensures forall k :: HeldOf(sources, k) == Raised(HeldOf(old(sources), k), k in Sources(from), 1, more)
      ensures forall k | k in sources :: k in old(sources) || k in Sources(from)
    {
      var ks := Sources(from);
      Distinct(from);
      for i := 0 to |ks|
        invariant forall k :: HeldOf(sources, k) == Raised(HeldOf(old(sources), k), k in ks[..i], 1, more)
        invariant forall k | k in sources :: k in old(sources) || k in ks[..i]
      {
        assert ks[..i + 1] == ks[..i] + [ks[i]];
        var held := HeldOf(sources, ks[i]);
        sources := sources[ks[i] := Held(held.requests + 1, held.bytes + more)];
      }
      assert ks[..|ks|] == ks;
    }

    /** Keeps `kept` of an admission's bytes. */
    method Keep(kept: nat, ghost at: nat, admission: Admission) returns (now: Admission)
      requires Valid() && at < |all| && all[at] == admission && admission.live && kept <= admission.bytes
      modifies this
      ensures Valid() && now == admission.(bytes := kept) && all == old(all)[at := now]
    {
      now := admission.(bytes := kept);
      var freed := admission.bytes - kept;
      SumCovers(all, at, AllBytes);
      SumSet(all, at, now, AllBytes);
      bytes := bytes - freed;
      forall k | k in Sources(admission.from) ensures k in sources && sources[k].bytes >= freed {
        assert Counted(sources, all, policy, k);
        Covers(sources, all, policy, at, k);
      }
      Lower(admission.from, freed);
      ghost var changed := all[at := now];
      forall k ensures Counted(sources, changed, policy, k) {
        assert Counted(old(sources), all, policy, k);
        SetCounted(old(sources), sources, all, policy, at, now, k);
      }
      all := changed;
    }

    method Lower(from: Address, freed: nat)
      requires forall k | k in Sources(from) :: k in sources && sources[k].bytes >= freed
      modifies `sources
      ensures forall k :: HeldOf(old(sources), k) == Raised(HeldOf(sources, k), k in Sources(from), 0, freed)
      ensures sources.Keys == old(sources).Keys
      ensures forall k | k in sources :: sources[k].requests == old(sources)[k].requests
    {
      var ks := Sources(from);
      Distinct(from);
      for i := 0 to |ks|
        invariant forall k :: HeldOf(old(sources), k) == Raised(HeldOf(sources, k), k in ks[..i], 0, freed)
        invariant sources.Keys == old(sources).Keys
        invariant forall k | k in sources :: sources[k].requests == old(sources)[k].requests
      {
        assert ks[..i + 1] == ks[..i] + [ks[i]];
        assert HeldOf(old(sources), ks[i]) == HeldOf(sources, ks[i]);
        var held := sources[ks[i]];
        sources := sources[ks[i] := Held(held.requests, held.bytes - freed)];
      }
      assert ks[..|ks|] == ks;
    }

    /** Drops an admission: it counts no more. */
    method Drop(ghost at: nat, admission: Admission)
      requires Valid() && at < |all| && all[at] == admission && admission.live
      modifies this
      ensures Valid() && all == old(all)[at := admission.(live := false)]
    {
      ghost var gone := admission.(live := false);
      SumCovers(all, at, AllBytes);
      SumSet(all, at, gone, AllBytes);
      bytes := bytes - admission.bytes;
      forall k | k in Sources(admission.from) ensures Droppable(sources, k, admission.bytes) {
        assert Counted(sources, all, policy, k);
        DropLeaves(sources, all, policy, at, k);
      }
      forall k | k in sources ensures sources[k].requests > 0 {
        assert Counted(sources, all, policy, k);
      }
      LetGo(admission.from, admission.bytes);
      ghost var changed := all[at := gone];
      forall k ensures Counted(sources, changed, policy, k) {
        assert Counted(old(sources), all, policy, k);
        SetCounted(old(sources), sources, all, policy, at, gone, k);
      }
      all := changed;
    }

    method LetGo(from: Address, freed: nat)
      requires forall k | k in Sources(from) :: Droppable(sources, k, freed)
      requires forall k | k in sources :: sources[k].requests > 0
      modifies `sources
      ensures forall k :: HeldOf(old(sources), k) == Raised(HeldOf(sources, k), k in Sources(from), 1, freed)
      ensures forall k | k in sources :: sources[k].requests > 0
    {
      var ks := Sources(from);
      Distinct(from);
      for i := 0 to |ks|
        invariant forall k :: HeldOf(old(sources), k) == Raised(HeldOf(sources, k), k in ks[..i], 1, freed)
        invariant forall k | k in sources :: sources[k].requests > 0
        invariant forall k | k in old(sources) && k !in ks[..i] :: k in sources
      {
        assert ks[..i + 1] == ks[..i] + [ks[i]];
        assert HeldOf(old(sources), ks[i]) == HeldOf(sources, ks[i]);
        assert Droppable(old(sources), ks[i], freed);
        var held := Held(sources[ks[i]].requests - 1, sources[ks[i]].bytes - freed);
        sources := if held.requests == 0 then sources - {ks[i]} else sources[ks[i] := held];
      }
      assert ks[..|ks|] == ks;
    }
  }
}
