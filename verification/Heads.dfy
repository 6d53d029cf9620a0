/** Chain values and signed heads, ideally: a chain value is the term it was built as, so equal values have equal
    histories. */
module Heads {
  import opened Refs

  type Log = nat
  type Entry = seq<byte>

  /** The chain's hashes: collision-free, so each is the value it was made from. */
  datatype Hash = Start(service: nat, log: Log) | Next(prev: Hash, entry: Entry)

  /** A signed head: `signer` is the service whose signature it carries. */
  datatype Head = Head(log: Log, length: nat, hash: Hash, time: nat, signer: nat)

  function Chain(from: Hash, entries: seq<Entry>): Hash {
    if entries == [] then from else Next(Chain(from, entries[..|entries| - 1]), entries[|entries| - 1])
  }

  lemma ChainPush(from: Hash, entries: seq<Entry>, e: Entry)
    ensures Chain(from, entries + [e]) == Next(Chain(from, entries), e)
  {
    assert (entries + [e])[..|entries|] == entries;
  }

  lemma {:induction false} ChainConcat(from: Hash, a: seq<Entry>, b: seq<Entry>)
    ensures Chain(from, a + b) == Chain(Chain(from, a), b)
    decreases |b|
  {
    if b == [] {
      assert a + b == a;
    } else {
      var rest, last := b[..|b| - 1], b[|b| - 1];
      assert a + b == (a + rest) + [last] && b == rest + [last];
      ChainConcat(from, a, rest);
      ChainPush(from, a + rest, last);
      ChainPush(Chain(from, a), rest, last);
    }
  }

  /** A hash chained from a log's start is the hash of one sequence of entries. */
  lemma {:induction false} ChainInjective(service: nat, log: Log, a: seq<Entry>, b: seq<Entry>)
    requires Chain(Start(service, log), a) == Chain(Start(service, log), b)
    ensures a == b
    decreases |a|
  {
    if a != [] && b != [] {
      ChainInjective(service, log, a[..|a| - 1], b[..|b| - 1]);
      assert a == a[..|a| - 1] + [a[|a| - 1]] && b == b[..|b| - 1] + [b[|b| - 1]];
    }
  }

  /** A head is true of a log: it is of a prefix of it. */
  ghost predicate TrueOf(h: Head, service: nat, entries: seq<Entry>) {
    h.length <= |entries| && h.hash == Chain(Start(service, h.log), entries[..h.length])
  }
}
