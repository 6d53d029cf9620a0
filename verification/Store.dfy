/**
 The membership service's store: its four tables behave as append-only logs that can expire. Every head it signs is true
 of the log, and what it lets go it deletes within each pass's limits.
 */
module Store {
  import opened Refs
  import opened Heads

  const MAX_BODY: nat := 4_194_304
  const MAX_ENTRY: nat := 1_048_576
  const APPEND_ROWS: nat := 64
  const APPEND_BYTES: nat := 2_097_152
  const PAGE_ROWS: nat := 1024
  const PAGE_OVERHEAD: nat := 512
  const EXPIRED_MS: nat := 30 * 86_400_000
  const MARK_LOGS: nat := 1024
  const EXPIRE_ROWS: nat := 1024
  const EXPIRE_BYTES: nat := 4_194_304
  /** What sealing adds to a record: its nonce, its tag, and the hash beside the entry. */
  const SEALING: nat := 24 + 16 + 32

  function Bytes(entries: seq<Entry>): nat {
    if entries == [] then 0 else Bytes(entries[..|entries| - 1]) + |entries[|entries| - 1]|
  }

  predicate Fits(e: Entry) {
    1 <= |e| <= MAX_ENTRY
  }

  /** The size bounds of one append; an empty one is refused too. */
  predicate ValidAppend(entries: seq<Entry>) {
    1 <= |entries| <= APPEND_ROWS && (forall e | e in entries :: Fits(e)) && Bytes(entries) <= APPEND_BYTES
  }

  function Encoded(e: Entry): nat {
    (4 * |e| + 2) / 3 + 3
  }

  function EncodedPage(entries: seq<Entry>): nat {
    if entries == [] then PAGE_OVERHEAD else EncodedPage(entries[..|entries| - 1]) + Encoded(entries[|entries| - 1])
  }

  predicate ValidPage(entries: seq<Entry>) {
    |entries| <= PAGE_ROWS && (forall e | e in entries :: Fits(e)) && EncodedPage(entries) <= MAX_BODY
  }

  datatype Anchor = Anchor(at: nat, length: nat, hash: Hash)
  datatype Row = Row(entry: Entry, hash: Hash)
  datatype Page = Page(after: nat, entries: seq<Entry>, head: Head)
  datatype Result<+T> = Ok(value: T) | Expired | Refused

  /** The tables: live logs, their records, the logs let go and when, and those of them whose records are not all
      deleted. */
  datatype Tables = Tables(
    service: nat, anchors: map<Log, Anchor>, records: map<(Log, nat), Row>, expired: map<Log, nat>, doomed: set<Log>)

  /** One position of a log that holds `held`: its record is there just when the log reaches it, with its entry and the
      hash through it. */
  ghost predicate RowAt(t: Tables, log: Log, held: seq<Entry>, i: nat) {
    && ((log, i) in t.records <==> 1 <= i <= |held|)
    && ((log, i) in t.records ==>
          var row := t.records[(log, i)];
          Fits(row.entry) && row.entry == held[i - 1] && row.hash == Chain(Start(t.service, log), held[..i]))
  }

  /** A log's records are exactly its positions, from 1 through its length. */
  ghost predicate Rows(t: Tables, log: Log, held: seq<Entry>) {
    forall i: nat :: RowAt(t, log, held, i)
  }

  type Logs = map<Log, seq<Entry>>

  function Held(logs: Logs, log: Log): seq<Entry> {
    if log in logs then logs[log] else []
  }

  /** A log as the tables show it: live, with its records and the hash of them all; or let go, with records only while
      doomed; or never appended to, or forgotten, with none. */
  ghost predicate Shows(t: Tables, logs: Logs, log: Log) {
    && (log in t.anchors <==> log in logs)
    && (log in t.anchors ==>
          && log !in t.expired
          && logs[log] != []
          && t.anchors[log].length == |logs[log]|
          && t.anchors[log].hash == Chain(Start(t.service, log), logs[log]))
    && (log in t.doomed ==> log in t.expired)
    && (log !in t.doomed ==> Rows(t, log, Held(logs, log)))
  }

  /** The tables hold exactly the live logs `logs`. */
  ghost predicate Sound(t: Tables, logs: Logs) {
    && (forall log :: Shows(t, logs, log))
    && forall k | k in t.records :: Fits(t.records[k].entry)
  }

  class Service {
    const service: nat
    var anchors: map<Log, Anchor>
    var records: map<(Log, nat), Row>
    var expired: map<Log, nat>
    var doomed: set<Log>
    /** The live logs, by what was appended to them. */
    ghost var logs: Logs

    ghost predicate Valid()
      reads this
    {
      Sound(View(), logs)
    }

    function View(): Tables
      reads this
    {
      Tables(service, anchors, records, expired, doomed)
    }

    constructor (service: nat)
      ensures Valid() && logs == map[] && this.service == service && expired == map[]
    {
      this.service, anchors, records, expired, doomed, logs := service, map[], map[], map[], {}, map[];
    }

    /** Where a log stands: the size of `Held(logs, log)` and the chain value over it, for any log not let go. */
    method State(log: Log) returns (r: Result<(nat, Hash)>)
      requires Valid()
      ensures r.Expired? <==> log in expired
      ensures !r.Refused?
      ensures r.Ok? ==> r.value == (|Held(logs, log)|, Chain(Start(service, log), Held(logs, log)))
    {
      assert Shows(View(), logs, log);
      if log !in anchors {
        if log in expired { return Expired; }
        return Ok((0, Start(service, log)));
      }
      return Ok((anchors[log].length, anchors[log].hash));
    }

    /** Reads a page: entries from after a position, whole within a body, and the head of what it reaches. Before the
        end there is always one, so the hash signed is that of the prefix returned. */
    method Read(log: Log, after: nat, now: nat) returns (r: Result<Page>)
      requires Valid()
      ensures r.Expired? <==> log in expired
      ensures r.Refused? <==> log !in expired && after > |Held(logs, log)|
      ensures r.Ok? ==>
        var (held, page) := (Held(logs, log), r.value);
        && page.after == after && after + |page.entries| <= |held|
        && page.entries == held[after..after + |page.entries|]
        && (after < |held| ==> page.entries != [])
        && ValidPage(page.entries) && FillsPage(held, after, page.entries)
        && page.head.log == log && page.head.signer == service && page.head.length == after + |page.entries|
        && page.head.time == now && TrueOf(page.head, service, held)
    {
      var state := State(log);
      if !state.Ok? { return Expired; }
      var (length, hash) := state.value;
      if after > length { return Refused; }
      assert Shows(View(), logs, log);
      var entries, last := ReadRows(log, after, hash, Held(logs, log));
      return Ok(Page(after, entries, Head(log, after + |entries|, last, now, service)));
    }

    /** Accumulates the records after a position, and the hash after the last of them. */
    method ReadRows(log: Log, after: nat, tip: Hash, ghost held: seq<Entry>) returns (entries: seq<Entry>, hash: Hash)
      requires Rows(View(), log, held) && after <= |held| && tip == Chain(Start(service, log), held)
      ensures after + |entries| <= |held| && entries == held[after..after + |entries|]
      ensures after < |held| ==> entries != []
      ensures ValidPage(entries) && FillsPage(held, after, entries)
      ensures hash == Chain(Start(service, log), held[..after + |entries|])
    {
      ghost var from := Start(service, log);
      var encoded: nat := PAGE_OVERHEAD;
      entries, hash := [], tip;
      while |entries| < PAGE_ROWS && (log, after + |entries| + 1) in records
        invariant Reading(from, held, after, entries, encoded, hash)
        decreases PAGE_ROWS - |entries|
      {
        var row := records[(log, after + |entries| + 1)];
        assert RowAt(View(), log, held, after + |entries| + 1);
        if encoded + Encoded(row.entry) > MAX_BODY {
          ReadingFull(from, held, after, entries, encoded, hash, row.entry);
          ReadingEnds(from, held, after, entries, encoded, hash);
          return;
        }
        ReadingGrows(from, held, after, entries, encoded, hash, row);
        entries, encoded, hash := entries + [row.entry], encoded + Encoded(row.entry), row.hash;
      }
      assert RowAt(View(), log, held, after + |entries| + 1);
      ReadingEnds(from, held, after, entries, encoded, hash);
    }

    /** Extends a log by `entries`, if they are valid, the log was not let go, and `room` holds; a log keeps the time of
        its first append. */
    method Append(log: Log, entries: seq<Entry>, room: bool, now: nat) returns (r: Result<Head>)
      requires Valid()
      modifies `anchors, `records, `logs
      ensures Valid()
      ensures ValidAppend(entries) <==>
        1 <= |entries| <= 64 && (forall e | e in entries :: 1 <= |e| <= 1_048_576) && Bytes(entries) <= 2_097_152
      ensures r.Ok? <==> ValidAppend(entries) && log !in expired && room
      ensures r.Expired? <==> ValidAppend(entries) && log in expired
      ensures !r.Ok? ==> View() == old(View()) && logs == old(logs)
      ensures r.Ok? ==>
        && logs == old(logs)[log := Held(old(logs), log) + entries]
        && anchors.Keys == old(anchors).Keys + {log}
        && (forall other | other in anchors ::
          anchors[other].at == if other in old(anchors) then old(anchors)[other].at else now)
        && r.value.log == log && r.value.signer == service && r.value.length == |logs[log]|
        && r.value.time == now && TrueOf(r.value, service, logs[log])
    {
      if !ValidAppend(entries) { return Refused; }
      var state := State(log);
      if !state.Ok? { return Expired; }
      if !room { return Refused; }
      var (length, hash) := state.value;
      ghost var held := Held(logs, log);
      assert Shows(View(), logs, log);
      var last := AppendRows(log, length, entries, hash, held);
      ghost var mid := View();
      var at := if log in anchors then anchors[log].at else now;
      anchors := anchors[log := Anchor(at, length + |entries|, last)];
      logs := logs[log := held + entries];
      SameRows(mid, View(), log, held + entries);
      AppendedSound(old(View()), old(logs), View(), logs, log);
      assert (held + entries)[..length + |entries|] == held + entries;
      return Ok(Head(log, length + |entries|, last, now, service));
    }

    /** Inserts the records of appended entries. */
    method AppendRows(log: Log, length: nat, entries: seq<Entry>, tip: Hash, ghost held: seq<Entry>)
        returns (hash: Hash)
      requires length == |held| && tip == Chain(Start(service, log), held) && Rows(View(), log, held)
      requires forall e | e in entries :: Fits(e)
      modifies `records
      ensures hash == Chain(Start(service, log), held + entries) && Rows(View(), log, held + entries)
      ensures forall k: (Log, nat) | k.0 != log ::
        (k in records <==> k in old(records)) && (k in records ==> records[k] == old(records)[k])
    {
      hash := tip;
      assert held + entries[..0] == held;
      for n := 0 to |entries|
        invariant hash == Chain(Start(service, log), held + entries[..n])
        invariant Rows(View(), log, held + entries[..n])
        invariant forall k: (Log, nat) | k.0 != log ::
          (k in records <==> k in old(records)) && (k in records ==> records[k] == old(records)[k])
      {
        ghost var before, was := held + entries[..n], View();
        assert held + entries[..n + 1] == before + [entries[n]];
        ChainPush(Start(service, log), before, entries[n]);
        hash := Next(hash, entries[n]);
        records := records[(log, length + n + 1) := Row(entries[n], hash)];
        RowsGrow(was, View(), log, before, entries[n]);
      }
      assert entries[..|entries|] == entries;
    }

    /** Compares lengths: true heads of exactly the logs whose length is not one given in `known`, and the logs of
        `known` let go. */
    method Moved(known: seq<(Log, nat)>, now: nat) returns (heads: seq<Head>, gone: seq<Log>)
      requires Valid()
      ensures forall h | h in heads ::
        && h.log !in expired && h.signer == service && h.length == |Held(logs, h.log)| && h.time == now
        && TrueOf(h, service, Held(logs, h.log)) && exists n :: n != h.length && (h.log, n) in known
      ensures forall l, n | (l, n) in known && l !in expired && |Held(logs, l)| != n ::
        exists h :: h in heads && h.log == l
      ensures forall l :: l in gone <==> l in expired && exists n :: (l, n) in known
    {
      heads, gone := [], [];
      for i := 0 to |known|
        invariant forall h | h in heads ::
          && h.log !in expired && h.signer == service && h.length == |Held(logs, h.log)| && h.time == now
          && TrueOf(h, service, Held(logs, h.log)) && exists n :: n != h.length && (h.log, n) in known
        invariant forall l, n | (l, n) in known[..i] && l !in expired && |Held(logs, l)| != n ::
          exists h :: h in heads && h.log == l
        invariant forall l :: l in gone <==> l in expired && exists n :: (l, n) in known[..i]
      {
        var (log, length) := known[i];
        assert known[..i + 1] == known[..i] + [known[i]];
        var state := State(log);
        if state.Expired? {
          gone := gone + [log];
        } else if state.value.0 != length {
          assert Held(logs, log)[..|Held(logs, log)|] == Held(logs, log);
          heads := heads + [Head(log, state.value.0, state.value.1, now, service)];
          assert heads[|heads| - 1].log == log;
        }
      }
      assert known[..|known|] == known;
    }

    /** Forgets at most `MARK_LOGS` of the logs let go more than `EXPIRED_MS` ago whose records are all deleted. */
    method Forget(now: nat) returns (forgotten: set<Log>)
      requires Valid()
      modifies `expired
      ensures Valid()
      ensures forgotten <= Forgettable(old(View()), now) && |forgotten| <= MARK_LOGS
      ensures |forgotten| < MARK_LOGS ==> forgotten == Forgettable(old(View()), now)
      ensures expired == old(expired) - forgotten
    {
      forgotten := Limited(Forgettable(View(), now));
      ForgetSound(View(), logs, forgotten);
      expired := expired - forgotten;
    }

    /** Takes up to `MARK_LOGS` overdue logs out of `anchors`, into `expired` and `doomed`. */
    method MarkOverdue(before: nat, now: nat) returns (marked: set<Log>)
      requires Valid()
      modifies `anchors, `expired, `doomed, `logs
      ensures Valid()
      ensures marked <= Overdue(old(View()), before) && |marked| <= MARK_LOGS
      ensures |marked| < MARK_LOGS ==> marked == Overdue(old(View()), before)
      ensures View() == Marked(old(View()), marked, now) && logs == old(logs) - marked
    {
      marked := Limited(Overdue(View(), before));
      MarkSound(View(), logs, marked, now);
      LetGo(marked, now);
      logs := logs - marked;
    }

    method LetGo(marked: set<Log>, now: nat)
      modifies `anchors, `expired, `doomed
      ensures View() == Marked(old(View()), marked, now)
    {
      var todo := marked;
      assert View() == Marked(View(), marked - todo, now);
      while todo != {}
        invariant todo <= marked
        invariant View() == Marked(old(View()), marked - todo, now)
        decreases todo
      {
        var log :| log in todo;
        MarkMore(old(View()), marked - todo, log, now);
        assert marked - (todo - {log}) == marked - todo + {log};
        anchors, doomed, expired := anchors - {log}, doomed + {log}, expired[log := now];
        todo := todo - {log};
      }
      assert marked - todo == marked;
    }

    /** Deletes one record of a log let go: its first. */
    method ReapRow(log: Log)
      requires Valid() && log in doomed && Positions(records, log) != {}
      modifies `records
      ensures Valid() && records == old(records) - {(log, Smallest(Positions(old(records), log)))}
    {
      ReapSound(View(), logs, (log, Smallest(Positions(records, log))));
      records := records - {(log, Smallest(Positions(records, log)))};
    }

    /** Deletes records of doomed logs, at most `EXPIRE_ROWS` and `EXPIRE_BYTES` of them; false once no log is doomed.
        */
    method Reap() returns (more: bool, ghost deleted: seq<(Log, nat)>)
      requires Valid()
      modifies `records, `doomed
      ensures Valid() && Deletes(old(records), deleted, records) && (forall k | k in deleted :: k.0 in old(doomed))
      ensures |deleted| <= EXPIRE_ROWS && SizeOf(old(records), deleted) <= EXPIRE_BYTES
      ensures doomed <= old(doomed)
      ensures more ==> deleted != [] && (|deleted| == EXPIRE_ROWS || TooMuch(View(), SizeOf(old(records), deleted)))
      ensures !more ==> doomed == {}
    {
      var rows, bytes := 0, 0;
      deleted := [];
      while rows < EXPIRE_ROWS
        invariant Valid() && Deletes(old(records), deleted, records) && (forall k | k in deleted :: k.0 in old(doomed))
        invariant rows == |deleted| <= EXPIRE_ROWS && bytes == SizeOf(old(records), deleted) <= EXPIRE_BYTES
        invariant deleted == [] ==> bytes == 0
        invariant doomed <= old(doomed)
        decreases EXPIRE_ROWS - rows, doomed
      {
        if doomed == {} { return false, deleted; }
        var log :| log in doomed;
        if Positions(records, log) == {} {
          ReapedSound(View(), logs, log);
          doomed := doomed - {log};
        } else {
          var k := (log, Smallest(Positions(records, log)));
          var size := |records[k].entry| + SEALING;
          assert Fits(records[k].entry);
          if bytes + size > EXPIRE_BYTES { return true, deleted; }
          DeletesMore(old(records), deleted, records, k);
          ReapRow(log);
          rows, bytes, deleted := rows + 1, bytes + size, deleted + [k];
        }
      }
      return true, deleted;
    }

    /** Forgets, marks and reaps once, each within its limit. True means that another pass is due, and then `Nearer`
        holds. */
    method Expire(before: nat, now: nat)
        returns (more: bool, ghost forgotten: set<Log>, ghost marked: set<Log>, ghost deleted: seq<(Log, nat)>)
      requires Valid()
      modifies `anchors, `records, `expired, `doomed, `logs
      ensures Valid()
      ensures |marked| <= MARK_LOGS && |deleted| <= EXPIRE_ROWS && SizeOf(old(records), deleted) <= EXPIRE_BYTES
      ensures forgotten <= Forgettable(old(View()), now) && |forgotten| <= MARK_LOGS
      ensures marked <= Overdue(old(View()), before) && anchors == old(anchors) - marked && logs == old(logs) - marked
      ensures expired == (old(expired) - forgotten) + map l | l in marked :: now
      ensures Deletes(old(records), deleted, records) && doomed <= old(doomed) + marked
      ensures more ==> Nearer(old(View()), View(), before, now)
      ensures !more ==> Overdue(View(), before) == {} && doomed == {} && forgotten == Forgettable(old(View()), now)
    {
      var gone := Forget(now);
      forgotten := gone;
      var due := MarkOverdue(before, now);
      marked := due;
      more, deleted := Reap();
      Progress(old(View()), forgotten, marked, deleted, View(), before, now, more);
      assert Overdue(View(), before) == Overdue(old(View()), before) - marked;
      more := more || |due| == MARK_LOGS || |gone| == MARK_LOGS;
    }

    /** Answers one call, whichever it is. */
    method Serve(call: Call, now: nat) returns (signed: seq<Head>, ghost went: set<Log>)
      requires Valid()
      modifies `anchors, `records, `expired, `doomed, `logs
      ensures Valid() && Serves(service, old(logs), Served(signed, went), logs)
      ensures forall l | l in went :: call.Expiring? && l in old(anchors) && old(anchors)[l].at < call.before
    {
      signed, went := [], {};
      match call
      case Appending(log, entries, room) =>
        var r := Append(log, entries, room, now);
        if r.Ok? { signed := [r.value]; }
      case Paging(log, after) =>
        var r := Read(log, after, now);
        if r.Ok? { signed := [r.value.head]; }
      case Comparing(known) =>
        var heads, gone := Moved(known, now);
        signed := heads;
      case Expiring(before) =>
        ghost var forgotten, deleted;
        var more;
        more, forgotten, went, deleted := Expire(before, now);
    }

    /** Answers call after call: what they sign and let go is a run. */
    method ServeAll(calls: seq<(Call, nat)>)
        returns (signed: seq<seq<Head>>, ghost ls: seq<Logs>, ghost done: seq<Served>)
      requires Valid()
      modifies `anchors, `records, `expired, `doomed, `logs
      ensures Valid() && Calls(service, ls, done) && ls[0] == old(logs) && ls[|done|] == logs
      ensures |signed| == |done| == |calls| && forall i | 0 <= i < |calls| :: done[i].signed == signed[i]
    {
      signed, ls, done := [], [logs], [];
      for n := 0 to |calls|
        invariant Valid() && Calls(service, ls, done) && ls[0] == old(logs) && ls[|done|] == logs
        invariant |signed| == |done| == n && forall i | 0 <= i < n :: done[i].signed == signed[i]
      {
        ghost var went;
        var heads;
        heads, went := Serve(calls[n].0, calls[n].1);
        CallsMore(service, ls, done, Served(heads, went), logs);
        ls, done, signed := ls + [logs], done + [Served(heads, went)], signed + [heads];
      }
    }

    /** Repeated passes at a fixed clock end: no log first appended to before `before` is left, no record of a log let
        go, and no reference that was old and without records; while a log within retention keeps everything, and a
        reference stays for 30 days. */
    method ExpireAll(before: nat, now: nat)
      requires Valid()
      modifies `anchors, `records, `expired, `doomed, `logs
      ensures Valid() && doomed == {}
      ensures forall log :: log in anchors <==> log in old(anchors) && before <= old(anchors)[log].at
      ensures forall log | log in anchors ::
        anchors[log] == old(anchors)[log] && Held(logs, log) == Held(old(logs), log)
      ensures forall log | log in old(expired) :: References(old(View()), View(), now, log)
    {
      var more := true;
      MarkedNew(View(), logs, anchors.Keys);
      while more
        invariant Valid() && Lessens(old(View()), View(), before, now)
        invariant forall log | log in anchors :: Held(logs, log) == Held(old(logs), log)
        invariant !more ==> Overdue(View(), before) == {} && doomed == {} && NoneStale(old(View()), View(), now)
        decreases more, |Overdue(View(), before)|, |DoomedRows(View())|, |doomed|, |Forgettable(View(), now)|
      {
        more := ExpireMore(before, now, old(View()));
      }
      LessensEnds(old(View()), View(), before, now);
    }

    /** One more pass of several that began at `was`. */
    method ExpireMore(before: nat, now: nat, ghost was: Tables) returns (more: bool)
      requires Valid() && Lessens(was, View(), before, now)
      modifies `anchors, `records, `expired, `doomed, `logs
      ensures Valid() && Lessens(was, View(), before, now)
      ensures forall log | log in anchors :: log in old(anchors) && Held(logs, log) == Held(old(logs), log)
      ensures more ==> Nearer(old(View()), View(), before, now)
      ensures !more ==> Overdue(View(), before) == {} && doomed == {} && NoneStale(was, View(), now)
    {
      ghost var t, ls := View(), logs;
      ghost var forgotten, marked, deleted;
      more, forgotten, marked, deleted := Expire(before, now);
      MarkedNew(t, ls, marked);
      LessensMore(was, t, forgotten, marked, View(), before, now);
    }
  }

  /** Some of the rows a query selects, up to its limit: all of them when they are fewer. */
  method Limited(all: set<Log>) returns (some: set<Log>)
    ensures some <= all && |some| <= MARK_LOGS
    ensures |some| < MARK_LOGS ==> some == all
  {
    some := {};
    var todo := all;
    while todo != {} && |some| < MARK_LOGS
      invariant some + todo == all && some !! todo && |some| <= MARK_LOGS
      decreases todo
    {
      var log :| log in todo;
      some, todo := some + {log}, todo - {log};
    }
  }

  /** A page as far as it is read: a stretch of the log within a page's bounds, and the hash through it; of the whole
      log while there is no entry yet. */
  ghost predicate Reading(from: Hash, held: seq<Entry>, after: nat, entries: seq<Entry>, encoded: nat, hash: Hash) {
    && after + |entries| <= |held| && entries == held[after..after + |entries|] && |entries| <= PAGE_ROWS
    && (forall e | e in entries :: Fits(e)) && encoded == EncodedPage(entries) <= MAX_BODY
    && hash == Chain(from, if entries == [] then held else held[..after + |entries|])
  }

  /** A page stops where the log or its rows end, or before an entry that no longer fits in a body. */
  ghost predicate FillsPage(held: seq<Entry>, after: nat, entries: seq<Entry>) {
    var end := after + |entries|;
    end >= |held| || |entries| == 1024 || EncodedPage(entries) + Encoded(held[end]) > 4_194_304
  }

  /** A page stops at an entry that does not fit; the first of a page always does. */
  lemma ReadingFull(from: Hash, held: seq<Entry>, after: nat, entries: seq<Entry>, encoded: nat, hash: Hash, e: Entry)
    requires Reading(from, held, after, entries, encoded, hash) && after + |entries| < |held|
    requires e == held[after + |entries|] && Fits(e) && encoded + Encoded(e) > MAX_BODY
    ensures FillsPage(held, after, entries) && entries != []
  {}

  /** An entry is counted as its bytes in base 64, four characters for three, with its quotes and comma. */
  lemma {:induction false} PageBytes(entries: seq<Entry>)
    ensures 4 * Bytes(entries) <= 3 * (EncodedPage(entries) - 512 - 3 * |entries|) <= 4 * Bytes(entries) + 2 * |entries|
    decreases |entries|
  {
    if entries != [] { PageBytes(entries[..|entries| - 1]); }
  }

  lemma {:induction false} BytesJoin(a: seq<Entry>, b: seq<Entry>)
    ensures Bytes(a + b) == Bytes(a) + Bytes(b)
    decreases |b|
  {
    if b == [] {
      assert a + b == a;
    } else {
      var rest := b[..|b| - 1];
      BytesJoin(a, rest);
      assert (a + b)[..|a + b| - 1] == a + rest;
    }
  }

  lemma ReadingGrows(from: Hash, held: seq<Entry>, after: nat, entries: seq<Entry>, encoded: nat, hash: Hash, row: Row)
    requires Reading(from, held, after, entries, encoded, hash) && |entries| < PAGE_ROWS && after + |entries| < |held|
    requires Fits(row.entry) && row.entry == held[after + |entries|]
    requires row.hash == Chain(from, held[..after + |entries| + 1])
    requires encoded + Encoded(row.entry) <= MAX_BODY
    ensures Reading(from, held, after, entries + [row.entry], encoded + Encoded(row.entry), row.hash)
  {
    var n, more := |entries|, entries + [row.entry];
    assert more[..n] == entries && more[n] == row.entry;
    assert held[after..after + n] + [held[after + n]] == held[after..after + n + 1];
  }

  lemma ReadingEnds(from: Hash, held: seq<Entry>, after: nat, entries: seq<Entry>, encoded: nat, hash: Hash)
    requires Reading(from, held, after, entries, encoded, hash) && (after < |held| ==> entries != [])
    ensures hash == Chain(from, held[..after + |entries|])
  {
    if entries == [] { assert held[..after] == held; }
  }

  lemma RowsGrow(t: Tables, t': Tables, log: Log, held: seq<Entry>, e: Entry)
    requires Rows(t, log, held) && Fits(e)
    requires t' == t.(records := t.records[(log, |held| + 1) := Row(e, Chain(Start(t.service, log), held + [e]))])
    ensures Rows(t', log, held + [e])
  {
    forall i: nat ensures RowAt(t', log, held + [e], i) {
      assert RowAt(t, log, held, i);
      if i <= |held| { assert (held + [e])[..i] == held[..i]; }
      if i == |held| + 1 { assert (held + [e])[..i] == held + [e]; }
    }
  }

  /** What is kept of every other log. */
  lemma AppendedSound(t: Tables, logs: Logs, t': Tables, logs': Logs, log: Log)
    requires Sound(t, logs) && log !in t.expired && log in logs'
    requires t' == t.(anchors := t'.anchors, records := t'.records)
    requires forall l | l != log :: (l in t'.anchors <==> l in t.anchors) && (l in t.anchors ==>
      t'.anchors[l] == t.anchors[l]) && (l in logs' <==> l in logs) && (l in logs ==> logs'[l] == logs[l])
    requires forall k: (Log, nat) | k.0 != log ::
      (k in t'.records <==> k in t.records) && (k in t.records ==> t'.records[k] == t.records[k])
    requires log in t'.anchors && logs'[log] != [] && t'.anchors[log].length == |logs'[log]|
    requires t'.anchors[log].hash == Chain(Start(t.service, log), logs'[log])
    requires Rows(t', log, logs'[log])
    ensures Sound(t', logs')
  {
    forall l ensures Shows(t', logs', l) {
      assert Shows(t, logs, l);
      if l != log && l !in t.doomed { SameRows(t, t', l, Held(logs, l)); }
    }
    forall k | k in t'.records ensures Fits(t'.records[k].entry) {
      if k.0 == log { assert RowAt(t', log, logs'[log], k.1) && k == (log, k.1); }
    }
  }

  lemma SameRows(t: Tables, t': Tables, log: Log, held: seq<Entry>)
    requires Rows(t, log, held) && t'.service == t.service
    requires forall k: (Log, nat) | k.0 == log ::
      (k in t'.records <==> k in t.records) && (k in t.records ==> t'.records[k] == t.records[k])
    ensures Rows(t', log, held)
  {
    forall i: nat ensures RowAt(t', log, held, i) { assert RowAt(t, log, held, i); }
  }

  function Overdue(t: Tables, before: nat): set<Log> {
    set l | l in t.anchors && t.anchors[l].at < before
  }

  function Forgettable(t: Tables, now: nat): set<Log> {
    set l | l in t.expired && t.expired[l] < (if now < EXPIRED_MS then 0 else now - EXPIRED_MS) && l !in t.doomed
  }

  /** Logs let go keep only their reference and when they went, and their records until they are deleted. */
  function Marked(t: Tables, marked: set<Log>, now: nat): Tables {
    t.(anchors := t.anchors - marked, doomed := t.doomed + marked, expired := t.expired + map l | l in marked :: now)
  }

  lemma MarkMore(t: Tables, done: set<Log>, log: Log, now: nat)
    ensures var u := Marked(t, done, now);
      Marked(t, done + {log}, now) ==
        u.(anchors := u.anchors - {log}, doomed := u.doomed + {log}, expired := u.expired[log := now])
  {
    assert t.anchors - (done + {log}) == t.anchors - done - {log};
    assert t.doomed + (done + {log}) == t.doomed + done + {log};
    ExpiredMore(t.expired, done, log, now);
  }

  lemma ExpiredMore(expired: map<Log, nat>, done: set<Log>, log: Log, now: nat)
    ensures expired + (map l | l in done + {log} :: now) == (expired + map l | l in done :: now)[log := now]
  {
    var a, b := expired + (map l | l in done + {log} :: now), (expired + map l | l in done :: now)[log := now];
    assert a.Keys == b.Keys;
    forall l | l in a ensures a[l] == b[l] {}
  }

  /** A forgotten log leaves no record: it may be appended to anew. */
  lemma ForgetSound(t: Tables, logs: Logs, forgotten: set<Log>)
    requires Sound(t, logs) && forgotten !! t.doomed
    ensures Sound(t.(expired := t.expired - forgotten), logs)
  {
    var t' := t.(expired := t.expired - forgotten);
    forall l ensures Shows(t', logs, l) {
      assert Shows(t, logs, l);
      if l !in t.doomed { SameRows(t, t', l, Held(logs, l)); }
    }
  }

  lemma MarkSound(t: Tables, logs: Logs, marked: set<Log>, now: nat)
    requires Sound(t, logs) && marked <= t.anchors.Keys
    ensures Sound(Marked(t, marked, now), logs - marked)
  {
    var t' := Marked(t, marked, now);
    forall l ensures Shows(t', logs - marked, l) {
      assert Shows(t, logs, l);
      if l !in t'.doomed { SameRows(t, t', l, Held(logs, l)); }
    }
  }

  function Positions(records: map<(Log, nat), Row>, log: Log): (ps: set<nat>)
    ensures forall i :: i in ps <==> (log, i) in records
  {
    set k | k in records && k.0 == log :: k.1
  }

  /** Records left after some were deleted, one after another. */
  ghost predicate Deletes(was: map<(Log, nat), Row>, ks: seq<(Log, nat)>, now: map<(Log, nat), Row>)
    decreases |ks|
  {
    if ks == [] then now == was else ks[0] in was && Deletes(was - {ks[0]}, ks[1..], now)
  }

  /** The sealed bytes of records deleted. */
  ghost function SizeOf(was: map<(Log, nat), Row>, ks: seq<(Log, nat)>): nat
    decreases |ks|
  {
    if ks == [] || ks[0] !in was then 0 else |was[ks[0]].entry| + SEALING + SizeOf(was - {ks[0]}, ks[1..])
  }

  /** The next record to delete no longer fits in a pass. */
  ghost predicate TooMuch(t: Tables, bytes: nat) {
    exists log :: log in t.doomed && Positions(t.records, log) != {}
      && bytes + |t.records[(log, Smallest(Positions(t.records, log)))].entry| + SEALING > EXPIRE_BYTES
  }

  /** The entries of some records. */
  ghost function EntriesAt(was: map<(Log, nat), Row>, ks: seq<(Log, nat)>): (es: seq<Entry>)
    requires forall k | k in ks :: k in was
    ensures |es| == |ks| && forall i | 0 <= i < |ks| :: es[i] == was[ks[i]].entry
  {
    seq(|ks|, i requires 0 <= i < |ks| => was[ks[i]].entry)
  }

  /** Deleting counts each record's entry, and 72 bytes more for its seal and hash. */
  lemma {:induction false} SizeExact(was: map<(Log, nat), Row>, ks: seq<(Log, nat)>, now: map<(Log, nat), Row>)
    requires Deletes(was, ks, now)
    ensures forall k | k in ks :: k in was
    ensures SizeOf(was, ks) == Bytes(EntriesAt(was, ks)) + 72 * |ks|
    decreases |ks|
  {
    if ks != [] {
      var left := was - {ks[0]};
      SizeExact(left, ks[1..], now);
      assert forall k :: k in ks <==> k == ks[0] || k in ks[1..];
      assert EntriesAt(was, ks) == [was[ks[0]].entry] + EntriesAt(left, ks[1..]);
      BytesJoin([was[ks[0]].entry], EntriesAt(left, ks[1..]));
      assert [was[ks[0]].entry][..0] == [];
    }
  }

  /** What is left of a reference to a log let go before: it stays for 30 days, and after them goes if its log had no
      record left. */
  ghost predicate References(t: Tables, t': Tables, now: nat, log: Log)
    requires log in t.expired
  {
    && (log in t'.expired ==> t'.expired[log] == t.expired[log])
    && (now <= t.expired[log] + 30 * 86_400_000 ==> log in t'.expired)
    && (t.expired[log] + 30 * 86_400_000 < now && log !in t.doomed ==> log !in t'.expired)
  }

  /** How passes change the tables: only overdue logs go, and references stay as they are for 30 days. */
  ghost predicate Lessens(t: Tables, t': Tables, before: nat, now: nat) {
    && (forall l | l in t'.anchors :: l in t.anchors && t'.anchors[l] == t.anchors[l])
    && (forall l | l in t.anchors && before <= t.anchors[l].at :: l in t'.anchors)
    && (forall l | l in t.expired :: l !in t'.anchors)
    && (forall l | l in t.expired && l in t'.expired ::
      t'.expired[l] == t.expired[l] && (l in t'.doomed ==> l in t.doomed))
    && forall l | l in t.expired && now <= t.expired[l] + 30 * 86_400_000 :: l in t'.expired
  }

  ghost predicate NoneStale(t: Tables, t': Tables, now: nat) {
    forall l | l in t.expired && t.expired[l] + 30 * 86_400_000 < now && l !in t.doomed :: l !in t'.expired
  }

  lemma LessensEnds(t: Tables, t': Tables, before: nat, now: nat)
    requires Lessens(t, t', before, now) && Overdue(t', before) == {} && NoneStale(t, t', now)
    ensures forall l :: l in t'.anchors <==> l in t.anchors && before <= t.anchors[l].at
    ensures forall l | l in t.expired :: References(t, t', now, l)
  {
    assert forall l | l in t'.anchors :: l !in Overdue(t', before);
  }

  /** What is let go was live, so not let go before. */
  lemma MarkedNew(t: Tables, logs: Logs, marked: set<Log>)
    requires Sound(t, logs) && marked <= t.anchors.Keys
    ensures forall l | l in marked :: l !in t.expired
  {
    forall l | l in marked ensures l !in t.expired { assert Shows(t, logs, l); }
  }

  lemma LessensMore(was: Tables, t: Tables, forgotten: set<Log>, marked: set<Log>, t': Tables, before: nat, now: nat)
    requires Lessens(was, t, before, now) && marked <= Overdue(t, before) && forgotten <= Forgettable(t, now)
    requires t'.anchors == t.anchors - marked && t'.expired == (t.expired - forgotten) + map l | l in marked :: now
    requires t'.doomed <= t.doomed + marked && forall l | l in marked :: l !in t.expired
    ensures Lessens(was, t', before, now)
    ensures forgotten == Forgettable(t, now) ==> NoneStale(was, t', now)
  {}

  lemma {:induction false} DeletesMore(was: map<(Log, nat), Row>, ks: seq<(Log, nat)>, now: map<(Log, nat), Row>,
      k: (Log, nat))
    requires Deletes(was, ks, now) && k in now
    ensures Deletes(was, ks + [k], now - {k})
    ensures SizeOf(was, ks + [k]) == SizeOf(was, ks) + |now[k].entry| + SEALING
    decreases |ks|
  {
    if ks == [] {
      assert [k][1..] == [] && ks + [k] == [k];
    } else {
      DeletesMore(was - {ks[0]}, ks[1..], now, k);
      assert (ks + [k])[1..] == ks[1..] + [k] && (ks + [k])[0] == ks[0];
    }
  }

  /** Each deletion takes one record. */
  lemma {:induction false} DeletesCount(was: map<(Log, nat), Row>, ks: seq<(Log, nat)>, now: map<(Log, nat), Row>)
    requires Deletes(was, ks, now)
    ensures now.Keys <= was.Keys && |now| == |was| - |ks|
    decreases |ks|
  {
    if ks != [] {
      assert (was - {ks[0]}).Keys == was.Keys - {ks[0]};
      DeletesCount(was - {ks[0]}, ks[1..], now);
    }
  }

  lemma ReapSound(t: Tables, logs: Logs, k: (Log, nat))
    requires Sound(t, logs) && k.0 in t.doomed
    ensures Sound(t.(records := t.records - {k}), logs)
  {
    var t' := t.(records := t.records - {k});
    forall l ensures Shows(t', logs, l) {
      assert Shows(t, logs, l);
      if l !in t.doomed { SameRows(t, t', l, Held(logs, l)); }
    }
  }

  lemma ReapedSound(t: Tables, logs: Logs, log: Log)
    requires Sound(t, logs) && log in t.doomed && Positions(t.records, log) == {}
    ensures Sound(t.(doomed := t.doomed - {log}), logs)
  {
    var t' := t.(doomed := t.doomed - {log});
    forall l ensures Shows(t', logs, l) {
      assert Shows(t, logs, l);
      if l == log {
        forall i: nat ensures RowAt(t', l, [], i) { assert i !in Positions(t.records, log); }
      } else if l !in t.doomed {
        SameRows(t, t', l, Held(logs, l));
      }
    }
  }

  /** The records left of logs let go. */
  ghost function DoomedRows(t: Tables): set<(Log, nat)> {
    set k | k in t.records && k.0 in t.doomed
  }

  /** Less is left, in this order: logs overdue, records of logs let go, those logs, and references to forget. */
  ghost predicate Nearer(t: Tables, t': Tables, before: nat, now: nat) {
    var (a, b, c, d) := (|Overdue(t, before)|, |DoomedRows(t)|, |t.doomed|, |Forgettable(t, now)|);
    var (a', b', c', d') := (|Overdue(t', before)|, |DoomedRows(t')|, |t'.doomed|, |Forgettable(t', now)|);
    a' < a || (a' == a && (b' < b || (b' == b && (c' < c || (c' == c && d' < d)))))
  }

  lemma OverdueLeft(t: Tables, t': Tables, marked: set<Log>, before: nat)
    requires t'.anchors == t.anchors - marked && marked <= Overdue(t, before)
    ensures if marked == {} then |Overdue(t', before)| == |Overdue(t, before)|
            else |Overdue(t', before)| < |Overdue(t, before)|
  {
    assert Overdue(t', before) == Overdue(t, before) - marked;
    if x :| x in marked { Shrinks(Overdue(t', before), Overdue(t, before), x); }
  }

  /** A pass that answers that more is left made progress. */
  lemma Progress(t: Tables, forgotten: set<Log>, marked: set<Log>, deleted: seq<(Log, nat)>, t': Tables, before: nat,
      now: nat, more: bool)
    requires t'.anchors == t.anchors - marked && marked <= Overdue(t, before) && forgotten <= Forgettable(t, now)
    requires t'.expired == (t.expired - forgotten) + map l | l in marked :: now
    requires Deletes(t.records, deleted, t'.records) && (forall k | k in deleted :: k.0 in t.doomed + marked)
    requires t'.doomed <= t.doomed + marked
    requires more ==> deleted != []
    requires !more ==> t'.doomed == {}
    ensures more || marked != {} || forgotten != {} ==> Nearer(t, t', before, now)
  {
    OverdueLeft(t, t', marked, before);
    if marked == {} {
      assert (map l | l in marked :: now) == map[];
      assert t.doomed + marked == t.doomed;
      Reaped(t, forgotten, deleted, t', now, more);
    }
  }

  /** A pass that lets no log go, but deletes records, is done with doomed logs, or forgets. */
  lemma Reaped(t: Tables, forgotten: set<Log>, deleted: seq<(Log, nat)>, t': Tables, now: nat, more: bool)
    requires forgotten <= Forgettable(t, now) && t'.expired == t.expired - forgotten
    requires Deletes(t.records, deleted, t'.records) && (forall k | k in deleted :: k.0 in t.doomed)
    requires t'.doomed <= t.doomed
    requires more ==> deleted != []
    requires !more ==> t'.doomed == {}
    ensures |DoomedRows(t')| <= |DoomedRows(t)| && |t'.doomed| <= |t.doomed|
    ensures more || forgotten != {} ==>
      |DoomedRows(t')| < |DoomedRows(t)| || |t'.doomed| < |t.doomed| || |Forgettable(t', now)| < |Forgettable(t, now)|
  {
    DeletesCount(t.records, deleted, t'.records);
    assert DoomedRows(t') <= DoomedRows(t);
    SubsetSize(DoomedRows(t'), DoomedRows(t));
    SubsetSize(t'.doomed, t.doomed);
    if more {
      DeletedGone(t.records, deleted, t'.records);
      Shrinks(DoomedRows(t'), DoomedRows(t), deleted[0]);
    } else if x :| x in t.doomed {
      Shrinks(t'.doomed, t.doomed, x);
    } else if y :| y in forgotten {
      assert Forgettable(t', now) <= Forgettable(t, now);
      Shrinks(Forgettable(t', now), Forgettable(t, now), y);
    }
  }

  lemma DeletedGone(was: map<(Log, nat), Row>, ks: seq<(Log, nat)>, now: map<(Log, nat), Row>)
    requires Deletes(was, ks, now) && ks != []
    ensures ks[0] in was && ks[0] !in now
  {
    DeletesCount(was - {ks[0]}, ks[1..], now);
  }

  // ---------------------------------------------------------------- runs of calls

  /** What is asked of the service, or falls due. */
  datatype Call =
    | Appending(to: Log, entries: seq<Entry>, room: bool)
    | Paging(of: Log, after: nat)
    | Comparing(known: seq<(Log, nat)>)
    | Expiring(before: nat)

  /** What a call signs, and the logs it lets go. */
  datatype Served = Served(signed: seq<Head>, went: set<Log>)

  /** A call signs heads that are true of the logs as it leaves them, and every log it does not let go only grows. */
  ghost predicate Serves(service: nat, logs: Logs, done: Served, logs': Logs) {
    && (forall h | h in done.signed :: TrueOf(h, service, Held(logs', h.log)))
    && forall log | log !in done.went :: Held(logs, log) <= Held(logs', log)
  }

  /** A run of calls, with the live logs before and after each. */
  ghost predicate Calls(service: nat, ls: seq<Logs>, done: seq<Served>) {
    |ls| == |done| + 1 && forall i | 0 <= i < |done| :: CallAt(service, ls, done, i)
  }

  ghost predicate CallAt(service: nat, ls: seq<Logs>, done: seq<Served>, i: nat)
    requires i < |done| && |ls| == |done| + 1
  {
    Serves(service, ls[i], done[i], ls[i + 1])
  }

  /** Every head the service signs in a run is true of its log in every later state, unless the log was let go between.
      */
  lemma {:induction false} HeadsStayTrue(service: nat, ls: seq<Logs>, done: seq<Served>, i: nat, j: nat, h: Head)
    requires Calls(service, ls, done) && i < j <= |done| && h in done[i].signed
    requires forall n | i < n < j :: h.log !in done[n].went
    ensures TrueOf(h, service, Held(ls[j], h.log))
    decreases j
  {
    assert CallAt(service, ls, done, j - 1);
    if i + 1 < j {
      HeadsStayTrue(service, ls, done, i, j - 1, h);
      var (was, now) := (Held(ls[j - 1], h.log), Held(ls[j], h.log));
      assert was <= now && now[..h.length] == was[..h.length];
    }
  }

  lemma CallsMore(service: nat, ls: seq<Logs>, done: seq<Served>, one: Served, logs': Logs)
    requires Calls(service, ls, done) && Serves(service, ls[|done|], one, logs')
    ensures Calls(service, ls + [logs'], done + [one])
  {
    forall i | 0 <= i < |done| + 1 ensures CallAt(service, ls + [logs'], done + [one], i) {
      if i < |done| { assert CallAt(service, ls, done, i); }
    }
  }
}
