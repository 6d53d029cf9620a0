/**
 A session's copy of a log, fed pages from its service and entries from peers in any order: it always chains from the
 start to its head, keeps what it holds, and reports a contradiction only of two heads no single log can have.
 */
module Copies {
  import opened Refs
  import opened Heads
  import opened Store

  /** How far a log is authenticated: its length and hash, and the head that says so, if one does. */
  datatype Frontier = Frontier(service: nat, log: Log, length: nat, hash: Hash, head: Option<Head>)

  datatype Check = Fine | WrongLog | Forged | InvalidProof | Contradiction(ours: Head, theirs: Head)

  function Empty(service: nat, log: Log): Frontier {
    Frontier(service, log, 0, Start(service, log), None)
  }

  /** What comes of a head held against a frontier; `hashAt` stands for what the checker itself computed at `h.length`,
      when it can. */
  function CheckHead(f: Frontier, h: Head, hashAt: Option<Hash>): Check {
    if h.log != f.log then WrongLog
    else if h.signer != f.service then Forged
    else
      var hash := if h.length == f.length then Some(f.hash) else if h.length < f.length then hashAt else None;
      if hash.Some? && h.hash != hash.value then
        if f.head.Some? then Contradiction(f.head.value, h) else InvalidProof
      else if h.length == 0 && h.hash != Start(f.service, f.log) then InvalidProof
      else Fine
  }

  function FromHead(service: nat, log: Log, h: Head): Option<Frontier> {
    if CheckHead(Empty(service, log), h, None).Fine? then Some(Frontier(service, log, h.length, h.hash, Some(h)))
      else None
  }

  /** Whether a page extends a frontier to its head. */
  function VerifyPage(f: Frontier, page: Page): Check {
    var check := CheckHead(f, page.head, None);
    if !check.Fine? then check
    else if page.after != f.length || !ValidPage(page.entries) then InvalidProof
    else if page.after + |page.entries| != page.head.length then InvalidProof
    else if Chain(f.hash, page.entries) != page.head.hash then InvalidProof
    else Fine
  }

  /** No log has both heads. */
  ghost predicate Incompatible(a: Head, b: Head, service: nat) {
    forall entries :: !(TrueOf(a, service, entries) && TrueOf(b, service, entries))
  }

  /** A frontier of a copy that holds `held`. */
  ghost predicate FrontierOf(f: Frontier, held: seq<Entry>) {
    && f.length == |held|
    && f.hash == Chain(Start(f.service, f.log), held)
    && (f.head.Some? ==> f.head.value.log == f.log && f.head.value.length == f.length && f.head.value.hash == f.hash)
  }

  /** A true head of the whole of what a copy holds fixes the log that far. */
  lemma HeadFixes(h: Head, service: nat, held: seq<Entry>, entries: seq<Entry>)
    requires h.length == |held| && h.hash == Chain(Start(service, h.log), held) && TrueOf(h, service, entries)
    ensures held == entries[..|held|]
  {
    ChainInjective(service, h.log, held, entries[..|held|]);
  }

  /** Two heads of one log, of a path `held` to the first and another hash at the second's length, have no log in
      common. */
  lemma Forked(a: Head, b: Head, service: nat, held: seq<Entry>)
    requires a.log == b.log && a.length == |held| && a.hash == Chain(Start(service, a.log), held)
    requires b.length <= |held| && b.hash != Chain(Start(service, a.log), held[..b.length])
    ensures Incompatible(a, b, service)
  {
    forall entries ensures !(TrueOf(a, service, entries) && TrueOf(b, service, entries)) {
      if TrueOf(a, service, entries) { NotBoth(a, b, service, held, entries); }
    }
  }

  lemma NotBoth(a: Head, b: Head, service: nat, held: seq<Entry>, entries: seq<Entry>)
    requires a.log == b.log && a.length == |held| && a.hash == Chain(Start(service, a.log), held)
    requires b.length <= |held| && TrueOf(a, service, entries)
    ensures TrueOf(b, service, entries) ==> b.hash == Chain(Start(service, a.log), held[..b.length])
  {
    HeadFixes(a, service, held, entries);
    assert held[..b.length] == entries[..b.length];
  }

  /** A contradiction with a frontier, checked against the caller's own path, is one. */
  lemma ContradictionHolds(f: Frontier, held: seq<Entry>, h: Head, hashAt: Option<Hash>)
    requires FrontierOf(f, held) && CheckHead(f, h, hashAt).Contradiction?
    requires hashAt.Some? && h.length <= |held| ==> hashAt.value == Chain(Start(f.service, f.log), held[..h.length])
    ensures CheckHead(f, h, hashAt) == Contradiction(f.head.value, h) && Incompatible(f.head.value, h, f.service)
  {
    assert held[..|held|] == held;
    Forked(f.head.value, h, f.service, held);
  }

  /** A head true of the log whose prefix is held passes; so an honest service is never reported. */
  lemma HonestPasses(f: Frontier, held: seq<Entry>, h: Head, hashAt: Option<Hash>, entries: seq<Entry>)
    requires FrontierOf(f, held) && held <= entries && h.log == f.log && h.signer == f.service
    requires TrueOf(h, f.service, entries)
    requires hashAt.Some? && h.length <= |held| ==> hashAt.value == Chain(Start(f.service, f.log), held[..h.length])
    ensures CheckHead(f, h, hashAt).Fine?
  {
    assert held[..|held|] == held && held == entries[..|held|];
    assert h.length <= |held| ==> held[..h.length] == entries[..h.length];
  }

  /** A page that verifies chains on from what is held to its head. */
  lemma VerifiedChains(f: Frontier, held: seq<Entry>, page: Page)
    requires FrontierOf(f, held) && VerifyPage(f, page).Fine?
    ensures page.head.length == |held + page.entries|
    ensures page.head.hash == Chain(Start(f.service, f.log), held + page.entries)
  {
    ChainConcat(Start(f.service, f.log), held, page.entries);
  }

  /** What a head comes to against a path held, with the hash there if it is that long: fine exactly if it is of this
      log and signed by its service, and true of the path if no longer; else a contradiction, if there is a head to
      contradict. */
  lemma CheckExact(f: Frontier, held: seq<Entry>, h: Head, hashAt: Option<Hash>)
    requires FrontierOf(f, held)
    requires hashAt == if h.length <= |held| then Some(Chain(Start(f.service, f.log), held[..h.length])) else None
    ensures var (check, ours) := (CheckHead(f, h, hashAt), h.log == f.log && h.signer == f.service);
      && (check.WrongLog? <==> h.log != f.log)
      && (check.Forged? <==> h.log == f.log && h.signer != f.service)
      && (check.Fine? <==> ours && (h.length <= |held| ==> TrueOf(h, f.service, held)))
      && (check.Contradiction? <==> ours && h.length <= |held| && !TrueOf(h, f.service, held) && f.head.Some?)
  {
    assert held[..|held|] == held;
  }

  /** A page verifies exactly if its head is of this log, signed by its service, and it goes on from what is held,
      within a page's bounds, to that head. */
  lemma PageExact(f: Frontier, held: seq<Entry>, page: Page)
    requires FrontierOf(f, held)
    ensures VerifyPage(f, page).Fine? <==>
      && page.head.log == f.log && page.head.signer == f.service
      && page.after == |held| && ValidPage(page.entries)
      && page.head.length == |held + page.entries|
      && page.head.hash == Chain(Start(f.service, f.log), held + page.entries)
  {
    ChainConcat(Start(f.service, f.log), held, page.entries);
    if page.entries == [] { assert held + page.entries == held; }
  }

  /** An honest service's page of the log past what is held verifies. */
  lemma HonestPageVerifies(f: Frontier, held: seq<Entry>, page: Page, entries: seq<Entry>)
    requires FrontierOf(f, held) && held <= entries && page.after == |held| && |held| + |page.entries| <= |entries|
    requires page.entries == entries[|held|..|held| + |page.entries|] && ValidPage(page.entries)
    requires page.head.log == f.log && page.head.signer == f.service && page.head.length == |held| + |page.entries|
    requires TrueOf(page.head, f.service, entries)
    ensures VerifyPage(f, page).Fine?
  {
    HonestPasses(f, held, page.head, None, entries);
    assert entries[..page.head.length] == held + page.entries;
    ChainConcat(Start(f.service, f.log), held, page.entries);
  }

  /** What taking entries came to. */
  datatype Taken = Kept | Ignored | Contradicted(ours: Head, theirs: Head)

  /** What a copy is fed: entries placed from `after` on, with the head claimed for their end. */
  datatype Feed = Feed(after: nat, entries: seq<Entry>, head: Head)

  /** Whether entries chain on from a copy to their head. */
  ghost predicate Ends(service: nat, log: Log, held: seq<Entry>, f: Feed) {
    && f.after <= |held| && f.after + |f.entries| == f.head.length
    && Chain(Start(service, log), held[..f.after] + f.entries) == f.head.hash
  }

  /** The log the entries say there is, put on what is held before them. */
  ghost function Said(held: seq<Entry>, f: Feed): seq<Entry>
    requires f.after <= |held|
  {
    held[..f.after] + f.entries
  }

  /** What a copy holds after taking entries: the longer of it and the log they say, if one is a prefix of the other. */
  ghost function Take(service: nat, log: Log, held: seq<Entry>, f: Feed): seq<Entry> {
    if Ends(service, log, held, f) && held <= Said(held, f) then Said(held, f) else held
  }

  /** What taking entries answers. */
  ghost predicate Answers(service: nat, log: Log, held: seq<Entry>, f: Feed, r: Taken) {
    && (r.Ignored? <==> !Ends(service, log, held, f))
    && (r.Kept? <==> Ends(service, log, held, f) && (held <= Said(held, f) || Said(held, f) <= held))
  }

  ghost function TakeAll(service: nat, log: Log, held: seq<Entry>, feeds: seq<Feed>): seq<Entry>
    decreases |feeds|
  {
    if feeds == [] then held
    else TakeAll(service, log, Take(service, log, held, feeds[0]), feeds[1..])
  }

  /** Whatever a copy is fed, in whatever order, it keeps every entry it holds where it holds it. */
  lemma {:induction false} NeverRewritten(service: nat, log: Log, held: seq<Entry>, feeds: seq<Feed>)
    ensures held <= TakeAll(service, log, held, feeds)
    decreases |feeds|
  {
    if feeds != [] { NeverRewritten(service, log, Take(service, log, held, feeds[0]), feeds[1..]); }
  }

  /** The heads are ones an honest service signed as its log grew to `entries`. */
  ghost predicate Honest(service: nat, log: Log, feeds: seq<Feed>, entries: seq<Entry>) {
    forall f | f in feeds :: f.head.log == log && TrueOf(f.head, service, entries)
  }

  /** What chains to a true head is a prefix of the log. */
  lemma EndsTrue(service: nat, log: Log, held: seq<Entry>, f: Feed, entries: seq<Entry>)
    requires f.head.log == log && TrueOf(f.head, service, entries) && Ends(service, log, held, f)
    ensures Said(held, f) == entries[..f.head.length]
  {
    HeadFixes(f.head, service, Said(held, f), entries);
  }

  /** Under an honest service a copy is always a prefix of the log, however far each feed reaches and whoever it is
      from. */
  lemma {:induction false} HonestPrefix(service: nat, log: Log, held: seq<Entry>, feeds: seq<Feed>, entries: seq<Entry>)
    requires held <= entries && Honest(service, log, feeds, entries)
    ensures TakeAll(service, log, held, feeds) <= entries
    decreases |feeds|
  {
    if feeds != [] {
      if Ends(service, log, held, feeds[0]) { EndsTrue(service, log, held, feeds[0], entries); }
      HonestPrefix(service, log, Take(service, log, held, feeds[0]), feeds[1..], entries);
    }
  }

  /** Any two copies under an honest service are comparable: one is a prefix of the other, whatever each was fed. */
  lemma Comparable(service: nat, log: Log, a: seq<Feed>, b: seq<Feed>, entries: seq<Entry>)
    requires Honest(service, log, a, entries) && Honest(service, log, b, entries)
    ensures TakeAll(service, log, [], a) <= TakeAll(service, log, [], b)
      || TakeAll(service, log, [], b) <= TakeAll(service, log, [], a)
  {
    HonestPrefix(service, log, [], a, entries);
    HonestPrefix(service, log, [], b, entries);
  }

  /** And none is ever contradicted. */
  lemma NeverContradicted(service: nat, log: Log, held: seq<Entry>, f: Feed, entries: seq<Entry>, r: Taken)
    requires held <= entries && f.head.log == log && TrueOf(f.head, service, entries)
    requires Answers(service, log, held, f, r)
    ensures !r.Contradicted?
  {
    if Ends(service, log, held, f) { EndsTrue(service, log, held, f, entries); }
  }

  /** The hash at what is held of a log said shows whether one is a prefix of the other. */
  lemma OverlapDecides(service: nat, log: Log, held: seq<Entry>, said: seq<Entry>)
    ensures var overlap := Min(|held|, |said|);
      (Chain(Start(service, log), held[..overlap]) == Chain(Start(service, log), said[..overlap])) ==
        (held <= said || said <= held)
  {
    var overlap := Min(|held|, |said|);
    if Chain(Start(service, log), held[..overlap]) == Chain(Start(service, log), said[..overlap]) {
      ChainInjective(service, log, held[..overlap], said[..overlap]);
      assert if |held| <= |said| then held == held[..overlap] else said == said[..overlap];
    } else {
      assert held[..overlap] != said[..overlap];
    }
  }

  /** Entries that end at a head no log held has: the copy's own head and theirs are of no one log. */
  lemma FeedForked(service: nat, log: Log, held: seq<Entry>, ours: Head, f: Feed)
    requires ours.log == log && f.head.log == log && ours.length == |held|
    requires ours.hash == Chain(Start(service, log), held)
    requires Ends(service, log, held, f) && !(held <= Said(held, f) || Said(held, f) <= held)
    ensures Incompatible(ours, f.head, service)
  {
    var said := Said(held, f);
    OverlapDecides(service, log, held, said);
    assert held[..|held|] == held && said[..|said|] == said;
    if |said| <= |held| {
      Forked(ours, f.head, service, held);
    } else {
      Forked(f.head, ours, service, said);
      assert forall entries :: TrueOf(ours, service, entries) && TrueOf(f.head, service, entries) ==>
        TrueOf(f.head, service, entries) && TrueOf(ours, service, entries);
    }
  }

  /** Position `i` of the stored map agrees with `held`: present exactly within it, with that entry and the chain value
      up to it. */
  ghost predicate StoredAt(stored: map<nat, (Hash, Entry)>, from: Hash, held: seq<Entry>, i: nat) {
    && (i in stored <==> 1 <= i <= |held|)
    && (i in stored ==> stored[i] == (Chain(from, held[..i]), held[i - 1]))
  }

  ghost predicate Stores(stored: map<nat, (Hash, Entry)>, from: Hash, held: seq<Entry>) {
    forall i: nat :: StoredAt(stored, from, held, i)
  }

  lemma StoresPush(stored: map<nat, (Hash, Entry)>, from: Hash, held: seq<Entry>, e: Entry, hash: Hash)
    requires Stores(stored, from, held) && hash == Chain(from, held + [e])
    ensures Stores(stored[|held| + 1 := (hash, e)], from, held + [e])
  {
    var next, longer := stored[|held| + 1 := (hash, e)], held + [e];
    forall i: nat ensures StoredAt(next, from, longer, i) {
      assert StoredAt(stored, from, held, i);
      assert i == |held| + 1 ==> (held + [e])[..i] == held + [e];
      assert i <= |held| ==> (held + [e])[..i] == held[..i];
    }
  }

  class Copy {
    const service: nat
    const log: Log
    /** By position: the chain value up to the entry, and the entry. */
    var stored: map<nat, (Hash, Entry)>
    var head: Option<Head>
    /** The latest time vouched for: of a finished read, or of a head that a feed ended at. */
    var at: nat
    ghost var held: seq<Entry>

    ghost predicate Valid()
      reads this
    {
      && Stores(stored, Start(service, log), held)
      && (head.None? ==> held == [])
      && (head.Some? ==>
            && head.value.log == log && head.value.signer == service && head.value.length == |held|
            && head.value.hash == Chain(Start(service, log), held))
    }

    constructor (service: nat, log: Log)
      ensures Valid() && held == [] && this.service == service && this.log == log
    {
      this.service, this.log, stored, head, at, held := service, log, map[], None, 0, [];
    }

    function Length(): nat
      reads this
    {
      if head.Some? then head.value.length else 0
    }

    /** The frontier of this copy: its length is the copy's, and its hash the chain over `held`. */
    method Authenticated() returns (f: Frontier)
      requires Valid()
      ensures FrontierOf(f, held) && f.service == service && f.log == log && f.head == head
    {
      if head.None? { return Empty(service, log); }
      var checked := FromHead(service, log, head.value);
      return checked.value;
    }

    /** The chain's hash through a position held. */
    method HashAt(position: nat) returns (hash: Option<Hash>)
      requires Valid()
      ensures hash == if position <= |held| then Some(Chain(Start(service, log), held[..position])) else None
    {
      assert StoredAt(stored, Start(service, log), held, position);
      if position == 0 { return Some(Start(service, log)); }
      if position in stored { return Some(stored[position].0); }
      return None;
    }

    /** Checks a stranger's head against this copy: within its length the answer is whether the head is true of `held`.
        */
    method Vouched(h: Head) returns (check: Check)
      requires Valid()
      ensures check.InvalidProof? ==> h.length == 0 && h.hash != Start(service, log)
      ensures h.log == log && h.signer == service ==> !check.WrongLog? && !check.Forged?
      ensures check.Contradiction? ==>
        head == Some(check.ours) && check.theirs == h && Incompatible(check.ours, h, service)
      ensures check.Fine? <==> h.log == log && h.signer == service && (h.length <= |held| ==> TrueOf(h, service, held))
    {
      var f := Authenticated();
      var hashAt := HashAt(h.length);
      check := CheckHead(f, h, hashAt);
      CheckExact(f, held, h, hashAt);
      if check.Contradiction? { ContradictionHolds(f, held, h, hashAt); }
    }

    /** Stores the entries past what is held. */
    method StoreFrom(after: nat, entries: seq<Entry>, hashes: seq<Hash>)
      requires Valid() && after <= |held| && |hashes| == |entries| + 1 && held <= held[..after] + entries
      requires forall i | 0 <= i < |hashes| :: hashes[i] == Chain(Start(service, log), held[..after] + entries[..i])
      modifies `stored
      ensures Stores(stored, Start(service, log), held[..after] + entries)
    {
      ghost var now := held[..after] + entries;
      var length, end := Length(), after + |entries|;
      assert now[..length] == held;
      for position := length + 1 to end + 1
        invariant Stores(stored, Start(service, log), now[..position - 1])
      {
        var index := position - after;
        assert now[..position] == held[..after] + entries[..index];
        assert now[..position] == now[..position - 1] + [entries[index - 1]];
        StoresPush(stored, Start(service, log), now[..position - 1], entries[index - 1], hashes[index]);
        stored := stored[position := (hashes[index], entries[index - 1])];
      }
      assert now[..end] == now;
    }

    /** The chain's hashes along entries, from the one they follow. */
    method Hashes(from: Hash, entries: seq<Entry>, ghost before: seq<Entry>) returns (hashes: seq<Hash>)
      requires from == Chain(Start(service, log), before)
      ensures |hashes| == |entries| + 1
      ensures forall i | 0 <= i < |hashes| :: hashes[i] == Chain(Start(service, log), before + entries[..i])
    {
      hashes := [from];
      assert before + entries[..0] == before;
      for n := 0 to |entries|
        invariant |hashes| == n + 1
        invariant forall i | 0 <= i <= n :: hashes[i] == Chain(Start(service, log), before + entries[..i])
      {
        ChainPush(Start(service, log), before + entries[..n], entries[n]);
        assert before + entries[..n + 1] == before + entries[..n] + [entries[n]];
        hashes := hashes + [Next(hashes[n], entries[n])];
      }
    }

    /** Feeds the copy: the new `held` is `Take` of the old one, and the answer tells which of the three cases it was.
        */
    method TakeEntries(f: Feed) returns (r: Taken)
      requires Valid() && f.head.log == log && f.head.signer == service
      modifies `stored, `head, `at, `held
      ensures Valid()
      ensures held == Take(service, log, old(held), f) && Answers(service, log, old(held), f, r)
      ensures at == if r.Kept? then Max(old(at), f.head.time) else old(at)
      ensures head == if r.Kept? && |held| > |old(held)| then Some(f.head) else old(head)
      ensures r.Contradicted? ==>
        old(head) == Some(r.ours) && r.theirs == f.head && Incompatible(r.ours, r.theirs, service)
    {
      var length := Length();
      if f.after > length { return Ignored; }
      var from := HashAt(f.after);
      var hashes := Hashes(from.value, f.entries, held[..f.after]);
      assert f.entries[..|f.entries|] == f.entries;
      if f.after + |f.entries| != f.head.length || hashes[|f.entries|] != f.head.hash { return Ignored; }
      var agrees := Agrees(f, hashes);
      if !agrees {
        FeedForked(service, log, held, head.value, f);
        return Contradicted(head.value, f.head);
      }
      if f.head.length > length {
        StoreFrom(f.after, f.entries, hashes);
        head, held := Some(f.head), Said(held, f);
      }
      at := Max(at, f.head.time);
      return Kept;
    }

    /** Whether entries agree with this copy where both reach: one is a prefix of the other. */
    method Agrees(f: Feed, hashes: seq<Hash>) returns (agrees: bool)
      requires Valid() && f.after <= |held| && f.after + |f.entries| == f.head.length && |hashes| == |f.entries| + 1
      requires forall i | 0 <= i < |hashes| :: hashes[i] == Chain(Start(service, log), held[..f.after] + f.entries[..i])
      ensures agrees <==> held <= Said(held, f) || Said(held, f) <= held
    {
      var overlap := Min(f.head.length, Length());
      ghost var said := Said(held, f);
      OverlapDecides(service, log, held, said);
      assert said[..overlap] == held[..f.after] + f.entries[..overlap - f.after];
      var ours := HashAt(overlap);
      agrees := ours == Some(hashes[overlap - f.after]);
    }

    /** Entries a peer sent, with the head they end at: taken if it is vouched for. */
    method FromPeer(entries: seq<Entry>, h: Head) returns (r: Taken)
      requires Valid()
      modifies `stored, `head, `at, `held
      ensures Valid() && old(held) <= held
      ensures r.Contradicted? ==> old(head) == Some(r.ours) && r.theirs == h && Incompatible(r.ours, h, service)
      ensures !r.Kept? ==> held == old(held)
      ensures h.log == log && h.signer == service && !r.Contradicted? ==>
        held == Take(service, log, old(held),
          Feed(if h.length < |entries| then 0 else h.length - |entries|, entries, h))
    {
      var check := Vouched(h);
      if check.Contradiction? { return Contradicted(check.ours, check.theirs); }
      if !check.Fine? { return Ignored; }
      r := TakeEntries(Feed(if h.length < |entries| then 0 else h.length - |entries|, entries, h));
    }

    /** Reads page after page until one is empty: the copy is then the service's log. */
    method ReadThrough(server: Service, now: nat) returns (done: bool)
      requires Valid() && server.Valid() && server.service == service && held <= Held(server.logs, log)
      modifies `stored, `head, `at, `held
      ensures Valid()
      ensures done <==> log !in server.expired
      ensures held == if done then Held(server.logs, log) else old(held)
      ensures done ==> at == now
    {
      ghost var all := Held(server.logs, log);
      done := true;
      var more := true;
      while more
        invariant Valid() && old(held) <= held <= all
        invariant if done then more || held == all else !more && held == old(held)
        invariant log in server.expired ==> held == old(held)
        invariant !more ==> (done <==> log !in server.expired)
        decreases |all| - |held|, more
      {
        done, more := ReadPage(server, now, all);
      }
      if done { at := now; }
    }

    /** Reads one page: a live log's brings the copy on, if the copy is short of it. */
    method ReadPage(server: Service, now: nat, ghost all: seq<Entry>) returns (alive: bool, more: bool)
      requires Valid() && server.Valid() && server.service == service && all == Held(server.logs, log) && held <= all
      modifies `stored, `head, `at, `held
      ensures Valid() && old(held) <= held <= all
      ensures alive <==> log !in server.expired
      ensures !alive ==> held == old(held) && !more
      ensures alive ==> (more <==> |held| > |old(held)|) && (!more ==> held == all)
    {
      var f := Authenticated();
      var r := server.Read(log, Length(), now);
      if r.Expired? { return false, false; }
      var page := r.value;
      PageServes(f, held, page, all);
      var verified := VerifyPage(f, page);
      assert verified.Fine?;
      var taken := TakeEntries(Feed(page.after, page.entries, page.head));
      return true, page.entries != [];
    }
  }

  /** An honest page verifies, and is taken whole. */
  lemma PageServes(f: Frontier, held: seq<Entry>, page: Page, all: seq<Entry>)
    requires FrontierOf(f, held) && held <= all && page.after == |held| && |held| + |page.entries| <= |all|
    requires page.entries == all[|held|..|held| + |page.entries|] && ValidPage(page.entries)
    requires page.head.log == f.log && page.head.signer == f.service && page.head.length == |held| + |page.entries|
    requires TrueOf(page.head, f.service, all)
    ensures VerifyPage(f, page).Fine?
    ensures Take(f.service, f.log, held, Feed(page.after, page.entries, page.head)) == all[..page.head.length]
  {
    HonestPageVerifies(f, held, page, all);
    assert held[..page.after] + page.entries == all[..page.head.length];
  }
}
