/**
 Sessions reading a group's log: the first valid commit of each epoch moves each of them alike, whether it is one's own
 pending commit or another's, and whatever else lies in the log.
 */
module Sessions {
  import opened Refs
  import opened Groups
  import opened GroupRuns

  /** A commit this session built and keeps pending, with the whole cut it was built with. */
  datatype Posted = Posted(entry: Entry, cut: seq<Ref>)

  /** A session: the view it is at, its leaf, whether it still is a member, and the commit it has out. */
  datatype Session = Session(view: View, own: nat, active: bool, posted: Option<Posted>)

  datatype Verdict =
    | Commits(removes: bool, time: nat)
    | Copied
    | Skipped

  /** What sessions read with: how an epoch's envelope opens, and what MLS checks besides. */
  datatype Mls<!W> = Mls(open: (View, W) -> Option<Entry>, crypto: (View, Commit) -> bool)

  /** A session in order: its view is, its leaf is in the roster, and what it posted it built in this very epoch. */
  ghost predicate Fit<W(!new)>(s: Session, mls: Mls<W>) {
    && Inv(s.view)
    && (s.active ==> s.own in s.view.roster)
    && (s.posted.Some? ==> Built(s.view, s.own, s.posted.value, mls))
  }

  /** What building a commit leaves: one of this leaf, signed by its key, that MLS made and the rules allowed. */
  ghost predicate Built<W(!new)>(v: View, own: nat, p: Posted, mls: Mls<W>) {
    p.entry.commit.from == own && Valid(v, p.entry, mls.crypto)
  }

  /** The verdict on an entry. A pending commit of one's own is told by equality and only held to the rules; any other
      must be valid; one from the session's own leaf, rightly signed and not its pending one, means `Copied`. */
  function Judge<W>(s: Session, w: W, mls: Mls<W>): Verdict {
    if !s.active || mls.open(s.view, w).None? then Skipped
    else
      var e := mls.open(s.view, w).value;
      var c := e.commit;
      if s.posted.Some? && s.posted.value.entry == e then
        if Rules(s.view, c) then Commits(false, c.aad.time) else Skipped
      else if c.epoch != s.view.epoch || c.from !in s.view.roster then Skipped
      else if c.from == s.own then
        if e.signer == s.view.roster[s.own].key then Copied else Skipped
      else if Valid(s.view, e, mls.crypto) then Commits(s.own in Removes(c.proposals), c.aad.time)
      else Skipped
  }

  /** An entry opens to a commit of this epoch that is from the session's own leaf and signed by its key, and is not the
      one it has out: a copy of the session posted it. */
  ghost predicate OwnUnposted<W>(s: Session, w: W, mls: Mls<W>) {
    && mls.open(s.view, w).Some?
    && var e := mls.open(s.view, w).value;
    && (s.posted.None? || s.posted.value.entry != e)
    && e.commit.epoch == s.view.epoch
    && e.commit.from == s.own
    && s.own in s.view.roster
    && e.signer == s.view.roster[s.own].key
  }

  /** `Copied` is answered for those alone: nothing another leaf sends, and nothing unsigned, stops a session. */
  lemma CopiedExact<W>(s: Session, w: W, mls: Mls<W>)
    ensures Judge(s, w, mls).Copied? <==> s.active && OwnUnposted(s, w, mls)
  {}

  /** The entries taken as commits: the session's own pending one while the rules allow it, and a valid one of another
      leaf; with what each says of removing this session, and when it was made. All else is skipped. */
  lemma CommitsExact<W>(s: Session, w: W, mls: Mls<W>, removes: bool, time: nat)
    ensures Judge(s, w, mls) == Commits(removes, time) <==>
      && s.active && mls.open(s.view, w).Some?
      && var e := mls.open(s.view, w).value;
      && time == e.commit.aad.time
      && if s.posted.Some? && s.posted.value.entry == e then Rules(s.view, e.commit) && !removes
         else
           && e.commit.from != s.own
           && Valid(s.view, e, mls.crypto)
           && (removes <==> exists q :: q in e.commit.proposals && q.proposal == Remove(s.own))
  {}

  /** Reads a log entry: applies the commit it is, if it is one. */
  function Read<W>(s: Session, w: W, mls: Mls<W>): Session {
    var verdict := Judge(s, w, mls);
    if verdict.Commits? then
      Session(After(s.view, mls.open(s.view, w).value.commit), s.own, s.active && !verdict.removes, None)
    else if s.active && s.posted.Some? && mls.open(s.view, w) == Some(s.posted.value.entry) then s.(posted := None)
    else s
  }

  /** What a log entry does to the group: nothing, unless it is the epoch's first valid commit. */
  function Follow<W>(v: View, w: W, mls: Mls<W>): View {
    if mls.open(v, w).Some?
      && Valid(v, mls.open(v, w).value, mls.crypto) then After(v, mls.open(v, w).value.commit) else v
  }

  lemma StaysPlaced(v: View, c: Commit, l: nat)
    requires Inv(v) && MlsValid(v, c) && Rules(v, c) && l in v.roster && l !in Removes(c.proposals)
    ensures l in NewRoster(v, c) && NewRoster(v, c)[l].key == v.roster[l].key
  {
    var left := v.roster - Removes(c.proposals);
    var updated := Updated(left, c);
    SameKeys(left, updated);
    forall m | m in Adds(c.proposals) ensures m.key !in RosterKeys(updated) { AddedIsNew(v, c, m); }
    Placed(updated, Adds(c.proposals));
  }

  /** Whichever way a session takes an entry, its own pending commit or another's, it moves exactly as the log says;
      only one of its own leaf that it did not post may differ. */
  lemma ReadFollows<W(!new)>(s: Session, w: W, mls: Mls<W>)
    requires Fit(s, mls) && s.active && !OwnUnposted(s, w, mls)
    ensures Read(s, w, mls).view == Follow(s.view, w, mls)
    ensures Judge(s, w, mls).Commits? <==>
      mls.open(s.view, w).Some? && Valid(s.view, mls.open(s.view, w).value, mls.crypto)
    ensures Fit(Read(s, w, mls), mls)
  {
    CopiedExact(s, w, mls);
    if Judge(s, w, mls).Commits? {
      var c := mls.open(s.view, w).value.commit;
      AfterKeeps(s.view, c);
      if s.own !in Removes(c.proposals) { StaysPlaced(s.view, c, s.own); }
    }
  }

  /** What reading leaves of a session besides its view: it is gone once a commit removes it, and what it had out is out
      no more once its epoch ended or it was refused. */
  lemma ReadRest<W>(s: Session, w: W, mls: Mls<W>)
    ensures var (verdict, s') := (Judge(s, w, mls), Read(s, w, mls));
      && s'.own == s.own
      && (s'.active <==> s.active && !(verdict.Commits? && verdict.removes))
      && (s'.posted != s.posted ==> s'.posted.None?)
      && (s'.posted.None? <==>
        s.posted.None? || verdict.Commits? || (s.active && mls.open(s.view, w) == Some(s.posted.value.entry)))
      && (!verdict.Commits? ==> s'.view == s.view)
  {}

  /** A commit a session built is taken by it and by every other member that has the same view: each judges it a commit,
      and moves to the one view after it; its builder stays in the group. */
  lemma BuiltIsTaken<W(!new)>(s: Session, t: Session, w: W, mls: Mls<W>)
    requires Fit(s, mls) && Fit(t, mls) && s.active && t.active && t.view == s.view && t.own != s.own
    requires s.posted.Some? && mls.open(s.view, w) == Some(s.posted.value.entry)
    ensures var c := s.posted.value.entry.commit;
      && Judge(s, w, mls) == Commits(false, c.aad.time)
        && Judge(t, w, mls) == Commits(t.own in Removes(c.proposals), c.aad.time)
      && Read(s, w, mls).view == Read(t, w, mls).view == After(s.view, c)
      && Read(s, w, mls).active && Read(s, w, mls).posted.None?
  {
    assert t.posted.Some? ==> t.posted.value.entry.commit.from == t.own;
  }

  // ---------------------------------------------------------------- runs

  /** What a session does over time: it reads entries, and between them builds or abandons commits. */
  datatype Act<W> = Reading(entry: W) | Posting(posted: Option<Posted>)

  /** What it reads, in order. */
  function Log<W>(acts: seq<Act<W>>): seq<W> {
    if acts == [] then [] else (if acts[0].Reading? then [acts[0].entry] else []) + Log(acts[1..])
  }

  function Do<W>(s: Session, act: Act<W>, mls: Mls<W>): Session {
    match act
    case Reading(w) => Read(s, w, mls)
    case Posting(p) => s.(posted := p)
  }

  /** A run of a session that stays in the group: it posts only what it built, and reads nothing signed by its own key
      from its own leaf but what it posted. */
  ghost predicate Plays<W(!new)>(s: Session, acts: seq<Act<W>>, mls: Mls<W>, s': Session)
    decreases |acts|
  {
    && Fit(s, mls)
    && s.active
    && if acts == [] then s' == s
       else
         && (acts[0].Reading? ==> !OwnUnposted(s, acts[0].entry, mls))
         && Plays(Do(s, acts[0], mls), acts[1..], mls, s')
  }

  function FollowAll<W>(v: View, log: seq<W>, mls: Mls<W>): View
    decreases |log|
  {
    if log == [] then v else FollowAll(Follow(v, log[0], mls), log[1..], mls)
  }

  /** A session's view is what its log makes of the view it began with, whatever it posted meanwhile. */
  lemma {:induction false} PlaysFollow<W(!new)>(s: Session, acts: seq<Act<W>>, mls: Mls<W>, s': Session)
    requires Plays(s, acts, mls, s')
    ensures s'.view == FollowAll(s.view, Log(acts), mls) && Fit(s', mls) && s'.active
    decreases |acts|
  {
    if acts != [] {
      PlaysFollow(Do(s, acts[0], mls), acts[1..], mls, s');
      if acts[0].Reading? { ReadFollows(s, acts[0].entry, mls); }
      FollowFirst(s.view, acts[0], Log(acts[1..]), mls);
    }
  }

  lemma FollowFirst<W>(v: View, act: Act<W>, rest: seq<W>, mls: Mls<W>)
    ensures FollowAll(v, (if act.Reading? then [act.entry] else []) + rest, mls)
      == FollowAll(if act.Reading? then Follow(v, act.entry, mls) else v, rest, mls)
  {
    if act.Reading? {
      assert ([act.entry] + rest)[1..] == rest;
    } else {
      assert [] + rest == rest;
    }
  }

  /** Two members that begin alike and read the same log are alike after it: epoch, roster, settings, cut state and the
      cut that ended the last epoch, whichever of them committed and whatever junk lies between. */
  lemma Converge<W(!new)>(s: Session, acts: seq<Act<W>>, s': Session, t: Session, others: seq<Act<W>>, t': Session,
      mls: Mls<W>)
    requires s.view == t.view
    requires Plays(s, acts, mls, s') && Plays(t, others, mls, t')
    requires Log(acts) == Log(others)
    ensures s'.view == t'.view
  {
    PlaysFollow(s, acts, mls, s');
    PlaysFollow(t, others, mls, t');
  }
}
