/**
 A group's epochs: what a commit may do, and what it does to the roster, the settings and the cut state. MLS's own
 checks are those of sections 12.2 and 12.4 of RFC 9420 that the rules here build on; the rest of them, with its
 cryptography, is an arbitrary predicate.
 */
module Groups {
  import opened Refs
  import opened Cuts

  const MAX_CUT_STEP: nat := 100_000

  /** `device` vouches for `session`; it counts only for the session named (see `Device`). */
  datatype Cert = Cert(device: Key, session: Key)

  /** The part of a leaf the rules look at; `named` is the key its credential names. */
  datatype Member = Member(key: Key, cert: Option<Cert>, named: Key)

  datatype Settings = Settings(protocol: nat, carry: nat, update: nat, service: nat, admins: seq<Key>,
    admitted: seq<Key>)

  /** A leave: what a signature covers, by whose key. One of other bytes is no leave of anyone. */
  datatype Leave = Leave(key: Key, group: nat, joined: nat) | NoLeave

  /** A commit's authenticated data. */
  datatype Aad = Aad(invite: Option<nat>, left: seq<Leave>, moved: seq<Ref>, time: nat)

  /** A proposal; `named` is the key an added leaf's credential names, `exact` whether a change's context extensions are
      the settings and nothing else. */
  datatype Proposal =
    | Add(key: Key, cert: Option<Cert>, named: Key)
    | Remove(leaf: nat)
    | Change(settings: Settings, exact: bool)
    | Other

  /** A proposal in a commit, inline or by reference. */
  datatype Queued = Queued(inline: bool, proposal: Proposal)

  /** The committer's new leaf, of a commit with an update path. */
  datatype Path = Path(key: Key, named: Key, cert: Option<Cert>)

  datatype Commit = Commit(from: nat, epoch: nat, proposals: seq<Queued>, path: Option<Path>, aad: Aad)

  /** A commit entry, and whose signature over it it carries. */
  datatype Entry = Entry(commit: Commit, signer: Key)

  /** The agreed state of an epoch. `cut` has one entry per member, for the last of its messages that is kept; `ended`
      is what `cut` was moved to as the last epoch closed. */
  datatype View = View(id: nat, epoch: nat, roster: map<nat, Member>, settings: Settings, cut: seq<Ref>,
    ended: seq<Ref>)

  // ---------------------------------------------------------------- members

  function Device(m: Member): Option<Key> {
    if m.cert.Some? && m.cert.value.session == m.key then Some(m.cert.value.device) else None
  }

  /** Either the member's own key or its certified device is listed. */
  predicate Admin(s: Settings, m: Member) {
    m.key in s.admins || (Device(m).Some? && Device(m).value in s.admins)
  }

  /** A certified device that is listed in either of the two lists. */
  predicate Admits(s: Settings, m: Member) {
    Device(m).Some? && (Device(m).value in s.admitted || Device(m).value in s.admins)
  }

  function RosterKeys(roster: map<nat, Member>): (keys: set<Key>)
    ensures forall k :: k in keys <==> exists i :: i in roster && roster[i].key == k
  {
    set i | i in roster :: roster[i].key
  }

  ghost predicate OneLeafEach(roster: map<nat, Member>) {
    forall i, j | i in roster && j in roster && i != j :: roster[i].key != roster[j].key
  }

  /** `sig` covers this group and the very epoch that `v.cut` records for `key`. */
  predicate Left(v: View, key: Key, sig: Leave) {
    Find(v.cut, key).Some? && sig == Leave(key, v.id, Find(v.cut, key).value.joined)
  }

  // ---------------------------------------------------------------- proposals

  function Added(p: Proposal): Member
    requires p.Add?
  {
    Member(p.key, p.cert, p.named)
  }

  function Adds(ps: seq<Queued>): (adds: seq<Member>)
    ensures forall m :: m in adds <==> exists q :: q in ps && q.proposal.Add? && m == Added(q.proposal)
  {
    if ps == [] then []
    else
      assert forall q :: q in ps <==> q == ps[0] || q in ps[1..];
      (if ps[0].proposal.Add? then [Added(ps[0].proposal)] else []) + Adds(ps[1..])
  }

  function Removes(ps: seq<Queued>): (leaves: set<nat>)
    ensures forall l :: l in leaves <==> exists q :: q in ps && q.proposal == Remove(l)
  {
    set q | q in ps && q.proposal.Remove? :: q.proposal.leaf
  }

  /** The settings after a commit: a change's, if it carries one. */
  function NewSettings(s: Settings, ps: seq<Queued>): Settings {
    if ps == [] then s
    else if ps[0].proposal.Change? then ps[0].proposal.settings
    else NewSettings(s, ps[1..])
  }

  // ---------------------------------------------------------------- validity

  /** What MLS itself checks that the group relies on: of this epoch, from a member, removing others that are members,
      and adding keys not in the group, each once; with at most one change of the settings. */
  predicate MlsValid(v: View, c: Commit) {
    && c.epoch == v.epoch
    && c.from in v.roster
    && (forall l | l in Removes(c.proposals) :: l in v.roster && l != c.from)
    && (forall m | m in Adds(c.proposals) :: forall i | i in v.roster && i !in Removes(c.proposals) ::
      v.roster[i].key != m.key)
    && (forall i, j | 0 <= i < j < |Adds(c.proposals)| :: Adds(c.proposals)[i].key != Adds(c.proposals)[j].key)
    && forall i, j | 0 <= i < j < |c.proposals| :: !(c.proposals[i].proposal.Change? && c.proposals[j].proposal.Change?)
  }

  predicate WellFormed(r: Ref) {
    |r.id| == if r.num == 0 then 0 else 32
  }

  /** Whether the rules allow one proposal of a commit by a member. */
  predicate Allowed(v: View, c: Commit, q: Queued)
    requires c.from in v.roster
  {
    var admin := Admin(v.settings, v.roster[c.from]);
    && q.inline
    && match q.proposal
       case Add(key, cert, named) =>
         && named == key
         && (forall l | l in Removes(c.proposals) && l in v.roster :: v.roster[l].key != key)
         && (admin || Admits(v.settings, Member(key, cert, named)))
       case Remove(l) =>
         l in v.roster && (admin || exists sig | sig in c.aad.left :: Left(v, v.roster[l].key, sig))
       case Change(s, exact) =>
         && admin
         && exact
         && (s.protocol, s.carry, s.update, s.service) ==
           (v.settings.protocol, v.settings.carry, v.settings.update, v.settings.service)
         && s.admins != []
       case Other => false
  }

  /** `r` moves some entry of `cut` forward: same key, same `joined`, a greater seq within `MAX_CUT_STEP`, and an id of
      the right size. */
  predicate MoveAllowed(cut: seq<Ref>, r: Ref) {
    exists was | was in cut ::
      was.key == r.key && was.joined == r.joined && WellFormed(r) && was.num < r.num <= was.num + MAX_CUT_STEP
  }

  /** The cut checks alone. */
  predicate CutRules(cut: seq<Ref>, moved: seq<Ref>) {
    && (forall i | 0 <= i < |moved| - 1 :: moved[i].key < moved[i + 1].key)
    && forall r | r in moved :: MoveAllowed(cut, r)
  }

  /** All that is asked of a commit beyond MLS: of each proposal, of the invite, of the moved entries, and of the
      committer's new leaf. */
  predicate Rules(v: View, c: Commit) {
    && c.from in v.roster
    && (forall q | q in c.proposals :: Allowed(v, c, q))
    && (c.aad.invite.Some? <==> Adds(c.proposals) != [])
    && CutRules(v.cut, c.aad.moved)
    && (c.path.Some? ==> c.path.value.key == v.roster[c.from].key == c.path.value.named)
  }

  /** A commit entry that moves the group: whose committer signed it, valid to MLS and by the rules. */
  predicate Valid(v: View, e: Entry, crypto: (View, Commit) -> bool) {
    && MlsValid(v, e.commit)
    && crypto(v, e.commit)
    && e.signer == v.roster[e.commit.from].key
    && Rules(v, e.commit)
  }

  // ---------------------------------------------------------------- what a commit does

  lemma FreeExists(roster: map<nat, Member>)
    ensures Span(0, |roster|) - roster.Keys != {}
  {
    SpanSize(|roster|);
    if Span(0, |roster|) - roster.Keys == {} {
      Bounded(Span(0, |roster|), roster.Keys);
      assert false;
    }
  }

  lemma {:induction false} SpanSize(n: nat)
    ensures |Span(0, n)| == n + 1
  {
    if n > 0 {
      SpanSize(n - 1);
      var less := Span(0, n - 1);
      assert n !in less && Span(0, n) == less + {n};
      assert |less + {n}| == |less| + 1;
    } else {
      assert Span(0, 0) == {0};
    }
  }

  lemma {:induction false} Bounded(a: set<nat>, b: set<nat>)
    requires a - b == {}
    ensures |a| <= |b|
    decreases |a|
  {
    if x :| x in a {
      assert x in b || x in a - b;
      assert (a - {x}) - (b - {x}) == {} by { assert forall y :: y in (a - {x}) - (b - {x}) ==> y in a - b; }
      Bounded(a - {x}, b - {x});
    }
  }

  /** The leftmost blank leaf, where an added member goes. */
  function FreeLeaf(roster: map<nat, Member>): (l: nat)
    ensures l !in roster && forall i | 0 <= i < l :: i in roster
  {
    FreeExists(roster);
    var l := Smallest(Span(0, |roster|) - roster.Keys);
    assert forall i | 0 <= i < l :: i in roster.Keys || i in Span(0, |roster|) - roster.Keys;
    l
  }

  function Place(roster: map<nat, Member>, adds: seq<Member>): map<nat, Member>
    decreases |adds|
  {
    if adds == [] then roster else Place(roster[FreeLeaf(roster) := adds[0]], adds[1..])
  }

  /** The roster after a commit: removals, then the committer's new leaf, then additions. */
  function NewRoster(v: View, c: Commit): map<nat, Member> {
    var left := v.roster - Removes(c.proposals);
    Place(Updated(left, c), Adds(c.proposals))
  }

  function Updated(left: map<nat, Member>, c: Commit): map<nat, Member> {
    if c.path.None? || c.from !in left then left
    else left[c.from := Member(left[c.from].key, c.path.value.cert, c.path.value.named)]
  }

  function Began(m: Member, epoch: nat): Ref {
    Ref(m.key, epoch, 0, [], 0)
  }

  function Begun(adds: seq<Member>, epoch: nat): (r: seq<Ref>)
    ensures |r| == |adds| && forall i | 0 <= i < |adds| :: r[i] == Began(adds[i], epoch)
  {
    seq(|adds|, i requires 0 <= i < |adds| => Began(adds[i], epoch))
  }

  function Staying(cut: seq<Ref>, keys: set<Key>): seq<Ref> {
    if cut == [] then [] else (if cut[0].key in keys then [cut[0]] else []) + Staying(cut[1..], keys)
  }

  /** The next view. `ended` is the old cut with the moved entries put in; the new cut state is what of it still has a
      leaf together with fresh entries for the additions, in key order. */
  function After(v: View, c: Commit): View {
    var roster, ended := NewRoster(v, c), MoveAll(v.cut, c.aad.moved);
    View(v.id, v.epoch + 1, roster, NewSettings(v.settings, c.proposals),
         Sort(Staying(ended, RosterKeys(roster)) + Begun(Adds(c.proposals), v.epoch + 1)), ended)
  }
}
