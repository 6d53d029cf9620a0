/**
 Whole runs of a group: memberships never come back, cuts never recede, a leave removes only the membership it was
 signed for, and only admins change who may.
 */
module Authority {
  import opened Refs
  import opened Cuts
  import opened Groups
  import opened GroupRuns

  /** Epoch 0: leaf 0 is the founder, and the admins are its key and, if a certificate of it verifies, its device. */
  function Created(id: nat, key: Key, cert: Option<Cert>, settings: Settings): View {
    var founder := Member(key, cert, key);
    var admins := [founder.key] + if Device(founder).Some? then [Device(founder).value] else [];
    View(id, 0, map[0 := founder], settings.(admins := admins), [Ref(founder.key, 0, 0, [], 0)], [])
  }

  lemma CreatedInv(id: nat, key: Key, cert: Option<Cert>, settings: Settings)
    ensures var v := Created(id, key, cert, settings);
      && Inv(v) && v.epoch == 0 && v.roster == map[0 := Member(key, cert, key)]
      && v.settings == settings.(admins := v.settings.admins)
      && (forall a :: a in v.settings.admins <==>
        a == key || (cert.Some? && cert.value.session == key && a == cert.value.device))
      && Memberships(v) == {Membership(key, 0)} && forall r | r in v.cut :: r.num == 0
  {
    var v := Created(id, key, cert, settings);
    assert v.roster[0].key == key;
    forall k ensures k in KeysOf(v.cut) <==> k in RosterKeys(v.roster) {
      if k == key { assert v.cut[0] in v.cut; }
    }
    assert v.settings.admins[0] == key;
    var device := if Device(v.roster[0]).Some? then [Device(v.roster[0]).value] else [];
    assert forall a :: a in [key] + device <==> a == key || a in device;
  }

  /** A run: each epoch from the one before by a valid commit. */
  ghost predicate Chain(vs: seq<View>, es: seq<Entry>, crypto: (View, Commit) -> bool) {
    && |vs| == |es| + 1
    && Inv(vs[0])
    && forall i | 0 <= i < |es| :: CommitAt(vs, es, crypto, i)
  }

  ghost predicate CommitAt(vs: seq<View>, es: seq<Entry>, crypto: (View, Commit) -> bool, i: nat)
    requires i < |es| && |vs| == |es| + 1
  {
    Valid(vs[i], es[i], crypto) && vs[i + 1] == After(vs[i], es[i].commit)
  }

  lemma {:induction false} ChainInv(vs: seq<View>, es: seq<Entry>, crypto: (View, Commit) -> bool, i: nat)
    requires Chain(vs, es, crypto) && i < |vs|
    ensures Inv(vs[i]) && vs[i].epoch == vs[0].epoch + i && vs[i].id == vs[0].id
  {
    if i > 0 {
      ChainInv(vs, es, crypto, i - 1);
      assert CommitAt(vs, es, crypto, i - 1);
      AfterKeeps(vs[i - 1], es[i - 1].commit);
    }
  }

  function Memberships(v: View): (ms: set<Membership>)
    ensures forall m :: m in ms <==> exists r :: r in v.cut && r.Of() == m
  {
    set r | r in v.cut :: r.Of()
  }

  /** How far a membership's messages are kept. */
  ghost function KeptTo(v: View, m: Membership): (n: nat)
    requires m in Memberships(v)
    ensures exists r :: r in v.cut && r.Of() == m && r.num == n
  {
    var r :| r in v.cut && r.Of() == m;
    r.num
  }

  /** A commit begins memberships of the epoch it begins only, and moves no other back. */
  lemma OneCommit(v: View, c: Commit, m: Membership)
    requires Inv(v) && MlsValid(v, c) && Rules(v, c) && m in Memberships(After(v, c))
    ensures m.joined == v.epoch + 1 || m in Memberships(v)
    ensures m in Memberships(v) ==> KeptTo(v, m) <= KeptTo(After(v, c), m)
  {
    var w := After(v, c);
    AfterCut(v, c);
    EndedCut(v, c);
    var r :| r in w.cut && r.Of() == m && r.num == KeptTo(w, m);
    assert Continues(w, c, r);
    if r in w.ended { EndedFrom(v, w.ended, r); }
  }

  /** A membership of the cut that ended an epoch is of the cut before it, no further on there. */
  lemma EndedFrom(v: View, ended: seq<Ref>, r: Ref)
    requires Inv(v) && |ended| == |v.cut| && r in ended
    requires forall i | 0 <= i < |ended| :: ended[i].Of() == v.cut[i].Of() && v.cut[i].num <= ended[i].num
    ensures r.Of() in Memberships(v) && KeptTo(v, r.Of()) <= r.num
  {
    var i :| 0 <= i < |ended| && ended[i] == r;
    KeptToIs(v, v.cut[i]);
  }

  lemma KeptToIs(v: View, r: Ref)
    requires Inv(v) && r in v.cut
    ensures r.Of() in Memberships(v) && KeptTo(v, r.Of()) == r.num
  {
    var s :| s in v.cut && s.Of() == r.Of() && s.num == KeptTo(v, r.Of());
    FindUnique(v.cut, s);
    FindUnique(v.cut, r);
  }

  /** A membership named at two points of a run is named throughout, and its cut only moved on. */
  lemma {:induction false} Endures(vs: seq<View>, es: seq<Entry>, crypto: (View, Commit) -> bool, i: nat, j: nat,
      m: Membership)
    requires Chain(vs, es, crypto) && i <= j < |vs| && m in Memberships(vs[i]) && m in Memberships(vs[j])
    ensures KeptTo(vs[i], m) <= KeptTo(vs[j], m)
    ensures forall n | i <= n <= j :: m in Memberships(vs[n])
    decreases j
  {
    if i < j {
      BegunBy(vs, es, crypto, i, m);
      OneStep(vs, es, crypto, j - 1, m);
      Endures(vs, es, crypto, i, j - 1, m);
    }
  }

  lemma BegunBy(vs: seq<View>, es: seq<Entry>, crypto: (View, Commit) -> bool, i: nat, m: Membership)
    requires Chain(vs, es, crypto) && i < |vs| && m in Memberships(vs[i])
    ensures m.joined <= vs[0].epoch + i
  {
    ChainInv(vs, es, crypto, i);
  }

  lemma OneStep(vs: seq<View>, es: seq<Entry>, crypto: (View, Commit) -> bool, i: nat, m: Membership)
    requires Chain(vs, es, crypto) && i < |es| && m in Memberships(vs[i + 1])
    ensures m.joined == vs[0].epoch + i + 1 || m in Memberships(vs[i])
    ensures m in Memberships(vs[i]) ==> KeptTo(vs[i], m) <= KeptTo(vs[i + 1], m)
  {
    ChainInv(vs, es, crypto, i);
    assert CommitAt(vs, es, crypto, i);
    OneCommit(vs[i], es[i].commit, m);
  }

  /** A membership that ended never recurs. */
  lemma NeverRecurs(vs: seq<View>, es: seq<Entry>, crypto: (View, Commit) -> bool, i: nat, j: nat, k: nat,
      m: Membership)
    requires Chain(vs, es, crypto) && i <= j <= k < |vs| && m in Memberships(vs[i]) && m !in Memberships(vs[j])
    ensures m !in Memberships(vs[k])
  {
    if m in Memberships(vs[k]) {
      Endures(vs, es, crypto, i, k, m);
    }
  }

  /** A leave counts for the very membership it was signed for, while the group names it, and for no later one of its
      key. */
  lemma LeaveBinds(v: View, m: Membership, sig: Leave)
    requires Inv(v) && sig == Leave(m.key, v.id, m.joined)
    ensures Left(v, m.key, sig) <==> m in Memberships(v)
    ensures forall key | Left(v, key, sig) :: key == m.key
  {
    if m in Memberships(v) {
      var r :| r in v.cut && r.Of() == m;
      FindUnique(v.cut, r);
    }
  }

  lemma StaleLeave(vs: seq<View>, es: seq<Entry>, crypto: (View, Commit) -> bool, i: nat, j: nat, k: nat, m: Membership)
    requires Chain(vs, es, crypto) && i <= j <= k < |vs| && m in Memberships(vs[i]) && m !in Memberships(vs[j])
    ensures forall key :: !Left(vs[k], key, Leave(m.key, vs[0].id, m.joined))
  {
    ChainInv(vs, es, crypto, k);
    NeverRecurs(vs, es, crypto, i, j, k, m);
    LeaveBinds(vs[k], m, Leave(m.key, vs[0].id, m.joined));
  }

  // ---------------------------------------------------------------- authority

  /** A leaf's certificate names the leaf's own key, and is by a device of the list. */
  ghost predicate CertifiedBy(m: Member, list: seq<Key>) {
    m.cert.Some? && m.cert.value.session == m.key && m.cert.value.device in list
  }

  /** The committer's key is not in the list of admins, and neither is the device of a certificate that names it. */
  ghost predicate Unprivileged(v: View, c: Commit) {
    && c.from in v.roster
    && v.roster[c.from].key !in v.settings.admins
    && !CertifiedBy(v.roster[c.from], v.settings.admins)
  }

  /** What is fixed stays fixed, and there is always an admin. */
  lemma {:induction false} FixedSettings(vs: seq<View>, es: seq<Entry>, crypto: (View, Commit) -> bool, i: nat)
    requires Chain(vs, es, crypto) && i < |vs|
    ensures var (s, t) := (vs[0].settings, vs[i].settings);
      t.admins != [] && (s.protocol, s.carry, s.update, s.service) == (t.protocol, t.carry, t.update, t.service)
  {
    if i > 0 {
      FixedSettings(vs, es, crypto, i - 1);
      FixedStep(vs, es, crypto, i - 1);
    }
  }

  lemma FixedStep(vs: seq<View>, es: seq<Entry>, crypto: (View, Commit) -> bool, i: nat)
    requires Chain(vs, es, crypto) && i < |es| && vs[i].settings.admins != []
    ensures var (s, t) := (vs[i].settings, vs[i + 1].settings);
      t.admins != [] && (s.protocol, s.carry, s.update, s.service) == (t.protocol, t.carry, t.update, t.service)
  {
    assert CommitAt(vs, es, crypto, i);
    SettingsAfter(vs[i], es[i].commit, es[i].commit.proposals);
  }

  /** Along commits by members that are no admins, who is an admin and who is admitted stay as they were. */
  lemma {:induction false} ListsStay(vs: seq<View>, es: seq<Entry>, crypto: (View, Commit) -> bool, i: nat, j: nat)
    requires Chain(vs, es, crypto) && i <= j < |vs|
    requires forall n | i <= n < j :: Unprivileged(vs[n], es[n].commit)
    ensures vs[j].settings == vs[i].settings
    decreases j
  {
    if i < j {
      ListsStay(vs, es, crypto, i, j - 1);
      ListsStep(vs, es, crypto, j - 1);
    }
  }

  lemma ListsStep(vs: seq<View>, es: seq<Entry>, crypto: (View, Commit) -> bool, i: nat)
    requires Chain(vs, es, crypto) && i < |es| && Unprivileged(vs[i], es[i].commit)
    ensures vs[i + 1].settings == vs[i].settings
  {
    ChainInv(vs, es, crypto, i);
    assert CommitAt(vs, es, crypto, i);
    SettingsAfter(vs[i], es[i].commit, es[i].commit.proposals);
  }

  /** A leaf's member signed the leave of the membership it has, and the commit carries it. */
  ghost predicate SignedLeave(v: View, c: Commit, l: nat) {
    && l in v.roster
    && exists m :: m in Memberships(v) && m.key == v.roster[l].key && Leave(m.key, v.id, m.joined) in c.aad.left
  }

  lemma AddsCertified(v: View, c: Commit, m: Member)
    requires Rules(v, c) && Unprivileged(v, c) && m in Adds(c.proposals)
    ensures CertifiedBy(m, v.settings.admitted) || CertifiedBy(m, v.settings.admins)
  {
    var q :| q in c.proposals && q.proposal.Add? && m == Added(q.proposal);
    assert Allowed(v, c, q);
  }

  lemma RemovesSigned(v: View, c: Commit, l: nat)
    requires Rules(v, c) && Unprivileged(v, c) && l in Removes(c.proposals)
    ensures SignedLeave(v, c, l)
  {
    var q :| q in c.proposals && q.proposal == Remove(l);
    assert Allowed(v, c, q);
    var sig :| sig in c.aad.left && Left(v, v.roster[l].key, sig);
    assert Find(v.cut, v.roster[l].key).value.Of() in Memberships(v);
  }

  /** Over unprivileged commits from `i` on: an added member has a certificate for its key by a device that was
      admitted, or an admin, at `i`; and a removed leaf's member signed its leave. */
  lemma NoAuthorityGained(vs: seq<View>, es: seq<Entry>, crypto: (View, Commit) -> bool, i: nat, n: nat, m: Member,
      l: nat)
    requires Chain(vs, es, crypto) && i <= n < |es|
    requires forall k | i <= k <= n :: Unprivileged(vs[k], es[k].commit)
    ensures m in Adds(es[n].commit.proposals) ==>
      CertifiedBy(m, vs[i].settings.admitted) || CertifiedBy(m, vs[i].settings.admins)
    ensures l in Removes(es[n].commit.proposals) ==> SignedLeave(vs[n], es[n].commit, l)
  {
    ListsStay(vs, es, crypto, i, n);
    assert CommitAt(vs, es, crypto, n);
    if m in Adds(es[n].commit.proposals) { AddsCertified(vs[n], es[n].commit, m); }
    if l in Removes(es[n].commit.proposals) { RemovesSigned(vs[n], es[n].commit, l); }
  }
}
