# A serverless group chat, modelled and proved

This project models the state machines under a serverless group chat, and proves what they keep over every run:

- **Held messages** (`Held`, `Delivery`, `GivingUp`, `Steps`, `Runs`, `Baselines`, `Causal`, `Missing`, `Unserved`,
  `Keeper`). Each membership's messages are held until what they require is resolved, delivered in causal order, given
  up on by timers, and settled by commits. `Keeper.Group` is the state as it is changed in place, and each of its methods
  is proved equal to the step the other modules reason about; what each step does is stated in terms of the sets, headers
  and cut entries themselves (`Baselines`, and the ends of `Held` and `GivingUp`).
- **Group epochs and cuts** (`Cuts`, `Groups`, `GroupRuns`, `Authority`, `Commits`, `Sessions`, `Joining`, `Duties`,
  `GroupState`, `Bridge`). Log entries are judged in order and the first valid commit of an epoch moves every session
  alike. It sits on MLS: section 12.2 (proposal lists), section 12.4 (commits) and section 14 (sequencing) of RFC 9420.
  `Commits` states in terms of the leaves, lists and entries what a commit may do and does. `Bridge` shows that every
  valid commit gives the held state what the held state takes for granted of it.
- **The membership log** (`Heads`, `Store`, `Copies`). The service's four tables behave as append-only logs that can expire,
  and a session's copy grows from pages and peers' entries in any order.
- **Repair between peers** (`Answers`, `Repair`, `RepairRuns`, `Misread`). Requests, answers cut short or late, striking and
  timeouts: that it ends, and what it may leave.
- **Underneath** (`Ranges`, `Requests`, `Quotas`, `Times`). Interval sets over 64-bit positions, admission and quotas at the
  service, and times as text.

`dafny verify dfyconfig.toml` checks the whole project.

## What the model takes as given

- Public keys are numbers, as only their order and equality matter; message ids and entries are bytes.
- A chain hash is the value it was made from, so hashes do not collide; a signature is the key that made it. How an
  epoch's envelope opens, and what MLS checks beyond the clauses of `Groups.MlsValid`, are arbitrary functions passed in.
- A commit that MLS built for a session passes the checks MLS makes of it at the other members: `Sessions.Built` says so of
  a pending commit, which its own session never puts through them. The own-pending half of `Sessions.Converge` rests on it.
- Times are passed in. SQLite tables are maps and sealing is the identity; a `LIMIT` picks any rows; a transaction is one step.
- Positions and seqs are unbounded, except in `Ranges`, where 64-bit saturation and overflow are the point. In `Answers` and
  `Repair` a set of positions is the set that the ranges proved in `Ranges` stand for.
- What a session showed its client, and so names in its deps, is a message delivered to it: `Steps.Sendable` asks it. The
  frontier itself is not modelled.

## What the code does that one might not expect

- **A pass of giving up can leave a ready message where it is.** `give_up` returns early when it finds nothing to give up or
  release, and applying a commit delivers nothing. So a message made ready by a commit that lost what it required is
  left by every pass, until some other frame is taken. `Unserved.LeftReady` is such a run, from a group's founding and by
  commits its members would make. `GivingUp.PassDelivers` states exactly when a pass delivers each membership's next
  message, and `GivingUp.PassesDrain` exactly when passes drain all there are: when the first finds something to give up or
  release, or nothing is pending. Where what was ready was delivered, a pass always finds something
  (`GivingUp.SettledFinds`).
- **A cut entry sent since a session joined can keep a message sent before.** A comment beside the code says that what an entry
  keeps of a membership is all from before a session joined, or all from after. The code goes by the entry's epoch alone, and by
  the baseline that headers raised. `Baselines.FromBeforeRuns` is a run of the held state in which such an entry keeps two messages,
  and the session holds the second and never waits for the first, as the second says it was sent before the session joined.
  `Baselines.KeepExact` says exactly what an entry keeps, `Baselines.KeptForGood` that it is accounted for ever after, and
  `Baselines.BaselineEarly` that a baseline covers only what a header, an entry or the session's first cut says is that old.
- **A late answer is taken for the answer to another request.** An answer names no request, and settles whichever is out to its
  sender. So after a timeout, or a request dropped while its connection stays, an honest holder's answer to the earlier
  request settles a later one. If it is short, all of the later request is struck, though the answer covered none of it:
  `Misread.LeavesOne` is a run that leaves a message unsent that the holder has and answered for. If it is full, it may strike nothing
  new (`Misread.StrikesNothing`). `Answers.StruckForAny` and `RepairRuns.MistakenShrinks` say exactly when; repair ends all the same
  (`RepairRuns.RepairEnds`); and nothing is left by a holder whose answers are never owed (`RepairRuns.RestsAnswered`).
- **A quota can track one source more than its policy says.** An IPv6 address brings two sources, and whether the quota is full
  is asked once for both. `Quotas.PastSources` says exactly when that happens, `Quotas.TracksOneMore` gives one case, and one
  more is the most (`Quotas.Quota.Bounded`).
- **Times as text compare as times only before the year 10000.** `Times.IsoOrderExact` states both directions, and
  `Times.PastTenThousand` gives the first pair past it.

## Model

| member | source | states |
|---|---|---|
| `Held.Deliver` | crates/node/src/held.rs:636-671 | a delivery adds one seq to what is delivered, at the next index, late exactly if it was given up on, and changes nothing else but what was reported |
| `Held.FiresGrows` | crates/node/src/held.rs:69-77 | the readiness rule is monotone in what is delivered |
| `Held.ReadyFires` | crates/node/src/held.rs:611-627 | a ready message is one the readiness rule, stated over a set of deliveries, adds |
| `Held.FiresReady` | crates/node/src/held.rs:611-627 | and conversely: what the rule adds to what is delivered is ready and next in line |
| `Held.ReadyExact` | crates/node/src/held.rs:611-627 | in terms of the sets alone: a message is ready exactly if it is the lowest held and undelivered, has its record, and nothing it requires that counts is unsettled |
| `Held.EvidenceExact` | crates/node/src/held.rs:92-100 | a seq is within the evidence exactly if it is no greater than a held seq or the cut, or the baseline while nothing is held |
| `Held.RequirementsMean` | crates/node/src/held.rs:639-642 | the requirements of a header reach exactly the earlier seqs of its author and those up to its deps |
| `Delivery.LeastFixpoint` | crates/node/src/held.rs:611-632 | whatever is picked, once nothing is ready the delivered set is the least set closed under the readiness rule |
| `Delivery.Confluence` | crates/node/src/held.rs:611-632 | two schedules that deliver until nothing is ready deliver the same set |
| `Delivery.ReadyDelivered` | crates/node/src/held.rs:611-632 | a message ready at the start is delivered by the end |
| `Keeper.Group.DeliverOne` | crates/node/src/held.rs:636-671 | the in-place delivery, its loop over requirements included, is the delivery step |
| `Keeper.Group.FirstReady` | crates/node/src/held.rs:612-628 | the scan finds a ready message, and finds none only when there is none |
| `Keeper.Group.DeliverReady` | crates/node/src/held.rs:611-632 | the loop ends; it made a schedule of deliveries of ready messages, left nothing ready, and delivered the least closed set |
| `GivingUp.Freed` | crates/node/src/held.rs:677-725 | once it waited `GIVE_UP`, a membership's next message is ready after the marks, in a cycle with others or past what is known sent |
| `GivingUp.PassDelivers` | crates/node/src/held.rs:677-725 | a pass at a time when each next message is overdue, whatever is behind it, delivers every membership's next message if and only if it finds something to give up or release, or nothing is pending |
| `GivingUp.SettledFinds` | crates/node/src/held.rs:686-713 | where nothing is ready and something is pending with each next message overdue, a pass finds something |
| `GivingUp.SettledPass` | crates/node/src/held.rs:677-725 | so from such a state a pass delivers each next message, and what is pending shrinks |
| `GivingUp.PassesDrain` | crates/node/src/held.rs:677-725 | from any state, as many passes as messages are pending, each when the next messages are overdue, deliver them all if and only if there are none or the first pass finds something |
| `GivingUp.SameFinds` | crates/node/src/held.rs:690-708 | once each next message is overdue and nothing is unopened, what a pass finds depends on neither its time nor who may still be asked |
| `GivingUp.StuckForGood` | crates/node/src/held.rs:711-713 | after a pass that finds nothing no later one changes anything |
| `Runs.PassRuns` | crates/node/src/held.rs:677-725 | a pass is a run of steps: its marks, then deliveries; or none |
| `Runs.ReachableDrain` | crates/node/src/held.rs:677-725 | the drain, with its exact condition, from every state of every run |
| `Unserved.LeftReady` | crates/node/src/held.rs:711-713 | a run from a group's founding, by valid commits that an honest third member builds, at whose end a message is ready and every pass, at whatever time, leaves it |
| `Keeper.Group.LookAt` | crates/node/src/held.rs:686-710 | the loops over requirements find what one next message gives up on and whether it is released, as `GivingUp.GivingExact` and `ReleasingExact` describe |
| `GivingUp.GivingExact` | crates/node/src/held.rs:690-708 | a pass gives up on a seq exactly if some next message requires it that waited `GIVE_UP`; or that waited `HOLD_OFF`, when the seq is not held and no holder may still be asked for those of the requirement that are not held |
| `GivingUp.ReleasingExact` | crates/node/src/held.rs:695-699 | a pass releases exactly the next messages that waited `GIVE_UP`, were not released, and require a seq past what its author is known to have sent |
| `GivingUp.NothingEarly` | crates/node/src/held.rs:702-713 | while no message waited `GIVE_UP` and holders may still be asked, a pass changes nothing |
| `GivingUp.MarkedExact` | crates/node/src/held.rs:714-723 | the marks add exactly what is given up and released, and change nothing else |
| `Keeper.Group.Mark` | crates/node/src/held.rs:714-723 | the in-place marks are exactly the set union and the released flags |
| `Keeper.Group.GiveUp` | crates/node/src/held.rs:677-725 | the pass, with its early returns, is the pass the theorems are about |
| `Keeper.Group.BeforeAll` | crates/node/src/held.rs:524-526 | the loop over deps is the rise of baselines that `Baselines.OpenRaises` describes |
| `Keeper.Group.KeepNew` | crates/node/src/held.rs:516-541 | a message opened for the first time is kept with its baselines and known seqs raised |
| `Keeper.Group.OpenOne` | crates/node/src/held.rs:487-543 | opening keeps the first message of a seq, a newer sealing past the cut, and nothing whose prev contradicts |
| `Baselines.OpenExact` | crates/node/src/held.rs:487-543 | what opening does to the records, in exactly three cases: a first message of its seq that no record contradicts is kept, a later sealing past the cut replaces the earlier, and all else changes nothing |
| `Baselines.OpenRaises` | crates/node/src/held.rs:516-541 | as a message is kept each baseline becomes the greatest of itself and what the header names, by deps or prev, as sent in an epoch before this session joined; what is known becomes the greatest of itself and all the header shows; its own seq is held |
| `Missing.UnopenableSettles` | crates/node/src/held.rs:546-562 | of one ciphertext too old to open: its seq alone may become lost, exactly if it was kept and not held, what becomes lost is what is added to be told, nothing else changes, and a kept seq is then held or resolved |
| `Keeper.Group.LoseKept` | crates/node/src/reading.rs:168-184 | exactly what was kept and is neither held nor lost becomes lost, and is queued to be told |
| `Keeper.Group.MoveCut` | crates/node/src/reading.rs:195-216 | the in-place move of one membership's cut, baseline and kept seqs is the one that `Baselines.CommitExact` and `KeepExact` describe |
| `Keeper.Group.MoveCuts` | crates/node/src/reading.rs:189-217 | the loop over a cut moves every membership it names and rebuilds `keep` |
| `Keeper.Group.EndAll` | crates/node/src/reading.rs:224-240 | memberships the state names no more end, and exactly what they held past their final cuts undelivered is dropped |
| `Keeper.Group.Apply` | crates/node/src/reading.rs:92-127 | applying a commit is settling the losses, then moving the cuts, then beginning and ending memberships |
| `Baselines.CommitExact` | crates/node/src/reading.rs:168-240 | every field of a membership after a commit: an entry of an epoch before this session joined moves the baseline and any other leaves it; what was to be held and is not is lost; one that ends keeps only what is delivered or within its final cut |
| `Baselines.KeepExact` | crates/node/src/reading.rs:199-216 | what a commit keeps anew is exactly what lies past the last cut and the baseline up to the entry; what it lost is what is to be told; records go only with what is dropped |
| `Baselines.RestExact` | crates/node/src/reading.rs:218-223 | a membership that begins has nothing held, given up or lost, from seq 0, and there is no other |
| `Keeper.Group.SendOne` | crates/node/src/sending.rs:143-155 | a message sent is held and delivered here at once |
| `Baselines.SendExact` | crates/node/src/sending.rs:143-155 | sending adds the one seq to what is held, known and delivered, at the next index with nothing missing, and changes nothing else |
| `Runs.StepKeeps` | crates/node/src/reading.rs:168-250 | every step, whatever it is, keeps the invariant and unresolves nothing |
| `Runs.RunInv` | crates/node/src/held.rs:611-671 | every state of every run satisfies the invariant |
| `Runs.JoinedInv` | crates/node/src/lib.rs:550-555 | the state a session starts from satisfies it |
| `Runs.Persists` | crates/node/src/held.rs:69-77 | a membership known at two points of a run is known in between, and only grew: what is resolved stays so, and one forgotten never comes back |
| `Runs.NothingSkipped` | crates/node/src/reading.rs:168-217 | in every reachable state each seq above the baseline and up to the cut is held, lost, or in `keep` |
| `Baselines.BaselineStep` | crates/node/src/held.rs:516-526 | a step raises a baseline only by a header or a cut entry that itself says what it covers was sent before this session joined |
| `Baselines.BaselineEarly` | crates/node/src/held.rs:516-526 | so in every state of every run what a baseline covers is from before this session: it began past it, or a header or entry read by then says so |
| `Baselines.KeptOrEarly` | crates/node/src/reading.rs:195-216 | in every reachable state each seq up to the cut is from before this session, held, lost, or in `keep` |
| `Baselines.KeptForGood` | crates/node/src/reading.rs:195-216 | a seq newly kept by an entry sent since this session joined is held, lost or in `keep` in every later state, whatever baselines do |
| `Baselines.FromBeforeRuns` | crates/node/src/reading.rs:199-204 | a run in which an entry sent since this session joined keeps a seq that is then neither held, lost nor in `keep`, being from before it |
| `Causal.AtDelivery` | crates/node/src/held.rs:636-671 | in every run a delivery is of a seq not delivered before, at the next index, late exactly if given up on |
| `Causal.AtRequirement` | crates/node/src/held.rs:611-627 | what a message requires is resolved as it is delivered, but what it was released from past the evidence |
| `Causal.CausalOrder` | crates/node/src/held.rs:69-100 | a message delivered after one that requires it was then given up (and is late), lost, from before this session as a header or entry read by then says, released past the evidence, or of an unknown membership |
| `Causal.DeliveredOnce` | crates/node/src/held.rs:655-664 | no message is delivered twice, and indexes order the deliveries |
| `Missing.ReportExact` | crates/node/src/held.rs:639-654 | a report names exactly the given-up seqs its requirements reach that none named before |
| `Missing.NamesExactly` | crates/node/src/held.rs:639-654 | so does each delivered message's `missing`, in every run, of what its header requires |
| `Missing.NamedOnce` | crates/node/src/held.rs:639-654 | no seq is named missing by two messages of a run |
| `Missing.CommitSettles` | crates/node/src/reading.rs:168-184 | after a commit, what the last one kept is held or lost, and what it lost is to be told |
| `Missing.LossesTold` | crates/node/src/reading.rs:168-184 | no step loses a seq without queueing it to be told |
| `GroupRuns.AfterKeeps` | crates/core/src/group.rs:775-788 | a valid commit leaves one leaf per member, each naming its key, a cut of exactly the members sorted by key, and an admin |
| `GroupRuns.NamedAfter` | crates/core/src/group.rs:902-947 | a commit the rules allow leaves every member's credential naming its key |
| `GroupRuns.AfterCut` | crates/core/src/group.rs:775-788 | the cut state after a commit: who stays at the cut it ended with, who was added at seq 0 of the new epoch, and no one else |
| `GroupRuns.EndedCut` | crates/core/src/group.rs:869-874 | the cut a commit ends with has the same memberships in the same places, none moved back |
| `Authority.CreatedInv` | crates/core/src/group.rs:375-398 | a new group satisfies the invariant; its one member is the founder, and its admins are exactly the founder and the device a certificate of it names |
| `Authority.ChainInv` | crates/core/src/group.rs:775-788 | every reachable group state does, one epoch per commit |
| `Authority.OneCommit` | crates/core/src/group.rs:934-940 | a commit begins memberships of the epoch it begins only, and moves no cut back |
| `Authority.Endures` | crates/core/src/group.rs:934-940 | a membership named twice in a run is named throughout, its cut seq never decreasing |
| `Authority.NeverRecurs` | crates/core/src/group.rs:775-788 | a membership that ended never recurs |
| `Authority.LeaveBinds` | crates/core/src/group.rs:276-278 | a leave counts exactly while the very membership it was signed for is named |
| `Authority.StaleLeave` | crates/core/src/group.rs:506-514 | a leave of an ended membership authorises no removal ever after, of any key |
| `Authority.FixedSettings` | crates/core/src/group.rs:922-930 | protocol, carry, update and service never change, and there is always an admin |
| `Authority.ListsStay` | crates/core/src/group.rs:922-930 | along commits by members whose key, and whose certifying device, is not in the list of admins, the settings stay as they were |
| `Authority.NoAuthorityGained` | crates/core/src/group.rs:902-921 | along such commits everyone added has a certificate for its own key by a device that was in the admitted or admin list at the start, and everyone removed signed the leave of that membership |
| `Commits.AddExact` | crates/core/src/group.rs:911-916 | an Add is allowed exactly if it names its own key, which no Remove of the commit has, and its committer is an admin by key or device or a listed device certified the key |
| `Commits.RemoveExact` | crates/core/src/group.rs:917-921 | a Remove exactly if it is of a member, and its committer is an admin or the commit has the leave that member signed for the membership it has |
| `Commits.ChangeExact` | crates/core/src/group.rs:922-930 | a change of settings exactly if its committer is an admin, and it is of the two lists only and leaves an admin |
| `Commits.MovesExact` | crates/core/src/group.rs:933-940 | moved entries exactly if each key is named once, in order, each of a membership of the cut, past its entry by at most 100,000, with a 32-byte id |
| `Commits.RulesExact` | crates/core/src/group.rs:902-947 | a commit exactly if all that holds, it names an invite just when it adds, and its new leaf keeps the key and names it |
| `Commits.SettingsMove` | crates/core/src/group.rs:775-788 | after a valid commit the settings are those of its change, or the same |
| `Commits.EndedExact` | crates/core/src/group.rs:869-874 | the cut it ends with has exactly the moved entries and those of the other keys |
| `Commits.RosterExact` | crates/core/src/group.rs:732-752 | after it the roster is exactly who was not removed, each at its leaf, the committer with its new certificate, and who was added, at the leftmost blank leaves in order |
| `Commits.MayRemove` | crates/core/src/group.rs:917-921 | any member can remove another exactly if it is an admin or carries its leave, and who is removed is no member after |
| `Commits.MayAdd` | crates/core/src/group.rs:911-916 | any member can add a new key exactly if it is an admin or a listed device certified it, and it is then a member from seq 0 |
| `Commits.MayChange` | crates/core/src/group.rs:922-930 | any member can set the two lists exactly if it is an admin and leaves one, and then they are so |
| `Sessions.ReadFollows` | crates/core/src/group.rs:699-752 | whether an entry is one's own pending commit or another's, the session moves exactly as the log says, unless the entry is from its own leaf, signed by its key, and not what it posted |
| `Sessions.CopiedExact` | crates/core/src/group.rs:754-770 | an entry is found copied exactly if the session is active and the entry opens to a commit of this epoch from its own leaf, signed by its key, that is not the one it posted |
| `Sessions.CommitsExact` | crates/core/src/group.rs:699-729 | an entry is found a commit exactly if it is the one posted and the rules allow it, or a valid one of another leaf; with whether it removes this session, and its time |
| `Sessions.ReadRest` | crates/core/src/group.rs:699-752 | after an entry the session is active unless a commit removed it, and its pending commit is gone exactly if an epoch ended or it was refused |
| `Sessions.PlaysFollow` | crates/core/src/group.rs:699-752 | over a run that reads nothing of its own leaf and key but what it posted, whatever junk it reads and whatever it posts, a session's view is what its log makes of the view it began with |
| `Sessions.Converge` | crates/core/src/group.rs:699-788 | two sessions that begin alike and read the same log are alike after it: epoch, roster, settings, cut state, ended cut |
| `GroupState.Group.Create` | crates/core/src/group.rs:375-398 | the group as created is in order |
| `Sessions.BuiltIsTaken` | crates/core/src/group.rs:639-729 | a commit a session built is judged a commit by it and by every other member with its view, all of them reach the one view after it, and its builder stays in |
| `GroupState.Group.JudgeEntry` | crates/core/src/group.rs:699-729 | the verdict is the one that `Sessions.CopiedExact` and `CommitsExact` describe, and a pending commit the rules refuse is dropped |
| `GroupState.Group.Observe` | crates/core/src/group.rs:869-874 | the loop that rewrites the cut in place is the move of each entry by key |
| `GroupState.Group.Merge` | crates/core/src/group.rs:775-788 | the loop that builds the next cut state gives who stays, then who began, sorted |
| `GroupState.Group.Apply` | crates/core/src/group.rs:732-752 | the session moves to the view after the commit, nothing pending |
| `GroupState.Group.ReadEntry` | crates/core/src/group.rs:699-752 | reading an entry moves the group exactly as the log says; or, exactly if it is of this leaf and key and not what was posted, finds a copy and changes nothing |
| `Cuts.SortedUnique` | crates/core/src/group.rs:781-784 | a cut sorted by key is determined by its entries |
| `Joining.Rebuilt` | crates/core/src/group.rs:645 | carrying only the entries that moved loses nothing: members rebuild the whole cut |
| `Joining.BuiltPasses` | crates/core/src/group.rs:934-940 | a cut built from the cut state passes the cut checks of the rules at every member |
| `Joining.JoinAccepts` | crates/core/src/group.rs:441-442 | the joiner's checks of the admission's cut accept it |
| `Joining.JoinerMeets` | crates/core/src/group.rs:405-459 | the joiner's checks, of the credentials, the signatures and the cut, all pass, and it computes from the admission exactly the view the members reach by that commit |
| `Joining.JoinExact` | crates/core/src/group.rs:405-459 | a newcomer joins exactly if the protocol is 14, every credential names its key, the entry is of the epoch before, the Welcome's sender signed both, and the cut is in order, well formed and has what the commit moved |
| `Joining.JoinView` | crates/core/src/group.rs:443-449 | and its cut state has exactly, for each member, the entry of the cut handed over, or a first one of this epoch |
| `Duties.CutFor` | crates/node/src/duties.rs:68-86 | the cut built passes every member's checks; each entry moves along messages held, sealed in the epoch, chained each to the one before by id and, of one's own, held by another; and stops only at one that is not, or 100,000 on |
| `Duties.Extend` | crates/node/src/duties.rs:73-83 | one entry is extended so |
| `Duties.KeepsMost` | crates/node/src/duties.rs:74-82 | so no entry moved along such messages, within the step allowed, is further on |
| `Bridge.ValidIsCommittable` | crates/node/src/reading.rs:190-217 | a valid commit meets what the held state assumes of a commit |
| `Bridge.MovesTogether` | crates/node/src/reading.rs:92-147 | a valid commit takes the held state and the group on together: epoch, memberships and cuts |
| `Bridge.BeginsInStep` | crates/node/src/lib.rs:550-555 | the two are in step where a session starts |
| `Bridge.BeginsExact` | crates/node/src/lib.rs:550-555 | a session starts with nothing held, and each membership of the view at its cut, with nothing before it to wait for |
| `Bridge.OtherSteps` | crates/node/src/held.rs:466-562 | every step that is no commit leaves the epoch, the memberships and their cuts |
| `Bridge.StaysInStep` | crates/node/src/reading.rs:92-147 | in every state of every run of held steps and valid commits the two are in step, with both invariants |
| `Bridge.SessionRuns` | crates/node/src/reading.rs:92-147 | so such a run, which assumes nothing of a commit but that the group takes it, is a run of the held state |
| `Bridge.KeptOfGroup` | crates/node/src/reading.rs:168-217 | in every state of it, what the group's cut keeps is from before this session, as a header or entry read by then says, or held, lost, or in `keep` |
| `Bridge.KeptSinceJoining` | crates/node/src/reading.rs:195-216 | what a valid commit newly keeps by an entry sent since the session joined is held, lost or in `keep` in every later state |
| `Bridge.SessionCausal` | crates/node/src/held.rs:69-100 | and causal order holds over it |
| `Bridge.ApplyCommit` | crates/node/src/reading.rs:92-127 | a valid commit's cut may be applied in place, and leaves the state in step with the group |
| `Heads.ChainInjective` | crates/proto/src/head.rs:18-24 | a chain hash from a log's start is of one sequence of entries |
| `Store.Service.State` | crates/membership/src/store.rs:59-69 | the length and hash are those of the live log, or of none; expired exactly if let go |
| `Store.Service.Read` | crates/membership/src/store.rs:194-213 | a page is a contiguous part of the log, with at least one entry before the end, and ends only where the log or 1024 rows do or the next entry does not fit; its signed head is true of the log, at the time of the call |
| `Store.Service.ReadRows` | crates/membership/src/store.rs:198-211 | the accumulating loop gives the entries and the hash of exactly the prefix they reach |
| `Store.PageBytes` | crates/proto/src/membership.rs:105-118 | the size counted of a page is its entries in base 64, with three characters more for each and 512 in all |
| `Store.Service.Append` | crates/membership/src/store.rs:172-192 | an append is taken exactly if valid, not expired and within the disk; the log grows by it, its first entry's time stays, and the head signed is true |
| `Store.Service.AppendRows` | crates/membership/src/store.rs:181-185 | the records inserted extend positions and hashes, and touch no other log |
| `Store.Service.Moved` | crates/membership/src/store.rs:220-232 | true heads of exactly the logs whose length is not one given, and exactly the expired among those asked |
| `Store.Service.Forget` | crates/membership/src/store.rs:246-249 | forgets only references long expired whose records are gone, so a forgotten log restarts with none, up to the limit |
| `Store.Service.MarkOverdue` | crates/membership/src/store.rs:250-256 | only overdue logs go, all of them when fewer than the limit |
| `Store.Service.Reap` | crates/membership/src/store.rs:265-283 | deletes only records of logs let go, within rows and bytes; stops with more left only at a limit, having deleted some; nothing doomed is left if not |
| `Store.SizeExact` | crates/membership/src/store.rs:265-283 | the bytes counted are those of the entries deleted, and 72 for each |
| `Store.Service.Expire` | crates/membership/src/store.rs:242-262 | a pass stays within its limits, only overdue logs go, with the time they went, and if it answers "more" the lexicographic measure fell; if not, every reference that could be forgotten is |
| `Store.Service.ExpireAll` | crates/membership/src/service.rs:230-240 | repeated passes end: the logs left are exactly those whose first entry is within retention, unchanged; no record of another is left; and a reference stays for 30 days and then goes, if its log had no record left |
| `Store.Service.Serve` | crates/membership/src/store.rs:172-262 | of every call: the heads it signs are true of the logs as it leaves them, every log it does not let go only grows, and only expiry lets go, of overdue logs |
| `Store.Service.ServeAll` | crates/membership/src/store.rs:172-262 | a sequence of calls is a run of such |
| `Store.HeadsStayTrue` | crates/membership/src/store.rs:166-262 | in every run of calls, each head signed is true of its log in every later state, unless the log was let go between |
| `Copies.HeadFixes` | crates/proto/src/head.rs:18-24 | a true head of all a copy holds fixes the log that far |
| `Copies.ContradictionHolds` | crates/membership/src/chain.rs:57-72 | a contradiction is reported only of two heads no single log has |
| `Copies.HonestPasses` | crates/membership/src/chain.rs:57-72 | a head true of the log passes |
| `Copies.VerifiedChains` | crates/membership/src/chain.rs:75-82 | a page that verifies chains from what is held to its head |
| `Copies.CheckExact` | crates/membership/src/chain.rs:57-72 | a head is fine exactly if it is of this log, signed by its service, and true of what is held if no longer than it; a contradiction exactly if it is not true and there is a head to contradict |
| `Copies.PageExact` | crates/membership/src/chain.rs:75-82 | a page verifies exactly if its head is of this log and service, and it goes on from what is held, within bounds, to that head |
| `Copies.HonestPageVerifies` | crates/membership/src/chain.rs:75-82 | an honest page past what is held verifies |
| `Copies.NeverRewritten` | crates/node/src/logs.rs:366-401 | whatever a copy is fed, in whatever order, it keeps every entry where it holds it |
| `Copies.HonestPrefix` | crates/node/src/logs.rs:366-401 | under an honest service a copy is always a prefix of the log |
| `Copies.Comparable` | crates/node/src/logs.rs:366-401 | any two copies are then prefix-comparable |
| `Copies.NeverContradicted` | crates/node/src/logs.rs:366-401 | and none is ever contradicted |
| `Copies.Copy.HashAt` | crates/node/src/logs.rs:162-167 | the hash through any position held, and none past it |
| `Copies.Copy.Vouched` | crates/node/src/peering.rs:577-592 | a head is vouched for exactly if it is of this log and service, and true of the copy if no longer than it |
| `Copies.Copy.TakeEntries` | crates/node/src/logs.rs:366-401 | the copy always chains from the start to its head; entries are kept, ignored or contradicted exactly as they end at their head and agree with it |
| `Copies.Copy.FromPeer` | crates/node/src/peering.rs:531-536 | entries from a peer are taken as the service's are, if their head is vouched for |
| `Copies.Copy.ReadThrough` | crates/node/src/logs.rs:330-361 | the page loop ends with the copy equal to the service's log, unless the log expired |
| `Copies.Copy.ReadPage` | crates/node/src/logs.rs:332-356 | one page of a live log brings the copy on, unless it is the whole log already |
| `Answers.CarriesSet` | crates/net/src/peers.rs:742-753 | positions by membership survive the frame that carries them |
| `Answers.NamedBySome` | crates/net/src/peers.rs:742-753 | positions read from a frame are those that any of its lists names |
| `Answers.AnswerOne` | crates/net/src/peers.rs:790-801 | one membership's part: what is sent is in order, each once, and where the answer fills up |
| `Answers.Answer` | crates/net/src/peers.rs:783-804 | an answer covers all asked, or the asked before the one where it filled up; every covered, held and available ciphertext was sent, in order, and no other |
| `Answers.StruckIsCovered` | crates/net/src/peers.rs:344-358 | what is struck for an honest answer, whole or cut short, to the request that is out is exactly what it covered |
| `Answers.StruckForAny` | crates/net/src/peers.rs:344-358 | for an answer to whichever request, taken for the one that is out: what is struck is what it covered if and only if it covered all that is out, or it is full and covered something |
| `Answers.CoversSome` | crates/net/src/peers.rs:783-804 | an honest answer covers something asked |
| `Repair.Offer` | crates/net/src/peers.rs:764-775 | an offer is exactly what is wanted, held and not struck, with no empty membership |
| `Repair.BeginsAfresh` | crates/net/src/peers.rs:183-188 | in a later epoch each holder offers all it holds of what is wanted, and however a request of the earlier epoch ends, nothing is struck for it |
| `Repair.StaysStruck` | crates/net/src/peers.rs:183-188 | in the same epoch nothing struck is offered again, however wants and holders change |
| `Repair.Peers.Held` | crates/net/src/peers.rs:344-358 | an answer ends the request that is out to that peer, whichever it answers, and strikes what it is taken to cover, unless the request is of an earlier epoch |
| `Repair.Peers.Timeouts` | crates/net/src/peers.rs:557-568 | a request out of time ends and strikes what it asked, unless it is of an earlier epoch |
| `Repair.Peers.Repair` | crates/net/src/peers.rs:640-688 | asks, when idle, the served holder offering the lowest position, for the first 512 of each membership, which is a step of the runs below; asks no one only if no one can be asked |
| `Repair.RequestExact` | crates/net/src/peers.rs:655-686 | the request made: no holder that can be asked offers an earlier position, nor the same with a lower key; it asks for the lowest 512 on offer of each membership, or all; for 120 seconds if anything asked was announced, else for 10 |
| `Repair.AskableExact` | crates/net/src/peers.rs:655-660 | a holder can be asked exactly if it is served and some position is wanted and listed or announced by it, or stale and sealed by it, and not struck |
| `Repair.OwnedOffers` | crates/net/src/peers.rs:183-188 | as the state changes each holder offers exactly what is then wanted of it and not struck in that epoch |
| `RepairRuns.StepInv` | crates/net/src/peers.rs:344-358 | every step, a late answer among them, keeps that nothing of the request out is struck |
| `RepairRuns.EpochInv` | crates/net/src/peers.rs:183-188 | and so does the beginning of another epoch |
| `RepairRuns.StepShrinks` | crates/net/src/peers.rs:344-358 | a request of the epoch settled by its own answer, or by none, leaves strictly fewer positions unstruck, and no step more |
| `RepairRuns.MistakenShrinks` | crates/net/src/peers.rs:344-358 | one settled by a late answer to another leaves fewer if and only if that answer is short, or covered something not yet struck |
| `RepairRuns.RepairEnds` | crates/net/src/peers.rs:640-688 | over all runs, however wants and holders change and whenever answers come: an epoch settles at most as many requests as positions were ever on offer, times one more than the answers owed, plus those owed at its start; with none owed, at most the positions on offer |
| `RepairRuns.TimelyEnds` | crates/net/src/peers.rs:640-688 | those settled by their own answer, or by none, are at most the positions on offer in any case |
| `RepairRuns.RestsComplete` | crates/net/src/peers.rs:640-688 | where repair rests, for each wanted position a served holder claims: the holder left a request for it unanswered; or answered for it, sending it if it had it; or a short late answer to another request was taken to cover it |
| `RepairRuns.RestsAnswered` | crates/net/src/peers.rs:640-688 | of a holder that is owed nothing and answers every request of the epoch in time, each such position was sent if it had it |
| `Misread.LeavesOne` | crates/net/src/peers.rs:344-358 | a run against an honest holder that rests with a wanted message the holder has, claims and answered both requests for, struck and never sent |
| `Misread.StrikesNothing` | crates/net/src/peers.rs:344-358 | a late answer that settles a request and strikes nothing new |
| `Ranges.CanonicalUnique` | crates/proto/src/ranges.rs:5-7 | two canonical values are equal if and only if their sets are |
| `Ranges.Contains` | crates/proto/src/ranges.rs:30-33 | the binary search decides membership |
| `Ranges.From` | crates/proto/src/ranges.rs:97-111 | any ranges are sorted and merged into the canonical form of their set, up to the greatest number |
| `Ranges.Merge` | crates/proto/src/ranges.rs:102-109 | the merging loop keeps the canonical form and the set |
| `Ranges.Union` | crates/proto/src/ranges.rs:47-49 | set union, canonical |
| `Ranges.Intersection` | crates/proto/src/ranges.rs:51-60 | set intersection, canonical |
| `Ranges.Subtract` | crates/proto/src/ranges.rs:65-86 | what one range leaves, with the ranges that end in it passed for good |
| `Ranges.Difference` | crates/proto/src/ranges.rs:62-88 | set difference, canonical, with an index that never goes back |
| `Ranges.Through` | crates/proto/src/ranges.rs:91-93 | the positions up to one |
| `Ranges.Insert` | crates/proto/src/ranges.rs:35-37 | one position more |
| `Ranges.Remove` | crates/proto/src/ranges.rs:39-41 | one position less |
| `Ranges.InsertRemove` | crates/proto/src/ranges.rs:35-41 | inserting a position not held and removing it gives back the same value |
| `Requests.InFlight.Admit` | crates/membership/src/service.rs:264-281 | a request is admitted exactly if, summed over the admissions not dropped, the service and each of its sources have room, a /48 for 16 times as much; totals stay those sums, within policy |
| `Requests.InFlight.Keep` | crates/membership/src/service.rs:196-202 | keeping fewer bytes lowers exactly that admission's share, without underflow |
| `Requests.InFlight.Drop` | crates/membership/src/service.rs:206-216 | dropping an admission lowers exactly its share, without underflow, and a source with no request is gone |
| `Requests.NetsAgree` | crates/membership/src/service.rs:146-163 | an address's /48 is that of its /64 |
| `Requests.SourcesExact` | crates/membership/src/service.rs:146-163 | what an address counts under: the IPv4 address it is or is mapped from, or the blocks of 2^64 and 2^80 addresses it lies in |
| `Quotas.ChargeKeysOk` | crates/membership/src/service.rs:118-125 | charging keeps each tracked source's total equal to all it drew, and each /48's count equal to its tracked /64s, at most 16 |
| `Quotas.FitKeeps` | crates/membership/src/service.rs:110-116 | a charge that fits keeps every source within its allowance |
| `Quotas.FitsExact` | crates/membership/src/service.rs:110-116 | in terms of what was drawn in the window: a charge fits a source exactly if it is past the 16 /64s its /48 tracks, or it is or can be tracked and stays within the limit, a /48 within 16 times it |
| `Quotas.PastSources` | crates/membership/src/service.rs:110-116 | exactly when a charge that fits takes a quota past the sources it is to track, and by one at most |
| `Quotas.TracksOneMore` | crates/membership/src/service.rs:110-116 | a quota of one source tracks two |
| `Quotas.Budgeted` | crates/membership/src/service.rs:127-131 | in a window a /48 draws at most 16 times the limit however many /64s it uses, an IPv4 address the limit, a /64 the limit unless its /48 tracks 16 others |
| `Quotas.Quota.Roll` | crates/membership/src/service.rs:133-139 | another window begins with nothing spent |
| `Quotas.Quota.Charge` | crates/membership/src/service.rs:118-125 | the loop charges each tracked source of an address |
| `Quotas.Quota.Take` | crates/membership/src/service.rs:127-131 | charges exactly what fits, keeping every bound |
| `Times.CivilIsCalendar` | crates/session/src/short.rs:40-51 | for every number of days the date computed is the one the Gregorian rules reach day by day from 1970-01-01 |
| `Times.BeforeTenThousand` | crates/session/src/short.rs:40-51 | exactly the instants before 253402300800000 have a year of four digits |
| `Times.ReadsBack` | crates/session/src/short.rs:40-53 | the text of every instant reads back: the digits at its places are the year, month and day of the calendar and the hour, minute and second, with the separators between; it has 20 characters exactly before the year 10000 |
| `Times.IsoOrder` | crates/session/src/short.rs:40-53 | before the year 10000 texts compare exactly as instants do in seconds |
| `Times.IsoOrderExact` | crates/session/src/short.rs:40-53 | texts compare as instants up to a bound if and only if the bound is no later than the year 10000 |
| `Times.PruneExact` | crates/session/src/session.rs:243-262 | pruning keeps exactly the lines not older, in seconds, than so many days ago |
| `Times.PastTenThousand` | crates/session/src/short.rs:40-53 | the text of the year 10000 compares before that of the second before |

## Left out

- MLS's tree, key schedule and cryptography, the envelopes and signatures: arbitrary functions and ideal values here.
- The token buckets and the unopened and early ciphertexts: a run may open any message that passes `Steps.Opens`, at any time.
- What a member serves and seals again (`servable`, `sealed`, `reseal`, `frames`) and the frontier of shown messages: bookkeeping of who may be sent what, which no property here needs.
- `take_one`'s window and size limits: they only make a run open less.
- Waiting before a commit (`cleared`, `Peers::wait`): a commit may apply at once, so what is proved holds whether or not it waits.
- Peers' dials, backoff, sightings, hellos and closing of connections: they choose whom to talk to; in `Repair` who is connected may change at any step.
- An answer from a holder that is not honest: it may strike nothing, and then the same request is made again. Late answers of honest holders are modelled.
- Answers.Answer: holds for seqs that count from 1, as the code subtracts one from the seq an answer fills up at; sets of positions stand for the interval sets.
- Cuts.SortedUnique: cuts are sorted by key alone, which decides the order as keys are unique in a cut.
- GroupState.Group.ReadEntry: of a session that a commit removes, only that it is no longer active is of use; its view is the members'.
- Store.Service.Reap: deletes record by record what the code selects in batches; the limits and the order within a log are the same.
- Store.Service.Append: whether the disk has room is passed in.
- Requests.InFlight.Keep: asks that no more is kept than was admitted, which the code relies on too.
- Repair.Peers.Held: the state of one group; the code keeps a map of groups.
- Quotas charged past what fits (`read_bytes` and `new_logs` are charged after the answer): only what `Quotas.Quota.Charge` states holds of them, and no bound.
- JSON, base64, links, the HTTP and network layers, the command line, SQLite durability and scrubbing: plumbing that would add easy members only.
- 64-bit limits of seqs, positions, epochs and times outside `Ranges`.
