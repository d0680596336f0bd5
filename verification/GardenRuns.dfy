/** Every interleaving of the requests that touch gardens. What a request seen
    before its transaction is a step of its own, and a read once made may be
    acted on at any later step, so every gap between a check and its write is
    covered. */
module GardenRuns {
  import opened Options
  import opened Gardens

  /** Something a request has read, and will act on. */
  datatype Read =
    | SawInvite(id: Id, invite: Invite)
    | SignedIn(user: Id)
    | Manager(user: Id, garden: Id)
    | SawExisting(user: Id, garden: Id, existing: bool)
    | SawPost(garden: Id, changes: seq<Change>)
    | SawMember(garden: Id, target: Id)
    | SawLive(user: Id, garden: Id, role: Role)

  /** What a committed transaction spent. */
  datatype Event =
    | Joined(invite: Id, garden: Id, user: Id)
    | Accepted(invite: Id, garden: Id, user: Id)
    | AddedDevice(invite: Id)
    | SetUpWithLink(link: Id, garden: Id, user: Id)
    | SetUpPlain(garden: Id, user: Id)
    | SetUpSignedInPlain(garden: Id, user: Id)

  /** creator remembers who made each garden ever made, issued and printed the
      ids of every invite and setup link, and log what was spent, in order. */
  datatype System = System(
    db: Rows, seen: set<Read>, creator: map<Id, Id>, issued: set<Id>, printed: set<Id>, log: seq<Event>)

  const INSTALL := System(EMPTY, {}, map[], {}, {}, [])

  datatype Action =
    | OpenInvite(id: Id, now: int)
    | Authenticate(user: Id)
    | AuthenticateManager(user: Id, garden: Id, now: int)
    | LookUpExisting(user: Id, garden: Id, now: int)
    | ReadPost(reader: Id, garden: Id, changes: seq<Change>)
    | ReadMember(reader: Id, garden: Id, target: Id)
    | LookUpLive(user: Id, garden: Id, now: int)
    | CommitJoin(id: Id, invite: Invite, user: Id, answered: bool, now: int)
    | CommitAddDevice(id: Id, invite: Invite, answered: bool, now: int)
    | CommitAccept(id: Id, invite: Invite, user: Id, existing: bool, now: int)
    | CommitSetUp(door: Door, user: Id, garden: Id, answered: bool, now: int)
    | CommitSetUpSignedIn(door: Door, user: Id, garden: Id, now: int)
    | CommitSave(garden: Id, changes: seq<Change>)
    | CommitRemove(garden: Id, target: Id)
    | CommitClose(user: Id, now: int)
    | CommitDeleteGarden(user: Id, garden: Id)
    | CommitInvite(user: Id, id: Id, garden: Id, role: Role, expires: int, memberEnds: Option<int>)
    | CommitRevoke(user: Id, garden: Id, id: Id)
    | CommitSignInLink(id: Id, user: Id, garden: Id, role: Role, expires: int)
    | PrintSetupLink(link: Id, expires: int)
    | RunSweep(before: int)

  predicate Open(db: Rows, user: Id) {
    user in db.users && db.users[user]
  }

  /** The changes PostedChanges can return: none for the reader, and no role the
      select does not offer. */
  predicate Postable(changes: seq<Change>, reader: Id) {
    forall c :: c in changes ==> c.user != reader && (c.role.Some? ==> c.role.value in OFFERED_ROLES)
  }

  function Saw(s: System, ok: bool, r: Read): System {
    if ok then s.(seen := s.seen + {r}) else s
  }

  function Commit(s: System, tx: Option<Rows>, events: seq<Event>): System {
    if tx.Some? then s.(db := tx.value, log := s.log + events) else s
  }

  /** A garden's creator is remembered if the transaction made it. */
  function Planted(s: System, tx: Option<Rows>, garden: Id, user: Id, e: Event): System {
    if tx.Some? then Commit(s, tx, [e]).(creator := s.creator[garden := user]) else s
  }

  /** What a request reads before its transaction. */
  function ReadStep(s: System, a: Action): System {
    match a
    case OpenInvite(id, now) =>
      if InviteOpen(s.db, id, now) then Saw(s, true, SawInvite(id, s.db.invites[id])) else s
    case Authenticate(user) => Saw(s, Open(s.db, user), SignedIn(user))
    case AuthenticateManager(user, garden, now) =>
      Saw(s, Open(s.db, user) && MayManage(s.db, garden, user, now), Manager(user, garden))
    case LookUpExisting(user, garden, now) =>
      var held := (garden, user) in s.db.members;
      Saw(s, SignedIn(user) in s.seen && !(held && !Ended(s.db.members[(garden, user)], now)),
          SawExisting(user, garden, held))
    case ReadPost(reader, garden, changes) =>
      Saw(s, Manager(reader, garden) in s.seen && Postable(changes, reader), SawPost(garden, changes))
    case ReadMember(reader, garden, target) =>
      Saw(s, Manager(reader, garden) in s.seen && (garden, target) in s.db.members && target != reader,
          SawMember(garden, target))
    case LookUpLive(user, garden, now) =>
      if Open(s.db, user) && (garden, user) in s.db.members && !Ended(s.db.members[(garden, user)], now)
      then Saw(s, true, SawLive(user, garden, s.db.members[(garden, user)].role)) else s
    case _ => s
  }

  /** The transactions that spend an invite. */
  function RedeemStep(s: System, a: Action): System {
    match a
    case CommitJoin(id, invite, user, answered, now) =>
      if SawInvite(id, invite) in s.seen && invite.forUser.None?
      then Commit(s, Join(s.db, id, invite, user, answered, now), [Joined(id, invite.garden, user)]) else s
    case CommitAddDevice(id, invite, answered, now) =>
      if SawInvite(id, invite) in s.seen && invite.forUser.Some?
      then Commit(s, AddDevice(s.db, id, invite, answered, now), [AddedDevice(id)]) else s
    case CommitAccept(id, invite, user, existing, now) =>
      if SawInvite(id, invite) in s.seen && invite.forUser.None? && SawExisting(user, invite.garden, existing) in s.seen
      then Commit(s, Accept(s.db, id, invite, user, existing, now), [Accepted(id, invite.garden, user)]) else s
    case _ => s
  }

  /** The transactions that make a garden. signup is SPRIG_SIGNUP_ENABLED. */
  function SetUpStep(signup: bool, s: System, a: Action): System {
    match a
    case CommitSetUp(door, user, garden, answered, now) =>
      if garden in s.creator then s
      else Planted(s, SetUp(s.db, door, signup, user, garden, answered, now), garden, user,
                   if door.WithLink? then SetUpWithLink(door.link, garden, user) else SetUpPlain(garden, user))
    case CommitSetUpSignedIn(door, user, garden, now) =>
      if garden in s.creator || SignedIn(user) !in s.seen then s
      else Planted(s, SetUpSignedIn(s.db, door, signup, user, garden, now), garden, user,
                   if door.WithLink? then SetUpWithLink(door.link, garden, user) else SetUpSignedInPlain(garden, user))
    case _ => s
  }

  /** What an owner does on People and in Settings. */
  function ManageStep(s: System, a: Action): System {
    match a
    case CommitSave(garden, changes) =>
      if SawPost(garden, changes) in s.seen then s.(db := s.db.(members := ApplyAll(s.db.members, garden, changes)))
          else s
    case CommitRemove(garden, target) =>
      if SawMember(garden, target) in s.seen then s.(db := RemoveMember(s.db, garden, target)) else s
    case CommitDeleteGarden(user, garden) =>
      if Manager(user, garden) in s.seen then s.(db := DeleteGarden(s.db, garden)) else s
    case CommitInvite(user, id, garden, role, expires, memberEnds) =>
      if Manager(user, garden) in s.seen && id !in s.issued
      then Commit(s.(issued := s.issued + {id}), CreateInvite(s.db, id, garden, role, expires, memberEnds), []) else s
    case CommitRevoke(user, garden, id) =>
      if Manager(user, garden) in s.seen then s.(db := RevokeInvite(s.db, garden, id)) else s
    case _ => s
  }

  /** Closing an account, sign-in links, setup links and the sweep. */
  function ServiceStep(s: System, a: Action): System {
    match a
    case CommitClose(user, now) =>
      if SignedIn(user) in s.seen then Commit(s, CloseAccount(s.db, user, now), []) else s
    case CommitSignInLink(id, user, garden, role, expires) =>
      if SawLive(user, garden, role) in s.seen && id !in s.issued
      then Commit(s.(issued := s.issued + {id}), IssueSignInLink(s.db, id, garden, user, role, expires), []) else s
    case PrintSetupLink(link, expires) =>
      if link in s.printed then s
      else s.(printed := s.printed + {link}, db := s.db.(links := s.db.links[link := SetupLink(expires, None)]))
    case RunSweep(before) => s.(db := Sweep(s.db, before))
    case _ => s
  }

  predicate IsRedeem(a: Action) {
    a.CommitJoin? || a.CommitAddDevice? || a.CommitAccept?
  }

  predicate IsSetUp(a: Action) {
    a.CommitSetUp? || a.CommitSetUpSignedIn?
  }

  predicate IsManage(a: Action) {
    a.CommitSave? || a.CommitRemove? || a.CommitDeleteGarden? || a.CommitInvite? || a.CommitRevoke?
  }

  predicate IsService(a: Action) {
    a.CommitClose? || a.CommitSignInLink? || a.PrintSetupLink? || a.RunSweep?
  }

  /** One step. A step whose read was never made, or whose transaction rolls
      back, changes nothing. */
  function Step(signup: bool, s: System, a: Action): System {
    if IsRedeem(a) then RedeemStep(s, a)
    else if IsSetUp(a) then SetUpStep(signup, s, a)
    else if IsManage(a) then ManageStep(s, a)
    else if IsService(a) then ServiceStep(s, a)
    else ReadStep(s, a)
  }

  function Run(signup: bool, s: System, actions: seq<Action>): System
    decreases |actions|
  {
    if actions == [] then s else Run(signup, Step(signup, s, actions[0]), actions[1..])
  }

  // ----- Every garden keeps its owner -----

  /** Each garden has its creator's membership, as owner and with no end date,
      and no other owner. */
  predicate Owned(db: Rows, creator: map<Id, Id>) {
    && (forall k :: k in db.members ==> k.0 in db.gardens && k.1 in db.users)
    && (forall g :: g in db.gardens ==> g in creator && (g, creator[g]) in db.members
                                        && db.members[(g, creator[g])] == Membership("owner", None))
    && (forall k :: k in db.members && db.members[k].role == "owner" ==> k.1 == creator[k.0])
  }

  /** A join invite never grants the owner role. A sign-in link may hold it. */
  predicate JoinsBelowOwner(db: Rows) {
    forall i :: i in db.invites && db.invites[i].forUser.None? ==> db.invites[i].role != "owner"
  }

  predicate ReadHolds(r: Read, creator: map<Id, Id>) {
    match r
    case SawInvite(_, invite) => invite.forUser.None? ==> invite.role != "owner"
    case Manager(user, garden) => garden in creator && creator[garden] == user
    case SawExisting(user, garden, existing) => existing ==> garden in creator && creator[garden] != user
    case SawPost(garden, changes) => garden in creator && Postable(changes, creator[garden])
    case SawMember(garden, target) => garden in creator && creator[garden] != target
    case SignedIn(_) => true
    case SawLive(_, _, _) => true
  }

  predicate SeenHolds(seen: set<Read>, creator: map<Id, Id>) {
    forall r :: r in seen ==> ReadHolds(r, creator)
  }

  predicate Safe(s: System) {
    Owned(s.db, s.creator) && JoinsBelowOwner(s.db) && SeenHolds(s.seen, s.creator)
  }

  lemma {:induction false} SaveSparesOwner(
    members: map<(Id, Id), Membership>, garden: Id, changes: seq<Change>, owner: Id)
    requires Postable(changes, owner)
    ensures var after := ApplyAll(members, garden, changes);
            && after.Keys == members.Keys
            && (forall k :: k in members && (k.0 != garden || k.1 == owner) ==> after[k] == members[k])
            && (forall k :: k in members && after[k].role == "owner" ==> members[k].role == "owner")
    decreases |changes|
  {
    if changes != [] {
      assert changes[0] in changes;
      assert Postable(changes[1..], owner);
      SaveSparesOwner(Apply(members, garden, changes[0]), garden, changes[1..], owner);
    }
  }

  lemma ReadIsSafe(s: System, a: Action)
    requires Safe(s)
    ensures Safe(ReadStep(s, a))
  {
    if a.LookUpExisting? {
      assert (a.garden, a.user) in s.db.members ==> a.garden in s.db.gardens;
    }
  }

  lemma JoinIsSafe(s: System, a: Action)
    requires Safe(s) && (a.CommitJoin? || a.CommitAddDevice?)
    ensures Safe(RedeemStep(s, a))
  {
    if SawInvite(a.id, a.invite) in s.seen {
      assert ReadHolds(SawInvite(a.id, a.invite), s.creator);
    }
  }

  lemma AcceptIsSafe(s: System, a: Action)
    requires Safe(s) && a.CommitAccept?
    ensures Safe(RedeemStep(s, a))
  {
    if SawInvite(a.id, a.invite) in s.seen && SawExisting(a.user, a.invite.garden, a.existing) in s.seen {
      assert ReadHolds(SawInvite(a.id, a.invite), s.creator);
      assert ReadHolds(SawExisting(a.user, a.invite.garden, a.existing), s.creator);
    }
  }

  /** What was read of the gardens there were still holds once there is another. */
  lemma SeenSurvives(seen: set<Read>, creator: map<Id, Id>, garden: Id, user: Id)
    requires SeenHolds(seen, creator) && garden !in creator
    ensures SeenHolds(seen, creator[garden := user])
  {
    forall r | r in seen
      ensures ReadHolds(r, creator[garden := user])
    {
      assert ReadHolds(r, creator);
    }
  }

  lemma SetUpIsSafe(signup: bool, s: System, a: Action)
    requires Safe(s)
    ensures Safe(SetUpStep(signup, s, a))
  {
    if IsSetUp(a) && a.garden !in s.creator {
      SeenSurvives(s.seen, s.creator, a.garden, a.user);
      PlantedIsOwned(s, Claim(s.db, a.door, signup, a.now), a.garden, a.user, a.CommitSetUp?);
    }
  }

  lemma SaveIsSafe(s: System, a: Action)
    requires Safe(s) && a.CommitSave?
    ensures Safe(ManageStep(s, a))
  {
    if SawPost(a.garden, a.changes) in s.seen {
      assert ReadHolds(SawPost(a.garden, a.changes), s.creator);
      SaveSparesOwner(s.db.members, a.garden, a.changes, s.creator[a.garden]);
    }
  }

  lemma RemoveIsSafe(s: System, a: Action)
    requires Safe(s) && a.CommitRemove?
    ensures Safe(ManageStep(s, a))
  {
    if SawMember(a.garden, a.target) in s.seen {
      assert ReadHolds(SawMember(a.garden, a.target), s.creator);
    }
  }

  lemma ManageIsSafe(s: System, a: Action)
    requires Safe(s)
    ensures Safe(ManageStep(s, a))
  {
    if a.CommitSave? {
      SaveIsSafe(s, a);
    } else if a.CommitRemove? {
      RemoveIsSafe(s, a);
    }
  }

  lemma CloseIsSafe(s: System, a: Action)
    requires Safe(s) && a.CommitClose?
    ensures Safe(ServiceStep(s, a))
  {
    OwnerCannotClose(s, a.user, a.now);
    assert CloseAccount(s.db, a.user, a.now).Some? ==> forall g :: g in s.db.gardens ==> s.creator[g] != a.user by {
      if CloseAccount(s.db, a.user, a.now).Some? {
        forall g | g in s.db.gardens
          ensures s.creator[g] != a.user
        {
          assert g !in OnlyOwnerOf(s.db, a.user, a.now);
        }
      }
    }
  }

  lemma ServiceIsSafe(s: System, a: Action)
    requires Safe(s)
    ensures Safe(ServiceStep(s, a))
  {
    if a.CommitClose? {
      CloseIsSafe(s, a);
    }
  }

  /** Every step keeps exactly one owner for every garden: its creator. */
  lemma StepIsSafe(signup: bool, s: System, a: Action)
    requires Safe(s)
    ensures Safe(Step(signup, s, a))
  {
    if a.CommitAccept? {
      AcceptIsSafe(s, a);
    } else if IsRedeem(a) {
      JoinIsSafe(s, a);
    } else if IsSetUp(a) {
      SetUpIsSafe(signup, s, a);
    } else if IsManage(a) {
      ManageIsSafe(s, a);
    } else if IsService(a) {
      ServiceIsSafe(s, a);
    } else {
      ReadIsSafe(s, a);
    }
  }

  /** The sole-owner check refuses exactly the accounts that own a garden. */
  lemma OwnerCannotClose(s: System, user: Id, now: int)
    requires Owned(s.db, s.creator)
    ensures OnlyOwnerOf(s.db, user, now) == set g | g in s.db.gardens && s.creator[g] == user
  {
  }

  lemma PlantedIsOwned(s: System, claimed: Option<Rows>, garden: Id, user: Id, newcomer: bool)
    requires Owned(s.db, s.creator) && garden !in s.creator
    requires claimed.Some? ==> claimed.value.(links := s.db.links) == s.db
    ensures var made := if newcomer then Then(claimed, d => CreateAccount(d, user)) else claimed;
            var tx := Then(made, d => CreateGardenOwnedBy(d, garden, user));
            tx.Some? ==> Owned(tx.value, s.creator[garden := user])
  {
  }

  lemma {:induction false} RunIsSafe(signup: bool, s: System, actions: seq<Action>)
    requires Safe(s)
    ensures Safe(Run(signup, s, actions))
    decreases |actions|
  {
    if actions != [] {
      StepIsSafe(signup, s, actions[0]);
      RunIsSafe(signup, Step(signup, s, actions[0]), actions[1..]);
    }
  }

  ghost predicate OwnerOf(db: Rows, garden: Id, user: Id) {
    (garden, user) in db.members && db.members[(garden, user)].role == "owner"
  }

  /** In every state of every run from an empty install, every garden has
      exactly one owner, and that owner's membership has no end date. */
  lemma OneOwner(signup: bool, actions: seq<Action>, garden: Id)
    requires garden in Run(signup, INSTALL, actions).db.gardens
    ensures var db := Run(signup, INSTALL, actions).db;
            exists u :: OwnerOf(db, garden, u) && db.members[(garden, u)].ends.None?
                && forall v :: OwnerOf(db, garden, v) ==> v == u
  {
    RunIsSafe(signup, INSTALL, actions);
    var s := Run(signup, INSTALL, actions);
    assert OwnerOf(s.db, garden, s.creator[garden]);
  }

  // ----- The owner's account is open, unless a closed account's request sets a garden up -----

  /** Every garden's owner is an open account. */
  predicate OwnersOpen(s: System) {
    forall k :: k in s.db.members && s.db.members[k].role == "owner" ==> Open(s.db, k.1)
  }

  /** A signed-in setup, of a new garden and with its door open, whose account was
      closed after the request signed in. */
  predicate StaleSetUp(signup: bool, s: System, a: Action) {
    && a.CommitSetUpSignedIn? && SignedIn(a.user) in s.seen && a.garden !in s.creator
    && Claim(s.db, a.door, signup, a.now).Some? && a.user in s.db.users && !Open(s.db, a.user)
  }

  /** The one step that leaves a garden with a closed owner is a signed-in setup
      whose account has closed by the time it commits. */
  lemma OwnersStayOpenUnlessStale(signup: bool, s: System, a: Action)
    requires Safe(s) && OwnersOpen(s)
    ensures OwnersOpen(Step(signup, s, a)) <==> !StaleSetUp(signup, s, a)
  {
    if IsRedeem(a) {
      RedeemKeepsOwnersOpen(s, a);
    } else if IsSetUp(a) {
      SetUpKeepsOwnersOpen(signup, s, a);
    } else if IsManage(a) {
      ManageKeepsOwnersOpen(s, a);
    } else if IsService(a) {
      ServiceKeepsOwnersOpen(s, a);
    }
  }

  lemma NewcomersOwnersOpen(signup: bool, s: System, a: Action)
    requires Safe(s) && OwnersOpen(s) && a.CommitSetUp?
    ensures OwnersOpen(SetUpStep(signup, s, a))
  {
  }

  lemma SignedInOwnersOpen(signup: bool, s: System, a: Action)
    requires Safe(s) && OwnersOpen(s) && a.CommitSetUpSignedIn?
    ensures OwnersOpen(SetUpStep(signup, s, a)) <==> !StaleSetUp(signup, s, a)
  {
    var s' := SetUpStep(signup, s, a);
    if |s'.log| > |s.log| {
      assert s'.db.members == s.db.members[(a.garden, a.user) := Membership("owner", None)];
      assert s'.db.users == s.db.users;
      assert s'.db.members[(a.garden, a.user)].role == "owner";
    }
  }

  lemma SetUpKeepsOwnersOpen(signup: bool, s: System, a: Action)
    requires Safe(s) && OwnersOpen(s) && IsSetUp(a)
    ensures OwnersOpen(SetUpStep(signup, s, a)) <==> !StaleSetUp(signup, s, a)
  {
    if a.CommitSetUp? {
      NewcomersOwnersOpen(signup, s, a);
    } else {
      SignedInOwnersOpen(signup, s, a);
    }
  }

  lemma ManageKeepsOwnersOpen(s: System, a: Action)
    requires Safe(s) && OwnersOpen(s)
    ensures OwnersOpen(ManageStep(s, a))
  {
    if a.CommitSave? && SawPost(a.garden, a.changes) in s.seen {
      assert ReadHolds(SawPost(a.garden, a.changes), s.creator);
      SaveSparesOwner(s.db.members, a.garden, a.changes, s.creator[a.garden]);
    }
  }

  lemma RedeemKeepsOwnersOpen(s: System, a: Action)
    requires Safe(s) && OwnersOpen(s)
    ensures OwnersOpen(RedeemStep(s, a))
  {
    if IsRedeem(a) && SawInvite(a.id, a.invite) in s.seen {
      assert ReadHolds(SawInvite(a.id, a.invite), s.creator);
    }
  }

  lemma ServiceKeepsOwnersOpen(s: System, a: Action)
    requires Safe(s) && OwnersOpen(s)
    ensures OwnersOpen(ServiceStep(s, a))
  {
  }

  /** The run never takes a stale step. */
  predicate NoneStale(signup: bool, s: System, actions: seq<Action>)
    decreases |actions|
  {
    actions != [] ==> !StaleSetUp(signup, s, actions[0]) && NoneStale(signup, Step(signup, s, actions[0]), actions[1..])
  }

  predicate AlwaysOwnersOpen(signup: bool, s: System, actions: seq<Action>)
    decreases |actions|
  {
    OwnersOpen(s) && (actions != [] ==> AlwaysOwnersOpen(signup, Step(signup, s, actions[0]), actions[1..]))
  }

  /** Every garden's owner is open in every state of a run exactly when no step
      of the run is a stale setup. */
  lemma {:induction false} OwnersOpenExactly(signup: bool, s: System, actions: seq<Action>)
    requires Safe(s) && OwnersOpen(s)
    ensures AlwaysOwnersOpen(signup, s, actions) <==> NoneStale(signup, s, actions)
    decreases |actions|
  {
    if actions != [] {
      StepIsSafe(signup, s, actions[0]);
      OwnersStayOpenUnlessStale(signup, s, actions[0]);
      if !StaleSetUp(signup, s, actions[0]) {
        OwnersOpenExactly(signup, Step(signup, s, actions[0]), actions[1..]);
      }
    }
  }

  // A run that does it: an account deletes its garden, one of its requests signs
  // in, the account closes, and then the request sets a garden up.

  const CLOSING_RUN := [
    CommitSetUp(Plain, 1, 10, true, 0), AuthenticateManager(1, 10, 0), CommitDeleteGarden(1, 10),
    Authenticate(1), CommitClose(1, 0), CommitSetUpSignedIn(Plain, 1, 11, 0)]

  const WITH_GARDEN := System(
    Rows(map[1 := true], {10}, map[(10, 1) := Membership("owner", None)], map[], map[]),
    {}, map[10 := 1], {}, {}, [SetUpPlain(10, 1)])

  const WITHOUT_GARDEN := WITH_GARDEN.(db := Rows(map[1 := true], {}, map[], map[], map[]),
      seen := {Manager(1, 10), SignedIn(1)})

  lemma MakesAGarden()
    ensures Step(true, INSTALL, CLOSING_RUN[0]) == WITH_GARDEN
  {
  }

  const MANAGED := WITH_GARDEN.(seen := {Manager(1, 10)})

  const EMPTIED := MANAGED.(db := Rows(map[1 := true], {}, map[], map[], map[]))

  lemma SignsInAsManager()
    ensures ReadStep(WITH_GARDEN, AuthenticateManager(1, 10, 0)) == MANAGED
  {
  }

  lemma DeletesItsGarden()
    ensures ManageStep(MANAGED, CommitDeleteGarden(1, 10)) == EMPTIED
  {
  }

  lemma SignsIn()
    ensures ReadStep(EMPTIED, Authenticate(1)) == WITHOUT_GARDEN
  {
  }

  lemma LosesItsGarden()
    ensures Step(true, Step(true, Step(true, WITH_GARDEN, CLOSING_RUN[1]), CLOSING_RUN[2]), CLOSING_RUN[3])
            == WITHOUT_GARDEN
  {
    SignsInAsManager();
    DeletesItsGarden();
    SignsIn();
  }

  lemma ClosedOwnerIsReachable()
    ensures !OwnersOpen(Run(true, INSTALL, CLOSING_RUN))
  {
    MakesAGarden();
    LosesItsGarden();
    ClosesUnowned(WITHOUT_GARDEN);
    SetsUpUnchecked(WITHOUT_GARDEN.(db := Rows(map[1 := false], {}, map[], map[], map[])));
    FirstSteps(CLOSING_RUN);
  }

  lemma FirstSteps(a: seq<Action>)
    requires |a| == 6
    ensures Run(true, INSTALL, a)
            == Step(true, Step(true, Step(true, Step(true, Step(true, Step(true, INSTALL, a[0]), a[1]), a[2]), a[3]),
                a[4]), a[5])
  {
    var s := INSTALL;
    assert a[0..] == a && a[6..] == [];
    RunSteps(true, s, a, 0);
    s := Step(true, s, a[0]);
    RunSteps(true, s, a, 1);
    s := Step(true, s, a[1]);
    RunSteps(true, s, a, 2);
    s := Step(true, s, a[2]);
    RunSteps(true, s, a, 3);
    s := Step(true, s, a[3]);
    RunSteps(true, s, a, 4);
    s := Step(true, s, a[4]);
    RunSteps(true, s, a, 5);
  }

  lemma ClosesUnowned(s: System)
    requires s.db == Rows(map[1 := true], {}, map[], map[], map[]) && SignedIn(1) in s.seen
    ensures Step(true, s, CommitClose(1, 0)) == s.(db := Rows(map[1 := false], {}, map[], map[], map[]))
  {
    assert OnlyOwnerOf(s.db, 1, 0) == {};
    assert s.log + [] == s.log;
  }

  lemma SetsUpUnchecked(s: System)
    requires s.db == Rows(map[1 := false], {}, map[], map[], map[]) && SignedIn(1) in s.seen && 11 !in s.creator
    ensures !OwnersOpen(Step(true, s, CommitSetUpSignedIn(Plain, 1, 11, 0)))
  {
    assert Step(true, s, CommitSetUpSignedIn(Plain, 1, 11, 0)).db.members[(11, 1)].role == "owner";
  }

  lemma RunSteps(signup: bool, s: System, actions: seq<Action>, i: nat)
    requires i < |actions|
    ensures Run(signup, s, actions[i..]) == Run(signup, Step(signup, s, actions[i]), actions[i + 1..])
  {
    assert actions[i..][1..] == actions[i + 1..];
  }

  // ----- Every link works once -----

  predicate Spends(e: Event, invite: Id) {
    (e.Joined? || e.Accepted? || e.AddedDevice?) && e.invite == invite
  }

  function SpendsOf(log: seq<Event>, invite: Id): (n: nat) {
    if log == [] then 0 else SpendsOf(log[..|log| - 1], invite) + if Spends(log[|log| - 1], invite) then 1 else 0
  }

  function UsesOf(log: seq<Event>, link: Id): (n: nat) {
    if log == [] then 0
    else UsesOf(log[..|log| - 1], link) + if log[|log| - 1].SetUpWithLink? && log[|log| - 1].link == link then 1 else 0
  }

  /** The accounts plain /setup has made. */
  function PlainSetUps(log: seq<Event>): (n: nat) {
    if log == [] then 0 else PlainSetUps(log[..|log| - 1]) + if log[|log| - 1].SetUpPlain? then 1 else 0
  }

  predicate InviteCounted(s: System, i: Id) {
    && (SpendsOf(s.log, i) == 0
       || (SpendsOf(s.log, i) == 1 && i in s.issued && (i in s.db.invites ==> s.db.invites[i].redeemed.Some?)))
    && (i in s.db.invites ==> i in s.issued)
  }

  predicate LinkCounted(s: System, l: Id) {
    && (UsesOf(s.log, l) == 0
       || (UsesOf(s.log, l) == 1 && l in s.printed && (l in s.db.links ==> s.db.links[l].used.Some?)))
    && (l in s.db.links ==> l in s.printed)
  }

  predicate PlainCounted(signup: bool, s: System) {
    !signup ==> PlainSetUps(s.log) == 0 || (PlainSetUps(s.log) == 1 && s.db.users != map[])
  }

  lemma LogGrows(log: seq<Event>, e: Event)
    ensures forall i :: SpendsOf(log + [e], i) == SpendsOf(log, i) + if Spends(e, i) then 1 else 0
    ensures forall l :: UsesOf(log + [e], l) == UsesOf(log, l) + if e.SetUpWithLink? && e.link == l then 1 else 0
    ensures PlainSetUps(log + [e]) == PlainSetUps(log) + if e.SetUpPlain? then 1 else 0
  {
    assert (log + [e])[..|log|] == log;
  }

  /** s' spends the invite `id`, which was never spent, and logs it as e. */
  predicate SpentInvite(s: System, s': System, e: Event, id: Id) {
    && s'.log == s.log + [e] && (e.Joined? || e.Accepted? || e.AddedDevice?) && e.invite == id
    && id in s.db.invites && s.db.invites[id].redeemed.None? && id in s'.db.invites && s'.db.invites[id].redeemed.Some?
    && (forall i :: i in s'.db.invites && i != id ==> i in s.db.invites && s'.db.invites[i] == s.db.invites[i])
    && s'.db.links == s.db.links && s'.issued == s.issued && s'.printed == s.printed
    && (s.db.users != map[] ==> s'.db.users != map[])
  }

  lemma RedeemSpends(s: System, a: Action)
    ensures var s' := RedeemStep(s, a);
            s' == s || (IsRedeem(a) && |s'.log| == |s.log| + 1 && SpentInvite(s, s', s'.log[|s.log|], a.id))
  {
  }

  lemma SpentIsCounted(signup: bool, s: System, s': System, e: Event, id: Id, i: Id, l: Id)
    requires SpentInvite(s, s', e, id) && InviteCounted(s, i) && LinkCounted(s, l) && PlainCounted(signup, s)
    ensures InviteCounted(s', i) && LinkCounted(s', l) && PlainCounted(signup, s')
  {
    LogGrows(s.log, e);
  }

  lemma RedeemIsCounted(signup: bool, s: System, a: Action, i: Id, l: Id)
    requires InviteCounted(s, i) && LinkCounted(s, l) && PlainCounted(signup, s)
    ensures var s' := RedeemStep(s, a); InviteCounted(s', i) && LinkCounted(s', l) && PlainCounted(signup, s')
  {
    var s' := RedeemStep(s, a);
    RedeemSpends(s, a);
    if s' != s {
      SpentIsCounted(signup, s, s', s'.log[|s.log|], a.id, i, l);
    }
  }

  /** s' has a new garden, made with a link that was never used, by somebody
      signed in, or as the first account unless sign-up is on. */
  predicate SetUpOnce(signup: bool, s: System, s': System, e: Event) {
    && s'.log == s.log + [e] && (e.SetUpWithLink? || e.SetUpPlain? || e.SetUpSignedInPlain?)
    && s'.db.invites == s.db.invites && s'.issued == s.issued && s'.printed == s.printed && s'.db.users != map[]
    && (e.SetUpWithLink? ==>
          && e.link in s.db.links && s.db.links[e.link].used.None? && e.link in s'.db.links
             && s'.db.links[e.link].used.Some?
          && forall l :: l in s'.db.links && l != e.link ==> l in s.db.links && s'.db.links[l] == s.db.links[l])
    && (!e.SetUpWithLink? ==> s'.db.links == s.db.links)
    && (e.SetUpPlain? ==> signup || s.db.users == map[])
  }

  lemma SetUpMakesOne(signup: bool, s: System, a: Action)
    ensures var s' := SetUpStep(signup, s, a);
            s' == s || (|s'.log| == |s.log| + 1 && SetUpOnce(signup, s, s', s'.log[|s.log|]))
  {
    if IsSetUp(a) {
      assert forall db: Rows :: a.user in db.users ==> db.users != map[];
    }
  }

  lemma SetUpOnceIsCounted(signup: bool, s: System, s': System, e: Event, i: Id, l: Id)
    requires SetUpOnce(signup, s, s', e) && InviteCounted(s, i) && LinkCounted(s, l) && PlainCounted(signup, s)
    ensures InviteCounted(s', i) && LinkCounted(s', l) && PlainCounted(signup, s')
  {
    LogGrows(s.log, e);
  }

  lemma SetUpIsCounted(signup: bool, s: System, a: Action, i: Id, l: Id)
    requires InviteCounted(s, i) && LinkCounted(s, l) && PlainCounted(signup, s)
    ensures var s' := SetUpStep(signup, s, a); InviteCounted(s', i) && LinkCounted(s', l) && PlainCounted(signup, s')
  {
    var s' := SetUpStep(signup, s, a);
    SetUpMakesOne(signup, s, a);
    if s' != s {
      SetUpOnceIsCounted(signup, s, s', s'.log[|s.log|], i, l);
    }
  }

  lemma ManageIsCounted(signup: bool, s: System, a: Action, i: Id, l: Id)
    requires InviteCounted(s, i) && LinkCounted(s, l) && PlainCounted(signup, s)
    ensures var s' := ManageStep(s, a); InviteCounted(s', i) && LinkCounted(s', l) && PlainCounted(signup, s')
  {
    assert s.log + [] == s.log;
  }

  lemma ServiceIsCounted(signup: bool, s: System, a: Action, i: Id, l: Id)
    requires InviteCounted(s, i) && LinkCounted(s, l) && PlainCounted(signup, s)
    ensures var s' := ServiceStep(s, a); InviteCounted(s', i) && LinkCounted(s', l) && PlainCounted(signup, s')
  {
    assert s.log + [] == s.log;
  }

  lemma StepIsCounted(signup: bool, s: System, a: Action, i: Id, l: Id)
    requires InviteCounted(s, i) && LinkCounted(s, l) && PlainCounted(signup, s)
    ensures var s' := Step(signup, s, a); InviteCounted(s', i) && LinkCounted(s', l) && PlainCounted(signup, s')
  {
    if IsRedeem(a) {
      RedeemIsCounted(signup, s, a, i, l);
    } else if IsSetUp(a) {
      SetUpIsCounted(signup, s, a, i, l);
    } else if IsManage(a) {
      ManageIsCounted(signup, s, a, i, l);
    } else if IsService(a) {
      ServiceIsCounted(signup, s, a, i, l);
    }
  }

  lemma {:induction false} RunIsCounted(signup: bool, s: System, actions: seq<Action>, i: Id, l: Id)
    requires InviteCounted(s, i) && LinkCounted(s, l) && PlainCounted(signup, s)
    ensures var s' := Run(signup, s, actions); InviteCounted(s', i) && LinkCounted(s', l) && PlainCounted(signup, s')
    decreases |actions|
  {
    if actions != [] {
      StepIsCounted(signup, s, actions[0], i, l);
      RunIsCounted(signup, Step(signup, s, actions[0]), actions[1..], i, l);
    }
  }

  /** In every interleaving, each invite and each setup link is spent by at most
      one committed transaction, even after a sweep has deleted its row, and
      with sign-up off plain /setup makes at most one account ever. */
  lemma LinksWorkOnce(signup: bool, actions: seq<Action>, invite: Id, link: Id)
    ensures SpendsOf(Run(signup, INSTALL, actions).log, invite) <= 1
    ensures UsesOf(Run(signup, INSTALL, actions).log, link) <= 1
    ensures !signup ==> PlainSetUps(Run(signup, INSTALL, actions).log) <= 1
  {
    RunIsCounted(signup, INSTALL, actions, invite, link);
  }

  /** What a committed spend writes: a join invite one membership, the one it
      describes, and a sign-in link none. A step that spends nothing leaves
      every invite's redemption as it was. */
  lemma SpendWritesOneMembership(signup: bool, s: System, a: Action)
    ensures var s' := Step(signup, s, a);
            && (|s'.log| == |s.log| || |s'.log| == |s.log| + 1)
            && (|s'.log| == |s.log| ==>
               forall i :: i in s.db.invites && i in s'.db.invites && i !in s'.issued - s.issued ==>
                                          s'.db.invites[i].redeemed == s.db.invites[i].redeemed)
            && (|s'.log| > |s.log| && (s'.log[|s.log|].Joined? || s'.log[|s.log|].Accepted?) ==>
                  var e := s'.log[|s.log|];
                  s'.db.members == s.db.members[(e.garden, e.user) := Membership(a.invite.role, a.invite.memberEnds)])
            && (|s'.log| > |s.log| && s'.log[|s.log|].AddedDevice? ==>
               s'.db.members == s.db.members && s'.db.users == s.db.users)
  {
    assert s.log + [] == s.log;
  }
}
