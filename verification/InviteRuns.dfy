/** From making a link to spending it: over every interleaving, exactly which
    invites and setup links work. */
module InviteRuns {
  import opened Options
  import opened Gardens
  import opened GardenRuns

  // ----- What every reachable state keeps -----

  predicate ReadIsBacked(s: System, r: Read) {
    && (r.SawInvite? ==> r.id in s.issued)
    && (r.SignedIn? || r.SawExisting? ==> r.user in s.db.users)
  }

  /** Invites are of gardens there are, under ids that were issued, and reads are of
      accounts and invites that were made. */
  predicate Backed(s: System) {
    && (forall i :: i in s.db.invites ==> i in s.issued && s.db.invites[i].garden in s.db.gardens)
    && (forall l :: l in s.db.links ==> l in s.printed)
    && (forall r :: r in s.seen ==> ReadIsBacked(s, r))
  }

  lemma RedeemIsBacked(s: System, a: Action)
    requires Backed(s)
    ensures Backed(RedeemStep(s, a))
  {
  }

  lemma SetUpIsBacked(signup: bool, s: System, a: Action)
    requires Backed(s)
    ensures Backed(SetUpStep(signup, s, a))
  {
  }

  lemma ManageIsBacked(s: System, a: Action)
    requires Backed(s)
    ensures Backed(ManageStep(s, a))
  {
  }

  lemma ServiceIsBacked(s: System, a: Action)
    requires Backed(s)
    ensures Backed(ServiceStep(s, a))
  {
  }

  lemma ReadIsBackedStep(s: System, a: Action)
    requires Backed(s)
    ensures Backed(ReadStep(s, a))
  {
  }

  lemma StepIsBacked(signup: bool, s: System, a: Action)
    requires Backed(s)
    ensures Backed(Step(signup, s, a))
  {
    RedeemIsBacked(s, a);
    SetUpIsBacked(signup, s, a);
    ManageIsBacked(s, a);
    ServiceIsBacked(s, a);
    ReadIsBackedStep(s, a);
  }

  lemma {:induction false} RunIsBacked(signup: bool, s: System, actions: seq<Action>)
    requires Backed(s)
    ensures Backed(Run(signup, s, actions))
    decreases |actions|
  {
    if actions != [] {
      StepIsBacked(signup, s, actions[0]);
      RunIsBacked(signup, Step(signup, s, actions[0]), actions[1..]);
    }
  }

  // ----- An invite stays until it is taken -----

  /** The step commits a transaction that spends the invite. */
  predicate SpendsNow(signup: bool, s: System, a: Action, id: Id) {
    var s' := Step(signup, s, a);
    |s'.log| > |s.log| && Spends(s'.log[|s.log|], id)
  }

  /** The step spends the invite, revokes it, deletes its garden, or, for a sign-in
      link, closes its account, replaces it or sweeps it. */
  predicate Takes(signup: bool, s: System, a: Action, id: Id, invite: Invite) {
    match a
    case CommitRevoke(user, garden, i) => i == id && garden == invite.garden && Manager(user, garden) in s.seen
    case CommitDeleteGarden(user, garden) => garden == invite.garden && Manager(user, garden) in s.seen
    case CommitClose(user, now) =>
      invite.forUser == Some(user) && SignedIn(user) in s.seen && Open(s.db, user) && OnlyOwnerOf(s.db, user, now) == {}
    case CommitSignInLink(i, user, garden, role, _) =>
      && invite.forUser == Some(user) && garden == invite.garden && SawLive(user, garden, role) in s.seen
      && i !in s.issued && garden in s.db.gardens && user in s.db.users
    case RunSweep(before) => invite.forUser.Some? && invite.expires <= before
    case _ => SpendsNow(signup, s, a, id)
  }

  predicate NoneTakes(signup: bool, s: System, actions: seq<Action>, id: Id, invite: Invite)
    decreases |actions|
  {
    actions != [] ==>
      !Takes(signup, s, actions[0], id, invite)
      && NoneTakes(signup, Step(signup, s, actions[0]), actions[1..], id, invite)
  }

  /** The invite is there as it was made, and unredeemed. */
  predicate Stands(s: System, id: Id, invite: Invite) {
    id in s.issued && id in s.db.invites && s.db.invites[id] == invite && invite.redeemed.None?
  }

  predicate Gone(s: System, id: Id) {
    id in s.issued && (id in s.db.invites ==> s.db.invites[id].redeemed.Some?)
  }

  lemma RedeemTakes(s: System, a: Action, id: Id, invite: Invite)
    requires Stands(s, id, invite) && IsRedeem(a)
    ensures var s' := RedeemStep(s, a);
            if |s'.log| > |s.log| && Spends(s'.log[|s.log|], id) then Gone(s', id) else Stands(s', id, invite)
  {
  }

  lemma ManageTakes(s: System, a: Action, id: Id, invite: Invite)
    requires Stands(s, id, invite) && IsManage(a)
    ensures if Takes(false, s, a, id, invite) then Gone(ManageStep(s, a), id) else Stands(ManageStep(s, a), id, invite)
  {
  }

  lemma ServiceTakes(s: System, a: Action, id: Id, invite: Invite)
    requires Stands(s, id, invite) && IsService(a)
    ensures if Takes(false, s, a, id, invite) then Gone(ServiceStep(s, a), id)
            else Stands(ServiceStep(s, a), id, invite)
  {
  }

  lemma SetUpSpares(signup: bool, s: System, a: Action, id: Id, invite: Invite)
    requires Stands(s, id, invite) && IsSetUp(a)
    ensures Stands(SetUpStep(signup, s, a), id, invite) && !SpendsNow(signup, s, a, id)
  {
  }

  lemma ReadSpares(signup: bool, s: System, a: Action, id: Id, invite: Invite)
    requires Stands(s, id, invite) && !IsRedeem(a) && !IsSetUp(a) && !IsManage(a) && !IsService(a)
    ensures Stands(ReadStep(s, a), id, invite) && !SpendsNow(signup, s, a, id)
  {
  }

  /** A step leaves an invite as it was, or takes it. */
  lemma StepTakes(signup: bool, s: System, a: Action, id: Id, invite: Invite)
    requires Stands(s, id, invite)
    ensures if Takes(signup, s, a, id, invite) then Gone(Step(signup, s, a), id)
            else Stands(Step(signup, s, a), id, invite)
  {
    if IsRedeem(a) {
      RedeemTakes(s, a, id, invite);
    } else if IsSetUp(a) {
      SetUpSpares(signup, s, a, id, invite);
    } else if IsManage(a) {
      ManageTakes(s, a, id, invite);
    } else if IsService(a) {
      ServiceTakes(s, a, id, invite);
    } else {
      ReadSpares(signup, s, a, id, invite);
    }
  }

  lemma RedeemStaysGone(s: System, a: Action, id: Id)
    requires Gone(s, id)
    ensures Gone(RedeemStep(s, a), id)
  {
  }

  lemma SetUpStaysGone(signup: bool, s: System, a: Action, id: Id)
    requires Gone(s, id)
    ensures Gone(SetUpStep(signup, s, a), id)
  {
  }

  lemma ManageStaysGone(s: System, a: Action, id: Id)
    requires Gone(s, id)
    ensures Gone(ManageStep(s, a), id)
  {
  }

  lemma ServiceStaysGone(s: System, a: Action, id: Id)
    requires Gone(s, id)
    ensures Gone(ServiceStep(s, a), id)
  {
  }

  lemma ReadStaysGone(s: System, a: Action, id: Id)
    requires Gone(s, id)
    ensures Gone(ReadStep(s, a), id)
  {
  }

  lemma StaysGone(signup: bool, s: System, a: Action, id: Id)
    requires Gone(s, id)
    ensures Gone(Step(signup, s, a), id)
  {
    RedeemStaysGone(s, a, id);
    SetUpStaysGone(signup, s, a, id);
    ManageStaysGone(s, a, id);
    ServiceStaysGone(s, a, id);
    ReadStaysGone(s, a, id);
  }

  lemma {:induction false} RunStaysGone(signup: bool, s: System, actions: seq<Action>, id: Id)
    requires Gone(s, id)
    ensures Gone(Run(signup, s, actions), id)
    decreases |actions|
  {
    if actions != [] {
      StaysGone(signup, s, actions[0], id);
      RunStaysGone(signup, Step(signup, s, actions[0]), actions[1..], id);
    }
  }

  /** An invite stands after a run exactly when no step of the run took it, and one
      that was taken never comes back. */
  lemma {:induction false} StandsUntilTaken(signup: bool, s: System, actions: seq<Action>, id: Id, invite: Invite)
    requires Stands(s, id, invite)
    ensures if NoneTakes(signup, s, actions, id, invite) then Stands(Run(signup, s, actions), id, invite)
            else Gone(Run(signup, s, actions), id)
    decreases |actions|
  {
    if actions != [] {
      var s' := Step(signup, s, actions[0]);
      StepTakes(signup, s, actions[0], id, invite);
      if Takes(signup, s, actions[0], id, invite) {
        RunStaysGone(signup, s', actions[1..], id);
      } else {
        StandsUntilTaken(signup, s', actions[1..], id, invite);
      }
    }
  }

  // ----- Reading it -----

  /** The page opens an invite that stands: it is in date, and so is the membership it
      grants or, for a sign-in link, the membership of its account. */
  predicate Opens(db: Rows, invite: Invite, at: int) {
    && at < invite.expires
    && match invite.forUser
       case None => invite.memberEnds.Some? ==> at < invite.memberEnds.value
       case Some(user) =>
         && (invite.garden, user) in db.members
         && var ends := db.members[(invite.garden, user)].ends;
            ends.Some? ==> at < ends.value
  }

  /** Some step of the run opens the invite's page in time. */
  predicate Read(signup: bool, s: System, actions: seq<Action>, id: Id, invite: Invite)
    decreases |actions|
  {
    actions != []
    && ((actions[0].OpenInvite? && actions[0].id == id && Opens(s.db, invite, actions[0].now))
        || Read(signup, Step(signup, s, actions[0]), actions[1..], id, invite))
  }

  lemma StepReads(signup: bool, s: System, a: Action, id: Id, invite: Invite)
    requires Stands(s, id, invite)
    ensures SawInvite(id, invite) in Step(signup, s, a).seen <==>
            || SawInvite(id, invite) in s.seen
            || (a.OpenInvite? && a.id == id && Opens(s.db, invite, a.now))
  {
  }

  /** While it stands, a request has read an invite exactly when one opened it in time. */
  lemma {:induction false} ReadExactly(signup: bool, s: System, actions: seq<Action>, id: Id, invite: Invite)
    requires Stands(s, id, invite) && NoneTakes(signup, s, actions, id, invite)
    ensures SawInvite(id, invite) in Run(signup, s, actions).seen <==>
            SawInvite(id, invite) in s.seen || Read(signup, s, actions, id, invite)
    decreases |actions|
  {
    if actions != [] {
      StepReads(signup, s, actions[0], id, invite);
      StepTakes(signup, s, actions[0], id, invite);
      ReadExactly(signup, Step(signup, s, actions[0]), actions[1..], id, invite);
    }
  }

  // ----- Spending it -----

  ghost predicate Reachable(signup: bool, s: System) {
    exists actions :: s == Run(signup, INSTALL, actions)
  }

  lemma ReachableHolds(signup: bool, s: System, id: Id, link: Id)
    requires Reachable(signup, s)
    ensures Safe(s) && Backed(s) && InviteCounted(s, id) && LinkCounted(s, link)
  {
    var actions :| s == Run(signup, INSTALL, actions);
    RunIsSafe(signup, INSTALL, actions);
    RunIsBacked(signup, INSTALL, actions);
    RunIsCounted(signup, INSTALL, actions, id, link);
  }

  lemma {:induction false} RunSplits(signup: bool, s: System, a: seq<Action>, b: seq<Action>)
    ensures Run(signup, s, a + b) == Run(signup, Run(signup, s, a), b)
    decreases |a|
  {
    if a == [] {
      assert a + b == b;
    } else {
      assert (a + b)[1..] == a[1..] + b;
      RunSplits(signup, Step(signup, s, a[0]), a[1..], b);
    }
  }

  lemma ReachesOn(signup: bool, s: System, actions: seq<Action>)
    requires Reachable(signup, s)
    ensures Reachable(signup, Run(signup, s, actions))
  {
    var before :| s == Run(signup, INSTALL, before);
    RunSplits(signup, INSTALL, before, actions);
  }

  lemma ReachesNext(signup: bool, s: System, a: Action)
    requires Reachable(signup, s)
    ensures Reachable(signup, Step(signup, s, a))
  {
    ReachesOn(signup, s, [a]);
    assert [a][1..] == [];
    assert Run(signup, s, [a]) == Step(signup, s, a);
  }

  /** An invite stands that nobody has opened yet. */
  ghost predicate JustMade(signup: bool, s: System, id: Id, invite: Invite) {
    Reachable(signup, s) && Stands(s, id, invite) && forall r :: r in s.seen && r.SawInvite? ==> r.id != id
  }

  /** An owner of a garden makes an invite exactly when the role is on offer and the
      garden is still there. */
  lemma InviteIsMade(
    signup: bool, s: System, owner: Id, id: Id, garden: Id, role: Role, expires: int, memberEnds: Option<int>)
    requires Reachable(signup, s) && id !in s.issued
    ensures var s' := Step(signup, s, CommitInvite(owner, id, garden, role, expires, memberEnds));
            if Manager(owner, garden) in s.seen && garden in s.db.gardens && role in OFFERED_ROLES
            then JustMade(signup, s', id, Invite(garden, role, None, expires, None, memberEnds))
            else id !in s'.db.invites
  {
    ReachableHolds(signup, s, id, 0);
    ReachesNext(signup, s, CommitInvite(owner, id, garden, role, expires, memberEnds));
    NeverRead(s, id);
  }

  /** A live member makes a sign-in link exactly while the garden and the account have
      rows. */
  lemma SignInLinkIsMade(signup: bool, s: System, id: Id, user: Id, garden: Id, role: Role, expires: int)
    requires Reachable(signup, s) && id !in s.issued
    ensures var s' := Step(signup, s, CommitSignInLink(id, user, garden, role, expires));
            if SawLive(user, garden, role) in s.seen && garden in s.db.gardens && user in s.db.users
            then JustMade(signup, s', id, Invite(garden, role, Some(user), expires, None, None))
            else id !in s'.db.invites
  {
    ReachableHolds(signup, s, id, 0);
    ReachesNext(signup, s, CommitSignInLink(id, user, garden, role, expires));
    NeverRead(s, id);
  }

  /** Signing in as a manager of a garden: exactly its owner can, with an open account. */
  lemma ManagesExactly(signup: bool, s: System, user: Id, garden: Id, at: int)
    requires Reachable(signup, s) && Manager(user, garden) !in s.seen
    ensures var s' := Step(signup, s, AuthenticateManager(user, garden, at));
            s' == if Open(s.db, user) && OwnerOf(s.db, garden, user) then s.(seen := s.seen + {Manager(user, garden)})
                  else s
  {
    ReachableHolds(signup, s, 0, 0);
  }

  /** Signing in and then making an invite works exactly for the owner of the garden,
      with an open account and for a role on offer. */
  lemma InvitesExactly(
    signup: bool, s: System, user: Id, garden: Id, at: int, id: Id, role: Role, expires: int, memberEnds: Option<int>)
    requires Reachable(signup, s) && Manager(user, garden) !in s.seen && id !in s.issued
    ensures var s1 := Step(signup, s, AuthenticateManager(user, garden, at));
            var s2 := Step(signup, s1, CommitInvite(user, id, garden, role, expires, memberEnds));
            if Open(s.db, user) && OwnerOf(s.db, garden, user) && role in OFFERED_ROLES
            then JustMade(signup, s2, id, Invite(garden, role, None, expires, None, memberEnds))
            else id !in s2.db.invites
  {
    ReachableHolds(signup, s, id, 0);
    ManagesExactly(signup, s, user, garden, at);
    ReachesNext(signup, s, AuthenticateManager(user, garden, at));
    var s1 := Step(signup, s, AuthenticateManager(user, garden, at));
    assert s1.issued == s.issued;
    InviteIsMade(signup, s1, user, id, garden, role, expires, memberEnds);
  }

  /** Looking an account up and then making it a sign-in link works exactly when the
      account is open and has a live membership of that role. */
  lemma LinksExactly(
    signup: bool, s: System, user: Id, garden: Id, role: Role, at: int, id: Id, expires: int)
    requires Reachable(signup, s) && SawLive(user, garden, role) !in s.seen && id !in s.issued
    ensures var s1 := Step(signup, s, LookUpLive(user, garden, at));
            var s2 := Step(signup, s1, CommitSignInLink(id, user, garden, role, expires));
            if Open(s.db, user) && (garden, user) in s.db.members && s.db.members[(garden, user)].role == role
               && !Ended(s.db.members[(garden, user)], at)
            then JustMade(signup, s2, id, Invite(garden, role, Some(user), expires, None, None))
            else id !in s2.db.invites
  {
    ReachableHolds(signup, s, id, 0);
    LooksUpLive(signup, s, user, garden, role, at);
    ReachesNext(signup, s, LookUpLive(user, garden, at));
    SignInLinkIsMade(signup, Step(signup, s, LookUpLive(user, garden, at)), id, user, garden, role, expires);
  }

  lemma LooksUpLive(signup: bool, s: System, user: Id, garden: Id, role: Role, at: int)
    requires SawLive(user, garden, role) !in s.seen
    ensures var s' := Step(signup, s, LookUpLive(user, garden, at));
            && s'.db == s.db && s'.issued == s.issued
            && (SawLive(user, garden, role) in s'.seen <==>
                && Open(s.db, user) && (garden, user) in s.db.members && s.db.members[(garden, user)].role == role
                && !Ended(s.db.members[(garden, user)], at))
  {
  }

  lemma NeverRead(s: System, id: Id)
    requires Backed(s) && id !in s.issued
    ensures forall r :: r in s.seen && r.SawInvite? ==> r.id != id
  {
    forall r | r in s.seen && r.SawInvite?
      ensures r.id != id
    {
      assert ReadIsBacked(s, r);
    }
  }

  /** The step commits and logs the event. */
  predicate Logs(signup: bool, s: System, a: Action, e: Event) {
    Step(signup, s, a).log == s.log + [e]
  }

  /** After the run the invite was read in time and nobody has taken it. */
  predicate Usable(signup: bool, s: System, actions: seq<Action>, id: Id, invite: Invite) {
    NoneTakes(signup, s, actions, id, invite) && Read(signup, s, actions, id, invite)
  }

  lemma UsableExactly(signup: bool, s: System, actions: seq<Action>, id: Id, invite: Invite)
    requires JustMade(signup, s, id, invite)
    ensures var s' := Run(signup, s, actions);
            && Safe(s') && Backed(s')
            && (Usable(signup, s, actions, id, invite) <==> Stands(s', id, invite) && SawInvite(id, invite) in s'.seen)
            && (!Stands(s', id, invite) ==> Gone(s', id))
            && (Stands(s', id, invite) ==> SpendsOf(s'.log, id) == 0)
  {
    ReachesOn(signup, s, actions);
    ReachableHolds(signup, Run(signup, s, actions), id, 0);
    StandsUntilTaken(signup, s, actions, id, invite);
    if NoneTakes(signup, s, actions, id, invite) {
      ReadExactly(signup, s, actions, id, invite);
    }
  }

  lemma SpentOnce(log: seq<Event>, e: Event, id: Id)
    requires Spends(e, id) && SpendsOf(log, id) == 0
    ensures SpendsOf(log + [e], id) == 1
  {
    LogGrows(log, e);
  }

  lemma EventIsNew(log: seq<Event>, e: Event)
    ensures log + [e] != log
  {
    assert |log + [e]| == |log| + 1;
  }

  lemma JoinCommits(s: System, id: Id, invite: Invite, user: Id, answered: bool, now: int)
    requires Safe(s) && Backed(s) && (Stands(s, id, invite) || Gone(s, id)) && invite.forUser.None?
    ensures var s' := RedeemStep(s, CommitJoin(id, invite, user, answered, now));
            if Stands(s, id, invite) && SawInvite(id, invite) in s.seen && now < invite.expires && answered
               && user !in s.db.users
            then && s'.log == s.log + [Joined(id, invite.garden, user)]
                 && s'.db.members == s.db.members[(invite.garden, user) := Membership(invite.role, invite.memberEnds)]
            else s' == s
  {
  }

  lemma AcceptCommits(s: System, id: Id, invite: Invite, user: Id, existing: bool, now: int)
    requires Safe(s) && Backed(s) && (Stands(s, id, invite) || Gone(s, id)) && invite.forUser.None?
    ensures var s' := RedeemStep(s, CommitAccept(id, invite, user, existing, now));
            if Stands(s, id, invite) && SawInvite(id, invite) in s.seen && now < invite.expires
               && SawExisting(user, invite.garden, existing) in s.seen
               && (existing <==> (invite.garden, user) in s.db.members)
            then && s'.log == s.log + [Accepted(id, invite.garden, user)]
                 && s'.db.members == s.db.members[(invite.garden, user) := Membership(invite.role, invite.memberEnds)]
            else s' == s
  {
    if SawExisting(user, invite.garden, existing) in s.seen {
      assert ReadIsBacked(s, SawExisting(user, invite.garden, existing));
    }
  }

  /** A newcomer joins on an invite exactly when it was opened in time, nobody took it
      before, it is in date, the device answered and the account is new. The invite is
      then spent once, on the membership it describes. */
  lemma JoinsExactly(
    signup: bool, s: System, actions: seq<Action>, id: Id, invite: Invite, user: Id, answered: bool, now: int)
    requires JustMade(signup, s, id, invite) && invite.forUser.None?
    ensures var here, join := Run(signup, s, actions), CommitJoin(id, invite, user, answered, now);
            var joined := Logs(signup, here, join, Joined(id, invite.garden, user));
            && (joined <==>
                Usable(signup, s, actions, id, invite) && now < invite.expires && answered && user !in here.db.users)
            && (joined ==>
                && SpendsOf(Step(signup, here, join).log, id) == 1
                && Step(signup, here, join).db.members
                   == here.db.members[(invite.garden, user) := Membership(invite.role, invite.memberEnds)])
            && (!joined ==> Step(signup, here, join) == here)
  {
    var here := Run(signup, s, actions);
    UsableExactly(signup, s, actions, id, invite);
    EventIsNew(here.log, Joined(id, invite.garden, user));
    JoinCommits(here, id, invite, user, answered, now);
    if Stands(here, id, invite) {
      SpentOnce(here.log, Joined(id, invite.garden, user), id);
    }
  }

  /** Somebody with an account accepts it exactly when it was opened in time, nobody
      took it before, it is in date, and the membership looked up is still as it was. */
  lemma AcceptsExactly(
    signup: bool, s: System, actions: seq<Action>, id: Id, invite: Invite, user: Id, existing: bool, now: int)
    requires JustMade(signup, s, id, invite) && invite.forUser.None?
    ensures var here, accept := Run(signup, s, actions), CommitAccept(id, invite, user, existing, now);
            var accepted := Logs(signup, here, accept, Accepted(id, invite.garden, user));
            && (accepted <==>
                && Usable(signup, s, actions, id, invite) && now < invite.expires
                && SawExisting(user, invite.garden, existing) in here.seen
                && (existing <==> (invite.garden, user) in here.db.members))
            && (accepted ==>
                && SpendsOf(Step(signup, here, accept).log, id) == 1
                && Step(signup, here, accept).db.members
                   == here.db.members[(invite.garden, user) := Membership(invite.role, invite.memberEnds)])
            && (!accepted ==> Step(signup, here, accept) == here)
  {
    var here := Run(signup, s, actions);
    UsableExactly(signup, s, actions, id, invite);
    EventIsNew(here.log, Accepted(id, invite.garden, user));
    AcceptCommits(here, id, invite, user, existing, now);
    if Stands(here, id, invite) {
      SpentOnce(here.log, Accepted(id, invite.garden, user), id);
    }
  }

  /** What a signed-in visitor reads before accepting: the account, and whether there
      is a membership that is over. */
  function LooksUp(s: System, user: Id, garden: Id, at: int): System {
    ReadStep(ReadStep(s, Authenticate(user)), LookUpExisting(user, garden, at))
  }

  lemma LooksUpExactly(s: System, user: Id, garden: Id, at: int)
    requires SignedIn(user) !in s.seen && forall x :: SawExisting(user, garden, x) !in s.seen
    ensures var s', held := LooksUp(s, user, garden, at), (garden, user) in s.db.members;
            && s'.(seen := s.seen) == s && s.seen <= s'.seen
            && SawExisting(user, garden, !held) !in s'.seen
            && (SawExisting(user, garden, held) in s'.seen <==>
                Open(s.db, user) && (held ==> Ended(s.db.members[(garden, user)], at)))
  {
  }

  /** s' is s with more read, but of no invite. */
  predicate OnlyLookedUp(s: System, s': System) {
    && Safe(s') && Backed(s') && s'.(seen := s.seen) == s
    && (forall r :: r in s'.seen && r.SawInvite? ==> r in s.seen) && s.seen <= s'.seen
  }

  lemma ReadKeeps(s: System, a: Action)
    requires Safe(s) && Backed(s) && (a.Authenticate? || a.LookUpExisting?)
    ensures OnlyLookedUp(s, ReadStep(s, a))
  {
    ReadIsSafe(s, a);
    ReadIsBackedStep(s, a);
  }

  lemma LooksUpOnly(s: System, user: Id, garden: Id, at: int)
    requires Safe(s) && Backed(s)
    ensures OnlyLookedUp(s, LooksUp(s, user, garden, at))
  {
    ReadKeeps(s, Authenticate(user));
    ReadKeeps(ReadStep(s, Authenticate(user)), LookUpExisting(user, garden, at));
  }

  /** A visitor who signs in, is looked up and accepts, with nothing in between, gets
      the membership exactly when the account is open and no membership of theirs is
      live, the invite was opened in time, nobody took it and it is in date. */
  lemma VisitorAcceptsExactly(
    signup: bool, s: System, actions: seq<Action>, id: Id, invite: Invite, user: Id, at: int, now: int)
    requires JustMade(signup, s, id, invite) && invite.forUser.None?
    ensures var here := Run(signup, s, actions);
            SignedIn(user) !in here.seen && (forall x :: SawExisting(user, invite.garden, x) !in here.seen) ==>
              var held := (invite.garden, user) in here.db.members;
              var ready := LooksUp(here, user, invite.garden, at);
              RedeemStep(ready, CommitAccept(id, invite, user, held, now)).log
              == if Usable(signup, s, actions, id, invite) && now < invite.expires && Open(here.db, user)
                    && (held ==> Ended(here.db.members[(invite.garden, user)], at))
                 then here.log + [Accepted(id, invite.garden, user)] else here.log
  {
    var here := Run(signup, s, actions);
    UsableExactly(signup, s, actions, id, invite);
    if SignedIn(user) !in here.seen && forall x :: SawExisting(user, invite.garden, x) !in here.seen {
      var held := (invite.garden, user) in here.db.members;
      LooksUpExactly(here, user, invite.garden, at);
      LooksUpOnly(here, user, invite.garden, at);
      AcceptCommits(LooksUp(here, user, invite.garden, at), id, invite, user, held, now);
    }
  }

  /** A sign-in link adds a device exactly when it was opened in time, nobody took it
      before, it is in date and the device answered. */
  lemma AddsDeviceExactly(
    signup: bool, s: System, actions: seq<Action>, id: Id, invite: Invite, answered: bool, now: int)
    requires JustMade(signup, s, id, invite) && invite.forUser.Some?
    ensures var here, add := Run(signup, s, actions), CommitAddDevice(id, invite, answered, now);
            var added := Logs(signup, here, add, AddedDevice(id));
            && (added <==> Usable(signup, s, actions, id, invite) && now < invite.expires && answered)
            && (added ==> SpendsOf(Step(signup, here, add).log, id) == 1
                          && Step(signup, here, add).db.members == here.db.members)
            && (!added ==> Step(signup, here, add) == here)
  {
    var here := Run(signup, s, actions);
    UsableExactly(signup, s, actions, id, invite);
    EventIsNew(here.log, AddedDevice(id));
    if Stands(here, id, invite) {
      SpentOnce(here.log, AddedDevice(id), id);
    }
  }

  // ----- Setup links -----

  /** The step uses the link up, or is a sweep that finds it expired. */
  predicate TakesLink(signup: bool, s: System, a: Action, link: Id, expires: int) {
    var s' := Step(signup, s, a);
    || (a.RunSweep? && expires <= a.before)
    || (|s'.log| > |s.log| && s'.log[|s.log|].SetUpWithLink? && s'.log[|s.log|].link == link)
  }

  predicate NoneTakesLink(signup: bool, s: System, actions: seq<Action>, link: Id, expires: int)
    decreases |actions|
  {
    actions != [] ==>
      !TakesLink(signup, s, actions[0], link, expires)
      && NoneTakesLink(signup, Step(signup, s, actions[0]), actions[1..], link, expires)
  }

  predicate LinkStands(s: System, link: Id, expires: int) {
    link in s.printed && link in s.db.links && s.db.links[link] == SetupLink(expires, None)
  }

  predicate LinkGone(s: System, link: Id) {
    link in s.printed && (link in s.db.links ==> s.db.links[link].used.Some?)
  }

  /** No link is printed, used or swept. */
  predicate SparesLinks(s: System, s': System) {
    && s'.db.links == s.db.links && s'.printed == s.printed
    && (|s'.log| > |s.log| ==> !s'.log[|s.log|].SetUpWithLink?)
  }

  lemma RedeemSparesLinks(s: System, a: Action)
    ensures SparesLinks(s, RedeemStep(s, a))
  {
  }

  lemma ManageSparesLinks(s: System, a: Action)
    ensures SparesLinks(s, ManageStep(s, a))
  {
  }

  lemma ReadSparesLinks(s: System, a: Action)
    ensures SparesLinks(s, ReadStep(s, a))
  {
  }

  /** A setup touches the link it logs, and no other. */
  lemma SetUpUsesLink(signup: bool, s: System, a: Action, link: Id)
    ensures var s' := SetUpStep(signup, s, a);
            && s'.printed == s.printed
            && if |s'.log| > |s.log| && s'.log[|s.log|].SetUpWithLink? && s'.log[|s.log|].link == link
               then link in s'.db.links && s'.db.links[link].used.Some?
               else (link in s'.db.links <==> link in s.db.links)
                    && (link in s.db.links ==> s'.db.links[link] == s.db.links[link])
  {
  }

  /** What the service does to a link that was printed: a sweep may delete it. */
  lemma ServiceSweepsLink(s: System, a: Action, link: Id)
    requires link in s.printed
    ensures var s' := ServiceStep(s, a);
            && link in s'.printed && |s'.log| == |s.log|
            && (link in s'.db.links <==>
                link in s.db.links
                && !(a.RunSweep? && if s.db.links[link].used.Some? then s.db.links[link].used.value <= a.before
                                    else s.db.links[link].expires <= a.before))
            && (link in s'.db.links ==> s'.db.links[link] == s.db.links[link])
  {
  }

  /** A link that was printed stays as it is, but for the setup that uses it and the
      sweep that finds it expired or used. */
  lemma LinkIsLeft(signup: bool, s: System, a: Action, link: Id)
    requires link in s.printed
    ensures var s' := Step(signup, s, a);
            && link in s'.printed
            && if |s'.log| > |s.log| && s'.log[|s.log|].SetUpWithLink? && s'.log[|s.log|].link == link
               then !a.RunSweep? && link in s'.db.links && s'.db.links[link].used.Some?
               else
                 && (link in s'.db.links <==>
                     link in s.db.links
                     && !(a.RunSweep? && if s.db.links[link].used.Some? then s.db.links[link].used.value <= a.before
                                         else s.db.links[link].expires <= a.before))
                 && (link in s'.db.links ==> s'.db.links[link] == s.db.links[link])
  {
    if IsSetUp(a) {
      SetUpUsesLink(signup, s, a, link);
    } else if IsService(a) {
      ServiceSweepsLink(s, a, link);
    } else if IsRedeem(a) {
      RedeemSparesLinks(s, a);
    } else if IsManage(a) {
      ManageSparesLinks(s, a);
    } else {
      ReadSparesLinks(s, a);
    }
  }

  lemma StepTakesLink(signup: bool, s: System, a: Action, link: Id, expires: int)
    requires LinkStands(s, link, expires)
    ensures if TakesLink(signup, s, a, link, expires) then LinkGone(Step(signup, s, a), link)
            else LinkStands(Step(signup, s, a), link, expires)
  {
    LinkIsLeft(signup, s, a, link);
  }

  lemma LinkStaysGone(signup: bool, s: System, a: Action, link: Id)
    requires LinkGone(s, link)
    ensures LinkGone(Step(signup, s, a), link)
  {
    LinkIsLeft(signup, s, a, link);
  }

  lemma {:induction false} RunLinkStaysGone(signup: bool, s: System, actions: seq<Action>, link: Id)
    requires LinkGone(s, link)
    ensures LinkGone(Run(signup, s, actions), link)
    decreases |actions|
  {
    if actions != [] {
      LinkStaysGone(signup, s, actions[0], link);
      RunLinkStaysGone(signup, Step(signup, s, actions[0]), actions[1..], link);
    }
  }

  /** A setup link stands after a run exactly when no step of the run took it. */
  lemma {:induction false} LinkStandsUntilTaken(
    signup: bool, s: System, actions: seq<Action>, link: Id, expires: int)
    requires LinkStands(s, link, expires)
    ensures if NoneTakesLink(signup, s, actions, link, expires) then LinkStands(Run(signup, s, actions), link, expires)
            else LinkGone(Run(signup, s, actions), link)
    decreases |actions|
  {
    if actions != [] {
      var s' := Step(signup, s, actions[0]);
      StepTakesLink(signup, s, actions[0], link, expires);
      if TakesLink(signup, s, actions[0], link, expires) {
        RunLinkStaysGone(signup, s', actions[1..], link);
      } else {
        LinkStandsUntilTaken(signup, s', actions[1..], link, expires);
      }
    }
  }

  /** A garden's id that no garden has had, so nobody has a membership of it. */
  lemma NewGardenIsEmpty(s: System, garden: Id)
    requires Safe(s) && garden !in s.creator
    ensures garden !in s.db.gardens && forall u :: (garden, u) !in s.db.members
  {
  }

  /** Printed, and any steps later, a setup link sets a garden up for a newcomer
      exactly when nobody took it before, it is in date, the device answered and the
      account is new, and for somebody signed in when nobody took it and it is in date. */
  lemma LinkSetsUpExactly(
    signup: bool, s: System, link: Id, expires: int, actions: seq<Action>, user: Id, garden: Id, answered: bool,
        now: int)
    requires Reachable(signup, s) && link !in s.printed
    ensures var s1 := Step(signup, s, PrintSetupLink(link, expires));
            var here := Run(signup, s1, actions);
            var e, usable := SetUpWithLink(link, garden, user), NoneTakesLink(signup, s1, actions, link, expires);
            garden !in here.creator ==>
              && (Logs(signup, here, CommitSetUp(WithLink(link), user, garden, answered, now), e) <==>
                  usable && now < expires && answered && user !in here.db.users)
              && (Logs(signup, here, CommitSetUpSignedIn(WithLink(link), user, garden, now), e) <==>
                  usable && now < expires && SignedIn(user) in here.seen)
  {
    var s1 := Step(signup, s, PrintSetupLink(link, expires));
    var here := Run(signup, s1, actions);
    ReachesNext(signup, s, PrintSetupLink(link, expires));
    LinkStandsUntilTaken(signup, s1, actions, link, expires);
    ReachesOn(signup, s1, actions);
    if garden !in here.creator {
      SetsUpWith(signup, here, link, user, garden, answered, now);
    }
  }

  /** Which setups of a new garden commit. */
  lemma SetsUpWith(signup: bool, s: System, link: Id, user: Id, garden: Id, answered: bool, now: int)
    requires Reachable(signup, s) && garden !in s.creator
    ensures var e, open := SetUpWithLink(link, garden, user), DoorOpen(s.db, WithLink(link), signup, now);
            && (Logs(signup, s, CommitSetUp(WithLink(link), user, garden, answered, now), e) <==>
                open && answered && user !in s.db.users)
            && (Logs(signup, s, CommitSetUpSignedIn(WithLink(link), user, garden, now), e) <==>
                open && SignedIn(user) in s.seen)
  {
    ReachableHolds(signup, s, 0, link);
    NewGardenIsEmpty(s, garden);
    EventIsNew(s.log, SetUpWithLink(link, garden, user));
    if SignedIn(user) in s.seen {
      assert ReadIsBacked(s, SignedIn(user));
    }
  }

  /** Without a link a newcomer sets up exactly when sign-up is on or there is no
      account yet, and somebody signed in exactly when sign-up is on. */
  lemma PlainSetsUpExactly(signup: bool, s: System, user: Id, garden: Id, answered: bool, now: int)
    requires Reachable(signup, s) && garden !in s.creator
    ensures Logs(signup, s, CommitSetUp(Plain, user, garden, answered, now), SetUpPlain(garden, user)) <==>
            (signup || forall u :: u !in s.db.users) && answered && user !in s.db.users
    ensures Logs(signup, s, CommitSetUpSignedIn(Plain, user, garden, now), SetUpSignedInPlain(garden, user)) <==>
            signup && SignedIn(user) in s.seen
  {
    ReachableHolds(signup, s, 0, 0);
    NewGardenIsEmpty(s, garden);
    EventIsNew(s.log, SetUpPlain(garden, user));
    EventIsNew(s.log, SetUpSignedInPlain(garden, user));
    if SignedIn(user) in s.seen {
      assert ReadIsBacked(s, SignedIn(user));
    }
  }
}
