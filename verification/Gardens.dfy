/** Gardens, memberships, invites and setup links as the database holds them,
    and what each transaction that touches them commits. A transaction that
    fails anywhere rolls back, which is None here. */
module Gardens {
  import opened Options

  type Id = nat
  type Role = string

  datatype Membership = Membership(role: Role, ends: Option<int>)

  /** forUser is set on a sign-in link, which adds a device to that account. An
      invite with none is a join invite. */
  datatype Invite = Invite(
    garden: Id, role: Role, forUser: Option<Id>, expires: int, redeemed: Option<int>, memberEnds: Option<int>)

  datatype SetupLink = SetupLink(expires: int, used: Option<int>)

  /** users maps every account ever made to whether it is open. A closed account
      keeps its row. members is keyed by garden and account. */
  datatype Rows = Rows(
    users: map<Id, bool>,
    gardens: set<Id>,
    members: map<(Id, Id), Membership>,
    invites: map<Id, Invite>,
    links: map<Id, SetupLink>)

  const EMPTY := Rows(map[], {}, map[], map[], map[])

  const OFFERED_ROLES: seq<Role> := ["member", "sitter"]

  predicate Ended(m: Membership, now: int) {
    m.ends.Some? && now >= m.ends.value
  }

  /** Only the owner role grants member.manage, member.invite and garden.delete. */
  predicate MayManage(db: Rows, garden: Id, user: Id, now: int) {
    (garden, user) in db.members && db.members[(garden, user)].role == "owner"
        && !Ended(db.members[(garden, user)], now)
  }

  /** Whether a link can be redeemed, as the page that opens it decides. */
  predicate InviteOpen(db: Rows, id: Id, now: int) {
    && id in db.invites
    && var invite := db.invites[id];
       && invite.redeemed.None? && now < invite.expires
       && (if invite.forUser.None? then invite.memberEnds.Some? ==> now < invite.memberEnds.value
           else (invite.garden, invite.forUser.value) in db.members
                && !Ended(db.members[(invite.garden, invite.forUser.value)], now))
  }

  // ----- Single statements -----

  function RedeemInvite(db: Rows, garden: Id, id: Id, now: int): Option<Rows> {
    if id in db.invites && db.invites[id].garden == garden && db.invites[id].redeemed.None?
        && db.invites[id].expires > now then
      Some(db.(invites := db.invites[id := db.invites[id].(redeemed := Some(now))]))
    else None
  }

  /** Refused by the primary key for an id that exists. */
  function CreateAccount(db: Rows, user: Id): Option<Rows> {
    if user in db.users then None else Some(db.(users := db.users[user := true]))
  }

  /** Refused by the unique key for a pair that has a row, and by the foreign
      keys for a garden or an account that has none. */
  function CreateMembership(db: Rows, garden: Id, user: Id, m: Membership): Option<Rows> {
    if (garden, user) in db.members || garden !in db.gardens || user !in db.users then None
    else Some(db.(members := db.members[(garden, user) := m]))
  }

  function RenewMembership(db: Rows, garden: Id, user: Id, m: Membership): Option<Rows> {
    if (garden, user) !in db.members then None else Some(db.(members := db.members[(garden, user) := m]))
  }

  function UseSetupLink(db: Rows, link: Id, now: int): Option<Rows> {
    if link in db.links && db.links[link].used.None? && db.links[link].expires > now then
      Some(db.(links := db.links[link := db.links[link].(used := Some(now))]))
    else None
  }

  function Then(db: Option<Rows>, f: Rows -> Option<Rows>): Option<Rows> {
    if db.None? then None else f(db.value)
  }

  // ----- Transactions -----

  /** Redeem a join invite as a new account. `answered` is whether the handle
      was free and the device's answer verified. */
  function Join(db: Rows, id: Id, invite: Invite, user: Id, answered: bool, now: int): Option<Rows> {
    var redeemed := RedeemInvite(db, invite.garden, id, now);
    var made := Then(redeemed, d => CreateAccount(d, user));
    var joined := Then(made, d => CreateMembership(d, invite.garden, user, Membership(invite.role, invite.memberEnds)));
    if answered then joined else None
  }

  /** Redeem a sign-in link. The passkey is the only other row written. */
  function AddDevice(db: Rows, id: Id, invite: Invite, answered: bool, now: int): Option<Rows> {
    if answered then RedeemInvite(db, invite.garden, id, now) else None
  }

  /** Redeem a join invite as an account that exists. `existing` is whether the
      membership read before the transaction had a row. */
  function Accept(db: Rows, id: Id, invite: Invite, user: Id, existing: bool, now: int): Option<Rows> {
    var m := Membership(invite.role, invite.memberEnds);
    Then(RedeemInvite(db, invite.garden, id, now),
         d => if existing then RenewMembership(d, invite.garden, user, m)
             else CreateMembership(d, invite.garden, user, m))
  }

  /** What opens the setup route: a link, sign-up being on, or an empty install. */
  datatype Door = WithLink(link: Id) | Plain

  function Claim(db: Rows, door: Door, signup: bool, now: int): Option<Rows> {
    match door
    case WithLink(link) => UseSetupLink(db, link, now)
    case Plain => if signup || db.users == map[] then Some(db) else None
  }

  /** The garden's id is the database's, one no garden has had. */
  function CreateGardenOwnedBy(db: Rows, garden: Id, user: Id): Option<Rows> {
    if garden in db.gardens then None
    else CreateMembership(db.(gardens := db.gardens + {garden}), garden, user, Membership("owner", None))
  }

  function SetUp(db: Rows, door: Door, signup: bool, user: Id, garden: Id, answered: bool, now: int): Option<Rows> {
    var claimed := Claim(db, door, signup, now);
    var made := Then(claimed, d => CreateAccount(d, user));
    var planted := Then(made, d => CreateGardenOwnedBy(d, garden, user));
    if answered then planted else None
  }

  function SetUpSignedIn(db: Rows, door: Door, signup: bool, user: Id, garden: Id, now: int): Option<Rows> {
    Then(Claim(db, door, signup, now), d => CreateGardenOwnedBy(d, garden, user))
  }

  // ----- What a caller relies on -----

  /** The invite is the garden's, nobody has redeemed it, and it is in date. */
  predicate Unspent(db: Rows, id: Id, garden: Id, now: int) {
    id in db.invites && db.invites[id].garden == garden && db.invites[id].redeemed.None? && now < db.invites[id].expires
  }

  /** The way in is open: an unused link in date, or no link where none is needed. */
  predicate DoorOpen(db: Rows, door: Door, signup: bool, now: int) {
    match door
    case WithLink(link) => link in db.links && db.links[link].used.None? && now < db.links[link].expires
    case Plain => signup || forall u :: u !in db.users
  }

  /** One invite, of that garden, goes from open to redeemed. */
  predicate Redeems(before: Rows, after: Rows, id: Id, garden: Id, now: int) {
    && id in before.invites && id in after.invites && before.invites.Keys == after.invites.Keys
    && before.invites[id].garden == garden && before.invites[id].redeemed.None? && now < before.invites[id].expires
    && after.invites[id] == before.invites[id].(redeemed := Some(now))
    && forall i :: i in before.invites && i != id ==> after.invites[i] == before.invites[i]
  }

  /** One membership is written, and no other changes. */
  predicate WritesMember(before: Rows, after: Rows, garden: Id, user: Id, m: Membership) {
    && after.members.Keys == before.members.Keys + {(garden, user)} && after.members[(garden, user)] == m
    && forall k :: k in before.members && k != (garden, user) ==> after.members[k] == before.members[k]
  }

  /** One open account appears. */
  predicate AddsAccount(before: Rows, after: Rows, user: Id) {
    && user !in before.users && after.users.Keys == before.users.Keys + {user} && after.users[user]
    && forall u :: u in before.users ==> after.users[u] == before.users[u]
  }

  /** One garden appears, with the account as its owner and only member. */
  predicate Plants(before: Rows, after: Rows, garden: Id, user: Id) {
    && garden !in before.gardens && after.gardens == before.gardens + {garden} && user in after.users
    && WritesMember(before, after, garden, user, Membership("owner", None))
  }

  /** The door was open: its link was unused and in date, and now is used, or no
      link was needed. */
  predicate Opens(before: Rows, after: Rows, door: Door, signup: bool, now: int) {
    match door
    case WithLink(link) =>
      && link in before.links && before.links[link].used.None? && now < before.links[link].expires
      && after.links.Keys == before.links.Keys && after.links[link] == before.links[link].(used := Some(now))
      && forall l :: l in before.links && l != link ==> after.links[l] == before.links[l]
    case Plain => after.links == before.links && (signup || before.users == map[])
  }

  /** One row's post on People: a role, an end date, or both. */
  datatype Change = Change(user: Id, role: Option<Role>, ends: Option<int>)

  function ApplyTo(m: Membership, c: Change): Membership {
    Membership(if c.role.Some? then c.role.value else m.role, if c.ends.Some? then c.ends else m.ends)
  }

  function Apply(members: map<(Id, Id), Membership>, garden: Id, c: Change): map<(Id, Id), Membership> {
    if (garden, c.user) in members then members[(garden, c.user) := ApplyTo(members[(garden, c.user)], c)] else members
  }

  function ApplyAll(members: map<(Id, Id), Membership>, garden: Id, changes: seq<Change>): map<(Id, Id), Membership>
    decreases |changes|
  {
    if changes == [] then members else ApplyAll(Apply(members, garden, changes[0]), garden, changes[1..])
  }

  function RemoveMember(db: Rows, garden: Id, user: Id): Rows {
    db.(members := db.members - {(garden, user)})
  }

  predicate OwnsNow(db: Rows, garden: Id, user: Id, now: int) {
    && (garden, user) in db.members && db.members[(garden, user)].role == "owner"
    && !Ended(db.members[(garden, user)], now)
  }

  /** The gardens this account owns with nobody else owning them, at now. */
  function OnlyOwnerOf(db: Rows, user: Id, now: int): set<Id> {
    set g | g in db.gardens && OwnsNow(db, g, user, now)
            && !exists k :: k in db.members && k.0 == g && k.1 != user && OwnsNow(db, g, k.1, now)
  }

  function CloseAccount(db: Rows, user: Id, now: int): Option<Rows> {
    if OnlyOwnerOf(db, user, now) != {} || user !in db.users || !db.users[user] then None
    else Some(db.(
      users := db.users[user := false],
      members := map k | k in db.members && k.1 != user :: db.members[k],
      invites := map i | i in db.invites
          && !(db.invites[i].forUser == Some(user) && db.invites[i].redeemed.None?) :: db.invites[i]))
  }

  /** Deleting a garden cascades to its memberships and invites. */
  function DeleteGarden(db: Rows, garden: Id): Rows {
    db.(gardens := db.gardens - {garden},
        members := map k | k in db.members && k.0 != garden :: db.members[k],
        invites := map i | i in db.invites && db.invites[i].garden != garden :: db.invites[i])
  }

  /** A new sign-in link deletes the unredeemed ones for the same account and garden. */
  function IssueSignInLink(db: Rows, id: Id, garden: Id, user: Id, role: Role, expires: int): Option<Rows> {
    if garden !in db.gardens || user !in db.users then None
    else Some(db.(invites :=
      (map i | i in db.invites
          && !(db.invites[i].garden == garden && db.invites[i].forUser == Some(user) && db.invites[i].redeemed.None?)
         :: db.invites[i])[id := Invite(garden, role, Some(user), expires, None, None)]))
  }

  function CreateInvite(db: Rows, id: Id, garden: Id, role: Role, expires: int, memberEnds: Option<int>): Option<Rows> {
    if garden !in db.gardens || role !in OFFERED_ROLES then None
    else Some(db.(invites := db.invites[id := Invite(garden, role, None, expires, None, memberEnds)]))
  }

  function RevokeInvite(db: Rows, garden: Id, id: Id): Rows {
    if id in db.invites && db.invites[id].garden == garden && db.invites[id].redeemed.None?
        then db.(invites := db.invites - {id}) else db
  }

  /** The sweep deletes links spent, and sign-in links expired, by `before`. */
  function Sweep(db: Rows, before: int): Rows {
    db.(invites := map i | i in db.invites
        && !(if db.invites[i].redeemed.Some? then db.invites[i].redeemed.value <= before
                                                else db.invites[i].forUser.Some? && db.invites[i].expires <= before)
                     :: db.invites[i],
        links := map l | l in db.links && !(if db.links[l].used.Some? then db.links[l].used.value <= before
                                            else db.links[l].expires <= before)
                   :: db.links[l])
  }
}
