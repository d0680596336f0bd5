/** The transactions as the handlers run them, a row at a time, with the writes
    undone when one fails. Each is proved to commit what Gardens says. */
module GardenStore {
  import opened Options
  import opened Gardens

  class Store {
    var users: map<Id, bool>
    var gardens: set<Id>
    var members: map<(Id, Id), Membership>
    var invites: map<Id, Invite>
    var links: map<Id, SetupLink>

    ghost function Contents(): Rows
      reads this
    {
      Rows(users, gardens, members, invites, links)
    }

    constructor ()
      ensures Contents() == EMPTY
    {
      users, gardens, members, invites, links := map[], {}, map[], map[], map[];
    }

    method Rollback(was: Rows)
      modifies this
      ensures Contents() == was
    {
      users, gardens, members, invites, links := was.users, was.gardens, was.members, was.invites, was.links;
    }

    method MarkRedeemed(garden: Id, id: Id, now: int) returns (ok: bool)
      modifies `invites
      ensures ok == RedeemInvite(old(Contents()), garden, id, now).Some?
      ensures Contents() == if ok then RedeemInvite(old(Contents()), garden, id, now).value else old(Contents())
    {
      ok := id in invites && invites[id].garden == garden && invites[id].redeemed.None? && invites[id].expires > now;
      if ok {
        invites := invites[id := invites[id].(redeemed := Some(now))];
      }
    }

    method WriteMembership(garden: Id, user: Id, m: Membership, renew: bool) returns (ok: bool)
      modifies `members
      ensures var w := if renew then RenewMembership(old(Contents()), garden, user, m)
              else CreateMembership(old(Contents()), garden, user, m);
              ok == w.Some? && Contents() == if ok then w.value else old(Contents())
    {
      ok := if renew then (garden, user) in members
          else (garden, user) !in members && garden in gardens && user in users;
      if ok {
        members := members[(garden, user) := m];
      }
    }

    /** On success one invite is redeemed, one account and one membership appear,
        and all else is equal. On failure nothing changes. */
    method Join(id: Id, invite: Invite, user: Id, answered: bool, now: int) returns (ok: bool)
      modifies this
      ensures ok <==>
                && answered && Unspent(old(Contents()), id, invite.garden, now) && user !in old(users)
                && invite.garden in old(gardens) && (invite.garden, user) !in old(members)
      ensures ok ==>
                && Redeems(old(Contents()), Contents(), id, invite.garden, now)
                && AddsAccount(old(Contents()), Contents(), user)
                && (invite.garden, user) !in old(members)
                && WritesMember(old(Contents()), Contents(), invite.garden, user,
                   Membership(invite.role, invite.memberEnds))
                && gardens == old(gardens) && links == old(links)
      ensures !ok ==> Contents() == old(Contents())
      ensures ok == Gardens.Join(old(Contents()), id, invite, user, answered, now).Some?
      ensures Contents() == if ok then Gardens.Join(old(Contents()), id, invite, user, answered, now).value
              else old(Contents())
    {
      var was := Rows(users, gardens, members, invites, links);
      ok := MarkRedeemed(invite.garden, id, now);
      if !ok {
        return;
      }
      ok := user !in users;
      if ok {
        users := users[user := true];
        ok := WriteMembership(invite.garden, user, Membership(invite.role, invite.memberEnds), false);
      }
      ok := ok && answered;
      if !ok {
        Rollback(was);
      }
    }

    /** On success one invite is redeemed and one membership is written, new or
        renewed as the request read, and all else is equal. On failure nothing
        changes. */
    method WriteAcceptance(id: Id, invite: Invite, user: Id, existing: bool, now: int) returns (ok: bool)
      modifies this
      ensures ok <==>
                && Unspent(old(Contents()), id, invite.garden, now)
                && if existing then (invite.garden, user) in old(members)
                   else (invite.garden, user) !in old(members) && invite.garden in old(gardens) && user in old(users)
      ensures ok ==>
                && Redeems(old(Contents()), Contents(), id, invite.garden, now)
                && ((invite.garden, user) in old(members) <==> existing)
                && WritesMember(old(Contents()), Contents(), invite.garden, user,
                   Membership(invite.role, invite.memberEnds))
                && users == old(users) && gardens == old(gardens) && links == old(links)
      ensures !ok ==> Contents() == old(Contents())
      ensures ok == Accept(old(Contents()), id, invite, user, existing, now).Some?
      ensures Contents() == if ok then Accept(old(Contents()), id, invite, user, existing, now).value
              else old(Contents())
    {
      var was := Rows(users, gardens, members, invites, links);
      ok := MarkRedeemed(invite.garden, id, now);
      if ok {
        ok := WriteMembership(invite.garden, user, Membership(invite.role, invite.memberEnds), existing);
      }
      if !ok {
        Rollback(was);
      }
    }

    method Claim(door: Door, signup: bool, now: int) returns (ok: bool)
      modifies `links
      ensures ok == Gardens.Claim(old(Contents()), door, signup, now).Some?
      ensures Contents() == if ok then Gardens.Claim(old(Contents()), door, signup, now).value else old(Contents())
    {
      match door
      case WithLink(link) =>
        ok := link in links && links[link].used.None? && links[link].expires > now;
        if ok {
          links := links[link := links[link].(used := Some(now))];
        }
      case Plain =>
        ok := signup || users == map[];
    }

    method CreateGardenOwnedBy(garden: Id, user: Id) returns (ok: bool)
      modifies `gardens, `members
      ensures ok == Gardens.CreateGardenOwnedBy(old(Contents()), garden, user).Some?
      ensures ok ==> Contents() == Gardens.CreateGardenOwnedBy(old(Contents()), garden, user).value
    {
      ok := garden !in gardens;
      if ok {
        gardens := gardens + {garden};
        ok := WriteMembership(garden, user, Membership("owner", None), false);
      }
    }

    /** On success the door was open and a link is used up, one account and one
        garden with it as owner appear, and all else is equal. On failure nothing
        changes. */
    method SetUp(door: Door, signup: bool, user: Id, garden: Id, answered: bool, now: int) returns (ok: bool)
      modifies this
      ensures ok <==>
                && answered && DoorOpen(old(Contents()), door, signup, now) && user !in old(users)
                && garden !in old(gardens) && (garden, user) !in old(members)
      ensures ok ==>
                && Opens(old(Contents()), Contents(), door, signup, now)
                && AddsAccount(old(Contents()), Contents(), user)
                && Plants(old(Contents()), Contents(), garden, user)
                && invites == old(invites)
      ensures !ok ==> Contents() == old(Contents())
      ensures ok == Gardens.SetUp(old(Contents()), door, signup, user, garden, answered, now).Some?
      ensures Contents() == if ok then Gardens.SetUp(old(Contents()), door, signup, user, garden, answered, now).value
              else old(Contents())
    {
      var was := Rows(users, gardens, members, invites, links);
      ok := Claim(door, signup, now);
      if ok {
        ok := user !in users;
      }
      if ok {
        users := users[user := true];
        ok := CreateGardenOwnedBy(garden, user);
      }
      ok := ok && answered;
      if !ok {
        Rollback(was);
      }
    }

    /** The same for an account that has a row, open or closed. */
    method SetUpSignedIn(door: Door, signup: bool, user: Id, garden: Id, now: int) returns (ok: bool)
      modifies this
      ensures ok <==>
                && DoorOpen(old(Contents()), door, signup, now) && user in old(users)
                && garden !in old(gardens) && (garden, user) !in old(members)
      ensures ok ==>
                && Opens(old(Contents()), Contents(), door, signup, now)
                && Plants(old(Contents()), Contents(), garden, user)
                && users == old(users) && invites == old(invites)
      ensures !ok ==> Contents() == old(Contents())
      ensures ok == Gardens.SetUpSignedIn(old(Contents()), door, signup, user, garden, now).Some?
      ensures Contents() == if ok then Gardens.SetUpSignedIn(old(Contents()), door, signup, user, garden, now).value
              else old(Contents())
    {
      var was := Rows(users, gardens, members, invites, links);
      ok := Claim(door, signup, now);
      if ok {
        ok := CreateGardenOwnedBy(garden, user);
      }
      if !ok {
        Rollback(was);
      }
    }

    /** Writes every change in turn, each as two statements. */
    method SaveMembers(garden: Id, changes: seq<Change>)
      modifies `members
      ensures members == ApplyAll(old(members), garden, changes)
    {
      var i := 0;
      while i < |changes|
        invariant 0 <= i <= |changes|
        invariant ApplyAll(members, garden, changes[i..]) == ApplyAll(old(members), garden, changes)
      {
        var c := changes[i];
        ghost var was := members;
        assert changes[i..][0] == c && changes[i..][1..] == changes[i + 1..];
        if c.role.Some? && (garden, c.user) in members {
          members := members[(garden, c.user) := members[(garden, c.user)].(role := c.role.value)];
        }
        if c.ends.Some? && (garden, c.user) in members {
          members := members[(garden, c.user) := members[(garden, c.user)].(ends := c.ends)];
        }
        assert members == Apply(was, garden, c);
        i := i + 1;
      }
    }

    /** On success an open account that is nobody's only owner closes: its
        memberships and unredeemed sign-in links go, and every other row stays. On
        failure nothing changes. */
    method CloseUserAccount(user: Id, now: int) returns (ok: bool)
      modifies this
      ensures ok <==>
                && user in old(users) && old(users)[user]
                && forall g :: g in old(gardens) && OwnsNow(old(Contents()), g, user, now) ==>
                     exists v :: v != user && OwnsNow(old(Contents()), g, v, now)
      ensures ok ==>
                && OnlyOwnerOf(old(Contents()), user, now) == {} && user in old(users) && old(users)[user]
                && users == old(users)[user := false] && gardens == old(gardens) && links == old(links)
                && (forall k :: k in members <==> k in old(members) && k.1 != user)
                && (forall k :: k in members ==> members[k] == old(members)[k])
                && (forall i :: i in old(invites) && i !in invites ==> old(invites)[i].forUser == Some(user))
                && (forall i :: i in invites ==> i in old(invites) && invites[i] == old(invites)[i]
                                                 && (invites[i].forUser == Some(user) ==> invites[i].redeemed.Some?))
      ensures !ok ==> Contents() == old(Contents())
      ensures ok == CloseAccount(old(Contents()), user, now).Some?
      ensures Contents() == if ok then CloseAccount(old(Contents()), user, now).value else old(Contents())
    {
      var was := Rows(users, gardens, members, invites, links);
      SharedExactly(was, user, now);
      if OnlyOwnerOf(was, user, now) != {} {
        return false;
      }
      invites := map i | i in invites && !(invites[i].forUser == Some(user) && invites[i].redeemed.None?) :: invites[i];
      members := map k | k in members && k.1 != user :: members[k];
      ok := user in users && users[user];
      if ok {
        users := users[user := false];
      } else {
        Rollback(was);
      }
    }
  }

  /** No garden has the account as its only owner exactly when each one it owns has
      another owner. */
  lemma SharedExactly(db: Rows, user: Id, now: int)
    ensures OnlyOwnerOf(db, user, now) == {} <==>
            forall g :: g in db.gardens && OwnsNow(db, g, user, now) ==> exists v :: v != user && OwnsNow(db, g, v, now)
  {
    if OnlyOwnerOf(db, user, now) == {} {
      forall g | g in db.gardens && OwnsNow(db, g, user, now)
        ensures exists v :: v != user && OwnsNow(db, g, v, now)
      {
        assert g !in OnlyOwnerOf(db, user, now);
        var k :| k in db.members && k.0 == g && k.1 != user && OwnsNow(db, g, k.1, now);
        assert OwnsNow(db, g, k.1, now);
      }
    } else {
      var g :| g in OnlyOwnerOf(db, user, now);
      assert forall v :: v != user && OwnsNow(db, g, v, now) ==> (g, v) in db.members;
    }
  }

  /** A member's row as People lists it, and what was posted for it. */
  datatype MemberRow = MemberRow(user: Id, membership: Membership)

  datatype PostedDate = Untouched | Unparseable | Date(at: int)

  datatype Posted = Posted(role: Role, date: PostedDate)

  const NOTHING := Posted("", Untouched)

  function PostedFor(posted: map<Id, Posted>, user: Id): Posted {
    if user in posted then posted[user] else NOTHING
  }

  /** The role is a change the row's select could make. */
  predicate ChangesRole(row: MemberRow, p: Posted, now: int) {
    p.role != "" && p.role != row.membership.role && !Ended(row.membership, now)
  }

  predicate ChangesEnd(row: MemberRow, p: Posted) {
    !p.date.Untouched? && row.membership.ends.Some?
  }

  /** A post the page could not have made. */
  predicate BadPost(row: MemberRow, p: Posted, now: int) {
    (ChangesRole(row, p, now) && p.role !in OFFERED_ROLES) || (ChangesEnd(row, p) && p.date.Unparseable?)
  }

  /** The change a row's post asks for. */
  function ChangeFor(row: MemberRow, p: Posted, now: int): Change {
    Change(row.user,
           if ChangesRole(row, p, now) then Some(p.role) else None,
           if ChangesEnd(row, p) && p.date.Date? then Some(p.date.at) else None)
  }

  /** The changes of the rows that change something, in the order of the rows and
      without the reader's own. */
  function Wanted(rows: seq<MemberRow>, reader: Id, posted: map<Id, Posted>, now: int): seq<Change> {
    if rows == [] then []
    else
      var row := rows[|rows| - 1];
      var change := ChangeFor(row, PostedFor(posted, row.user), now);
      Wanted(rows[..|rows| - 1], reader, posted, now)
      + if row.user != reader && (change.role.Some? || change.ends.Some?) then [change] else []
  }

  /** Refused exactly when some other member's row was posted badly. Otherwise
      the changes are those of the rows that changed something, in order, never
      the reader's own, and never to a role the select does not offer. */
  method PostedChanges(
    rows: seq<MemberRow>, reader: Id, posted: map<Id, Posted>, now: int) returns (out: Option<seq<Change>>)
    ensures out.None? <==> exists r :: r in rows && r.user != reader && BadPost(r, PostedFor(posted, r.user), now)
    ensures out.Some? ==> out.value == Wanted(rows, reader, posted, now)
    ensures out.Some? ==> forall c :: c in out.value ==>
            c.user != reader && (c.role.Some? ==> c.role.value in OFFERED_ROLES)
  {
    var changes: seq<Change> := [];
    for i := 0 to |rows|
      invariant forall r :: r in rows[..i] && r.user != reader ==> !BadPost(r, PostedFor(posted, r.user), now)
      invariant changes == Wanted(rows[..i], reader, posted, now)
      invariant forall c :: c in changes ==> c.user != reader && (c.role.Some? ==> c.role.value in OFFERED_ROLES)
    {
      var row := rows[i];
      assert rows[..i + 1] == rows[..i] + [row] && rows[..i + 1][..i] == rows[..i];
      if row.user == reader {
        continue;
      }
      var p := PostedFor(posted, row.user);
      var change := Change(row.user, None, None);
      if p.role != "" && p.role != row.membership.role && !Ended(row.membership, now) {
        if p.role !in OFFERED_ROLES {
          assert BadPost(row, p, now);
          return None;
        }
        change := change.(role := Some(p.role));
      }
      if !p.date.Untouched? && row.membership.ends.Some? {
        if p.date.Unparseable? {
          assert BadPost(row, p, now);
          return None;
        }
        change := change.(ends := Some(p.date.at));
      }
      assert change == ChangeFor(row, p, now) && !BadPost(row, p, now);
      if change.role.Some? || change.ends.Some? {
        changes := changes + [change];
      }
    }
    assert rows[..|rows|] == rows;
    return Some(changes);
  }
}
