/** What the People page does to the members of a garden: a save writes what was
    posted for each row, and a member who was removed stays out. */
module People {
  import opened Options
  import opened Gardens
  import opened GardenStore
  import opened GardenRuns
  import opened InviteRuns

  type Members = map<(Id, Id), Membership>

  // ----- Saving -----

  lemma {:induction false} ApplyAllSplits(members: Members, garden: Id, a: seq<Change>, b: seq<Change>)
    ensures ApplyAll(members, garden, a + b) == ApplyAll(ApplyAll(members, garden, a), garden, b)
    decreases |a|
  {
    if a == [] {
      assert a + b == b;
    } else {
      assert (a + b)[1..] == a[1..] + b;
      ApplyAllSplits(Apply(members, garden, a[0]), garden, a[1..], b);
    }
  }

  /** One row for each member listed, as it is in the table. */
  predicate Lists(rows: seq<MemberRow>, members: Members, garden: Id) {
    && (forall i :: 0 <= i < |rows| ==>
          (garden, rows[i].user) in members && members[(garden, rows[i].user)] == rows[i].membership)
    && (forall i, j :: 0 <= i < j < |rows| ==> rows[i].user != rows[j].user)
  }

  /** What was posted for a member: the role, where one was picked and the member's
      time is not over, and the end date, where one was given for a member who has one. */
  function AsPosted(m: Membership, p: Posted, now: int): Membership {
    Membership(if p.role != "" && (m.ends.Some? ==> now < m.ends.value) then p.role else m.role,
               if p.date.Date? && m.ends.Some? then Some(p.date.at) else m.ends)
  }

  function Saved(
    members: Members, garden: Id, rows: seq<MemberRow>, reader: Id, posted: map<Id, Posted>, now: int): Members {
    ApplyAll(members, garden, Wanted(rows, reader, posted, now))
  }

  /** Applying what a row wants writes what was posted for it. */
  lemma WantedIsPosted(members: Members, garden: Id, row: MemberRow, p: Posted, now: int)
    requires (garden, row.user) in members && members[(garden, row.user)] == row.membership
    ensures Apply(members, garden, ChangeFor(row, p, now))
            == members[(garden, row.user) := AsPosted(row.membership, p, now)]
  {
  }

  lemma NothingWanted(m: Membership, row: MemberRow, p: Posted, now: int)
    requires m == row.membership
    ensures var change := ChangeFor(row, p, now);
            change.role.None? && change.ends.None? ==> AsPosted(m, p, now) == m
  {
  }

  /** The last row's change, after those of the rows before it. */
  lemma LastRowSaves(
    members: Members, garden: Id, rows: seq<MemberRow>, reader: Id, posted: map<Id, Posted>, now: int)
    requires rows != []
    ensures var row := rows[|rows| - 1];
            var before := Saved(members, garden, rows[..|rows| - 1], reader, posted, now);
            var p := PostedFor(posted, row.user);
            (garden, row.user) in before && before[(garden, row.user)] == row.membership ==>
              Saved(members, garden, rows, reader, posted, now)
              == if row.user == reader then before else before[(garden, row.user) := AsPosted(row.membership, p, now)]
  {
    var row := rows[|rows| - 1];
    var p := PostedFor(posted, row.user);
    var change := ChangeFor(row, p, now);
    var before := Saved(members, garden, rows[..|rows| - 1], reader, posted, now);
    var last := if row.user != reader && (change.role.Some? || change.ends.Some?) then [change] else [];
    ApplyAllSplits(members, garden, Wanted(rows[..|rows| - 1], reader, posted, now), last);
    assert last != [] ==> last[1..] == [];
    if (garden, row.user) in before && before[(garden, row.user)] == row.membership {
      WantedIsPosted(before, garden, row, p, now);
      NothingWanted(before[(garden, row.user)], row, p, now);
    }
  }

  /** Every member listed has what was posted for them, and the reader's own row and
      everyone not listed are as they were. */
  predicate Written(
    members: Members, after: Members, garden: Id, rows: seq<MemberRow>, reader: Id, posted: map<Id, Posted>, now: int) {
    && after.Keys == members.Keys
    && (forall r :: r in rows && r.user != reader && (garden, r.user) in after ==>
          after[(garden, r.user)] == AsPosted(r.membership, PostedFor(posted, r.user), now))
    && (forall k :: k in members && Unlisted(rows, garden, reader, k) ==> after[k] == members[k])
  }

  predicate Unlisted(rows: seq<MemberRow>, garden: Id, reader: Id, k: (Id, Id)) {
    k.0 != garden || k.1 == reader || forall r :: r in rows ==> r.user != k.1
  }

  lemma OneMoreRow(
    members: Members, before: Members, garden: Id, rows: seq<MemberRow>, row: MemberRow, reader: Id,
    posted: map<Id, Posted>, now: int)
    requires Written(members, before, garden, rows, reader, posted, now) && (garden, row.user) in members
    requires row.user != reader && forall r :: r in rows ==> r.user != row.user
    ensures var after := before[(garden, row.user) := AsPosted(row.membership, PostedFor(posted, row.user), now)];
            Written(members, after, garden, rows + [row], reader, posted, now)
  {
    var after := before[(garden, row.user) := AsPosted(row.membership, PostedFor(posted, row.user), now)];
    forall k | k in members && Unlisted(rows + [row], garden, reader, k)
      ensures after[k] == members[k]
    {
      assert row in rows + [row];
      assert forall r :: r in rows ==> r in rows + [row];
      assert Unlisted(rows, garden, reader, k);
    }
  }

  lemma OwnRowIsSkipped(
    members: Members, before: Members, garden: Id, rows: seq<MemberRow>, row: MemberRow, posted: map<Id, Posted>,
        now: int)
    requires Written(members, before, garden, rows, row.user, posted, now)
    ensures Written(members, before, garden, rows + [row], row.user, posted, now)
  {
    forall k | k in members && Unlisted(rows + [row], garden, row.user, k)
      ensures before[k] == members[k]
    {
      assert forall r :: r in rows ==> r in rows + [row];
      assert Unlisted(rows, garden, row.user, k);
    }
  }

  lemma FirstRows(rows: seq<MemberRow>, members: Members, garden: Id, n: nat)
    requires Lists(rows, members, garden) && n + 1 == |rows|
    ensures Lists(rows[..n], members, garden) && rows == rows[..n] + [rows[n]]
    ensures forall r :: r in rows[..n] ==> r.user != rows[n].user
  {
    forall r | r in rows[..n]
      ensures r.user != rows[n].user
    {
      var i :| 0 <= i < n && rows[..n][i] == r;
      assert rows[i].user != rows[n].user;
    }
  }

  lemma RowStillAsListed(
    members: Members, before: Members, garden: Id, rows: seq<MemberRow>, row: MemberRow, reader: Id,
    posted: map<Id, Posted>, now: int)
    requires Written(members, before, garden, rows, reader, posted, now)
    requires (garden, row.user) in members && forall r :: r in rows ==> r.user != row.user
    ensures (garden, row.user) in before && before[(garden, row.user)] == members[(garden, row.user)]
  {
    assert Unlisted(rows, garden, reader, (garden, row.user));
  }

  /** Saving People writes just what was posted. */
  lemma {:induction false} SavedAsPosted(
    members: Members, garden: Id, rows: seq<MemberRow>, reader: Id, posted: map<Id, Posted>, now: int)
    requires Lists(rows, members, garden)
    ensures Written(members, Saved(members, garden, rows, reader, posted, now), garden, rows, reader, posted, now)
    decreases |rows|
  {
    if rows != [] {
      var n := |rows| - 1;
      var row := rows[n];
      var before := Saved(members, garden, rows[..n], reader, posted, now);
      FirstRows(rows, members, garden, n);
      SavedAsPosted(members, garden, rows[..n], reader, posted, now);
      RowStillAsListed(members, before, garden, rows[..n], row, reader, posted, now);
      LastRowSaves(members, garden, rows, reader, posted, now);
      if row.user == reader {
        OwnRowIsSkipped(members, before, garden, rows[..n], row, posted, now);
      } else {
        OneMoreRow(members, before, garden, rows[..n], row, reader, posted, now);
      }
    }
  }

  // ----- Removing -----

  /** The step logs that the account came into the garden. */
  predicate ComesIn(e: Event, garden: Id, user: Id) {
    !e.AddedDevice? && e.garden == garden && e.user == user
  }

  predicate Rises(s: System, s': System, garden: Id, user: Id) {
    || ((garden, user) in s'.db.members ==> (garden, user) in s.db.members)
    || (|s'.log| > |s.log| && ComesIn(s'.log[|s.log|], garden, user))
  }

  lemma RedeemRises(s: System, a: Action, garden: Id, user: Id)
    ensures Rises(s, RedeemStep(s, a), garden, user)
  {
  }

  lemma NewcomerRises(signup: bool, s: System, a: Action, garden: Id, user: Id)
    requires a.CommitSetUp?
    ensures Rises(s, SetUpStep(signup, s, a), garden, user)
  {
  }

  lemma SignedInRises(signup: bool, s: System, a: Action, garden: Id, user: Id)
    requires a.CommitSetUpSignedIn?
    ensures Rises(s, SetUpStep(signup, s, a), garden, user)
  {
  }

  lemma ServiceRises(s: System, a: Action, garden: Id, user: Id)
    ensures Rises(s, ServiceStep(s, a), garden, user)
  {
  }

  /** Nobody has a membership they did not come in for. */
  lemma StepRises(signup: bool, s: System, a: Action, garden: Id, user: Id)
    ensures Rises(s, Step(signup, s, a), garden, user)
  {
    if IsRedeem(a) {
      RedeemRises(s, a, garden, user);
    } else if a.CommitSetUp? {
      NewcomerRises(signup, s, a, garden, user);
    } else if a.CommitSetUpSignedIn? {
      SignedInRises(signup, s, a, garden, user);
    } else if IsManage(a) {
      ManageRises(s, a, garden, user);
    } else if IsService(a) {
      ServiceRises(s, a, garden, user);
    }
  }

  lemma ManageRises(s: System, a: Action, garden: Id, user: Id)
    ensures Rises(s, ManageStep(s, a), garden, user)
  {
    if a.CommitSave? {
      SaveKeepsKeys(s.db.members, a.garden, a.changes);
    }
  }

  lemma {:induction false} SaveKeepsKeys(members: Members, garden: Id, changes: seq<Change>)
    ensures ApplyAll(members, garden, changes).Keys == members.Keys
    decreases |changes|
  {
    if changes != [] {
      SaveKeepsKeys(Apply(members, garden, changes[0]), garden, changes[1..]);
    }
  }

  /** The account comes into the garden at no step of the run. */
  predicate StaysAway(signup: bool, s: System, actions: seq<Action>, garden: Id, user: Id)
    decreases |actions|
  {
    actions != [] ==>
      var s' := Step(signup, s, actions[0]);
      && !(|s'.log| > |s.log| && ComesIn(s'.log[|s.log|], garden, user))
      && StaysAway(signup, s', actions[1..], garden, user)
  }

  lemma {:induction false} StaysOut(signup: bool, s: System, actions: seq<Action>, garden: Id, user: Id)
    requires (garden, user) !in s.db.members && StaysAway(signup, s, actions, garden, user)
    ensures (garden, user) !in Run(signup, s, actions).db.members
    decreases |actions|
  {
    if actions != [] {
      StepRises(signup, s, actions[0], garden, user);
      StaysOut(signup, Step(signup, s, actions[0]), actions[1..], garden, user);
    }
  }

  /** A member an owner removes has no membership from then on, whatever was read
      before, until they come in again on an invite, and nobody else's row changes. */
  lemma RemovedStaysOut(signup: bool, s: System, garden: Id, target: Id, actions: seq<Action>)
    requires SawMember(garden, target) in s.seen
    ensures var s' := Step(signup, s, CommitRemove(garden, target));
            && s'.db.members == s.db.members - {(garden, target)}
            && (StaysAway(signup, s', actions, garden, target) ==>
                (garden, target) !in Run(signup, s', actions).db.members)
  {
    var s' := Step(signup, s, CommitRemove(garden, target));
    if StaysAway(signup, s', actions, garden, target) {
      StaysOut(signup, s', actions, garden, target);
    }
  }

  /** Signing in, opening a member's row and removing them works exactly for the
      garden's owner, with an open account, on somebody else. */
  lemma RemovesExactly(signup: bool, s: System, reader: Id, garden: Id, target: Id, at: int)
    requires Reachable(signup, s) && Manager(reader, garden) !in s.seen && SawMember(garden, target) !in s.seen
    ensures var s1 := Step(signup, s, AuthenticateManager(reader, garden, at));
            var s2 := ReadStep(s1, ReadMember(reader, garden, target));
            ManageStep(s2, CommitRemove(garden, target)).db.members
            == if Open(s.db, reader) && OwnerOf(s.db, garden, reader) && target != reader
               then s.db.members - {(garden, target)} else s.db.members
  {
    ManagesExactly(signup, s, reader, garden, at);
    assert (garden, target) !in s.db.members ==> s.db.members - {(garden, target)} == s.db.members;
  }

  /** Signing in, reading a post and saving it writes the changes exactly for the
      garden's owner, with an open account, and a post that changes nothing of the
      owner and picks only roles on offer. */
  lemma SavesExactly(signup: bool, s: System, reader: Id, garden: Id, changes: seq<Change>, at: int)
    requires Reachable(signup, s) && Manager(reader, garden) !in s.seen && SawPost(garden, changes) !in s.seen
    ensures var s1 := Step(signup, s, AuthenticateManager(reader, garden, at));
            var s2 := ReadStep(s1, ReadPost(reader, garden, changes));
            ManageStep(s2, CommitSave(garden, changes)).db.members
            == if Open(s.db, reader) && OwnerOf(s.db, garden, reader) && Postable(changes, reader)
               then ApplyAll(s.db.members, garden, changes) else s.db.members
  {
    ManagesExactly(signup, s, reader, garden, at);
  }
}
