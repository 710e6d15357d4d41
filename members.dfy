/** The workspace member routes: list the members, invite one by e-mail (owner only), remove one (owner only). */
module Members {
  import opened Wrappers
  import opened Collections
  import opened Store

  /** The user columns selected next to a membership row. */
  datatype UserSummary = UserSummary(id: Id, name: string, email: string, avatarUrl: Option<string>)
  datatype MemberEntry = MemberEntry(member: Membership, user: Option<UserSummary>)

  function Summary(u: User): UserSummary {
    UserSummary(u.id, u.name, u.email, u.avatarUrl)
  }

  /** The membership rows of a member listing, in listing order. */
  function MemberRows(r: seq<MemberEntry>): (ms: seq<Membership>)
    ensures |ms| == |r| && forall i :: 0 <= i < |r| ==> ms[i] == r[i].member
  {
    seq(|r|, i requires 0 <= i < |r| => r[i].member)
  }

  /** The user summary joined to a membership row: absent when no user has its id. */
  function UserOf(users: seq<User>, m: Membership): Option<UserSummary> {
    match FindByKey(users, UserId, m.userId)
    case Some(u) => Some(Summary(u))
    case None => None
  }

  /** Each row joined with its user, in the order given. */
  function WithUsers(users: seq<User>, rows: seq<Membership>): (r: seq<MemberEntry>)
    ensures MemberRows(r) == rows
    ensures forall i :: 0 <= i < |r| ==> r[i].user == UserOf(users, r[i].member)
  {
    var r := seq(|rows|, i requires 0 <= i < |rows| => MemberEntry(rows[i], UserOf(users, rows[i])));
    assert MemberRows(r) == rows;
    r
  }

  /** Every row joined is found at some position of the listing. */
  lemma EveryRowListed(rows: seq<Membership>, r: seq<MemberEntry>)
    requires MemberRows(r) == rows
    ensures forall m :: m in rows ==> exists i :: 0 <= i < |r| && r[i].member == m
  {
    forall m | m in rows ensures exists i :: 0 <= i < |r| && r[i].member == m {
      var j :| 0 <= j < |rows| && rows[j] == m;
      assert r[j].member == m;
    }
  }

  /** GET /workspaces/:workspaceId/members. No membership or ownership check is made:
      every caller gets every membership row of the workspace, each joined with its user. */
  function ListMembers(users: seq<User>, memberships: seq<Membership>, workspaceId: Id): (r: seq<MemberEntry>)
    ensures forall i :: 0 <= i < |r| ==> r[i].member in memberships && r[i].member.workspaceId == workspaceId
    ensures forall m :: m in memberships && m.workspaceId == workspaceId ==>
      exists i :: 0 <= i < |r| && r[i].member == m
    ensures forall m :: multiset(MemberRows(r))[m] == if m.workspaceId == workspaceId then multiset(memberships)[m] else 0
    ensures forall i :: 0 <= i < |r| ==>
      r[i].user == match FindByKey(users, UserId, r[i].member.userId)
                   case Some(u) => Some(Summary(u))
                   case None => None
  {
    var rows := MembersOf(memberships, workspaceId);
    FilterMultiset(memberships, (m: Membership) => m.workspaceId == workspaceId);
    var r := WithUsers(users, rows);
    EveryRowListed(rows, r);
    r
  }


  /** POST /workspaces/:workspaceId/members. The checks run in a fixed order: a missing e-mail (400),
      then the caller not owning an existing workspace (403), then no user with that e-mail (404),
      then that user already a member (409). Only when all pass is one `member` row added (201). */
  method Invite(db: Db, workspaceId: Id, email: Option<string>, inviterId: Id) returns (status: int, added: Option<Membership>)
    requires db.Valid()
    modifies db`memberships
    ensures db.Valid()
    ensures status in {201, 400, 403, 404, 409}
    ensures status == 400 <==> !Truthy(email)
    ensures status == 403 <==> Truthy(email) && !IsOwner(db.workspaces, workspaceId, inviterId)
    ensures status == 404 <==> (Truthy(email) && IsOwner(db.workspaces, workspaceId, inviterId)
      && FindByKey(db.users, UserEmail, email.value).None?)
    ensures status == 409 <==> (Truthy(email) && IsOwner(db.workspaces, workspaceId, inviterId)
      && FindByKey(db.users, UserEmail, email.value).Some?
      && IsMember(old(db.memberships), workspaceId, FindByKey(db.users, UserEmail, email.value).value.id))
    ensures status != 201 ==> added == None && db.memberships == old(db.memberships)
    ensures status == 201 ==> (Truthy(email) && FindByKey(db.users, UserEmail, email.value).Some?
      && added == Some(Membership(workspaceId, FindByKey(db.users, UserEmail, email.value).value.id, Member))
      && db.memberships == old(db.memberships) + [added.value])
  {
    added := None;
    if !Truthy(email) {
      return 400, None;
    }
    var workspace := FindByKey(db.workspaces, WorkspaceId, workspaceId);
    if workspace.None? || workspace.value.ownerId != inviterId {
      return 403, None;
    }
    var invited := FindByKey(db.users, UserEmail, email.value);
    if invited.None? {
      return 404, None;
    }
    var existing := IndexOfKey(db.memberships, MembershipPair, (workspaceId, invited.value.id));
    if existing.Some? {
      return 409, None;
    }
    var row := Membership(workspaceId, invited.value.id, Member);
    assert workspaceId < db.nextId;
    db.memberships := db.memberships + [row];
    return 201, Some(row);
  }

  /** DELETE /workspaces/:workspaceId/members/:userId. Ownership is checked first (403), so a
      non-owner is refused even when targeting the owner; then the owner cannot be removed (400);
      deleting a pair that is not there fails in the store (500); otherwise exactly that pair goes (204). */
  method Remove(db: Db, workspaceId: Id, userId: Id, removerId: Id) returns (status: int)
    requires db.Valid()
    modifies db`memberships
    ensures db.Valid()
    ensures status in {204, 400, 403, 500}
    ensures status == 403 <==> !IsOwner(db.workspaces, workspaceId, removerId)
    ensures status == 400 <==> IsOwner(db.workspaces, workspaceId, removerId) && IsOwner(db.workspaces, workspaceId, userId)
    ensures status == 500 <==> (IsOwner(db.workspaces, workspaceId, removerId) && !IsOwner(db.workspaces, workspaceId, userId)
      && !IsMember(old(db.memberships), workspaceId, userId))
    ensures status != 204 ==> db.memberships == old(db.memberships)
    ensures status == 204 ==> (|db.memberships| == |old(db.memberships)| - 1
      && !IsMember(db.memberships, workspaceId, userId)
      && forall m :: m in db.memberships <==> m in old(db.memberships) && MembershipPair(m) != (workspaceId, userId))
  {
    var workspace := FindByKey(db.workspaces, WorkspaceId, workspaceId);
    if workspace.None? || workspace.value.ownerId != removerId {
      return 403;
    }
    if workspace.value.ownerId == userId {
      return 400;
    }
    var k := IndexOfKey(db.memberships, MembershipPair, (workspaceId, userId));
    if k.None? {
      return 500;
    }
    RemoveKeyed(db.memberships, MembershipPair, k.value);
    BelowRemoveAt(db.memberships, MembershipWorkspace, db.nextId, k.value);
    db.memberships := RemoveAt(db.memberships, k.value);
    return 204;
  }
}
