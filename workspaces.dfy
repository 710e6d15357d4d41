/** GET /workspaces: the caller's workspaces, with a workspace created for a caller who has none. */
module Workspaces {
  import opened Collections
  import opened Store

  /** The name given to a bootstrapped workspace: this prefix, then the caller's name. */
  const NamePrefix := "Kế hoạch cưới của "

  /** The workspaces that have `userId` among their members, in table order. */
  function WorkspacesOf(workspaces: seq<Workspace>, memberships: seq<Membership>, userId: Id): seq<Workspace> {
    Filter(workspaces, (w: Workspace) => IsMember(memberships, w.id, userId))
  }

  /** After bootstrapping, the new workspace is the only one the caller belongs to. */
  lemma {:induction false} BootstrapIsOnlyWorkspace(workspaces: seq<Workspace>, memberships: seq<Membership>, w: Workspace, userId: Id)
    requires WorkspacesOf(workspaces, memberships, userId) == []
    requires forall i :: 0 <= i < |workspaces| ==> workspaces[i].id != w.id
    ensures WorkspacesOf(workspaces + [w], memberships + [Membership(w.id, userId, Owner)], userId) == [w]
  {
    var ms := memberships + [Membership(w.id, userId, Owner)];
    assert IsMember(ms, w.id, userId) by {
      assert ms[|memberships|] == Membership(w.id, userId, Owner);
    }
    forall i | 0 <= i < |workspaces|
      ensures IsMember(ms, workspaces[i].id, userId) == IsMember(memberships, workspaces[i].id, userId)
    {
      if IsMember(ms, workspaces[i].id, userId) {
        var j :| 0 <= j < |ms| && ms[j].workspaceId == workspaces[i].id && ms[j].userId == userId;
        assert j < |memberships| && ms[j] == memberships[j];
      }
      if IsMember(memberships, workspaces[i].id, userId) {
        var j :| 0 <= j < |memberships| && memberships[j].workspaceId == workspaces[i].id && memberships[j].userId == userId;
        assert ms[j] == memberships[j];
      }
    }
    FilterCongruent(workspaces, (x: Workspace) => IsMember(ms, x.id, userId), (x: Workspace) => IsMember(memberships, x.id, userId));
    FilterAppend(workspaces, [w], (x: Workspace) => IsMember(ms, x.id, userId));
  }

  /** The bootstrapped workspace has exactly one membership: the caller, as owner. */
  lemma {:induction false} BootstrapSoleMember(memberships: seq<Membership>, workspaceId: Id, userId: Id)
    requires forall i :: 0 <= i < |memberships| ==> memberships[i].workspaceId != workspaceId
    ensures MembersOf(memberships + [Membership(workspaceId, userId, Owner)], workspaceId) == [Membership(workspaceId, userId, Owner)]
  {
    var p := (m: Membership) => m.workspaceId == workspaceId;
    FilterAppend(memberships, [Membership(workspaceId, userId, Owner)], p);
    FilterNone(memberships, p);
  }

  /** Adding a workspace with the next id, and its owner row, keeps the store consistent. */
  lemma BootstrapConsistent(users: seq<User>, workspaces: seq<Workspace>, memberships: seq<Membership>,
                            budgets: seq<Budget>, items: seq<BudgetItem>, tasks: seq<Task>, guests: seq<Guest>,
                            notes: seq<Note>, media: seq<Media>, configs: seq<WeddingConfig>, nextId: nat,
                            name: string, userId: Id)
    requires Consistent(users, workspaces, memberships, budgets, items, tasks, guests, notes, media, configs, nextId)
    ensures Consistent(users, workspaces + [Workspace(nextId, name, userId)],
                       memberships + [Membership(nextId, userId, Owner)],
                       budgets, items, tasks, guests, notes, media, configs, nextId + 1)
  {
    var w := Workspace(nextId, name, userId);
    var m := Membership(nextId, userId, Owner);
    AppendFresh(workspaces, WorkspaceId, nextId, w);
    AppendDistinct(memberships, MembershipPair, m);
    BelowRaise(memberships, MembershipWorkspace, nextId, nextId + 1);
    BelowAppend(memberships, MembershipWorkspace, nextId + 1, m);
    BelowRaise(users, UserId, nextId, nextId + 1);
    BelowRaise(budgets, BudgetId, nextId, nextId + 1);
    BelowRaise(items, ItemId, nextId, nextId + 1);
    BelowRaise(tasks, TaskId, nextId, nextId + 1);
    BelowRaise(guests, GuestId, nextId, nextId + 1);
    BelowRaise(notes, NoteId, nextId, nextId + 1);
    BelowRaise(media, MediaId, nextId, nextId + 1);
  }

  /** The handler. A caller with workspaces gets them and nothing is written; a caller with none
      gets one new workspace, named after them, owned by them, with them as its `owner` member. */
  method ListWorkspaces(db: Db, caller: Payload) returns (status: int, result: seq<Workspace>)
    requires db.Valid()
    modifies db`workspaces, db`memberships, db`nextId
    ensures db.Valid()
    ensures status == 200
    ensures result == WorkspacesOf(db.workspaces, db.memberships, caller.userId)
    ensures old(WorkspacesOf(db.workspaces, db.memberships, caller.userId)) != [] ==>
      (result == old(WorkspacesOf(db.workspaces, db.memberships, caller.userId))
       && db.workspaces == old(db.workspaces) && db.memberships == old(db.memberships) && db.nextId == old(db.nextId))
    ensures old(WorkspacesOf(db.workspaces, db.memberships, caller.userId)) == [] ==>
      (|result| == 1 && result[0] == Workspace(old(db.nextId), NamePrefix + caller.name, caller.userId)
       && db.workspaces == old(db.workspaces) + [result[0]]
       && db.memberships == old(db.memberships) + [Membership(result[0].id, caller.userId, Owner)]
       && MembersOf(db.memberships, result[0].id) == [Membership(result[0].id, caller.userId, Owner)]
       && db.nextId == old(db.nextId) + 1)
  {
    result := WorkspacesOf(db.workspaces, db.memberships, caller.userId);
    if result == [] {
      var w := Workspace(db.nextId, NamePrefix + caller.name, caller.userId);
      BootstrapIsOnlyWorkspace(db.workspaces, db.memberships, w, caller.userId);
      BootstrapSoleMember(db.memberships, w.id, caller.userId);
      var m := Membership(w.id, caller.userId, Owner);
      BootstrapConsistent(db.users, db.workspaces, db.memberships, db.budgets, db.items, db.tasks, db.guests,
                          db.notes, db.media, db.configs, db.nextId, w.name, caller.userId);
      db.workspaces, db.memberships, db.nextId := db.workspaces + [w], db.memberships + [m], db.nextId + 1;
      result := [w];
    }
    status := 200;
  }

  /** A second call right after the first writes nothing and returns the same workspaces. */
  method ListWorkspacesTwice(db: Db, caller: Payload) returns (first: seq<Workspace>, second: seq<Workspace>)
    requires db.Valid()
    modifies db`workspaces, db`memberships, db`nextId
    ensures db.Valid()
    ensures first == second && first != []
    ensures second == WorkspacesOf(db.workspaces, db.memberships, caller.userId)
    ensures |db.workspaces| <= |old(db.workspaces)| + 1 && |db.memberships| <= |old(db.memberships)| + 1
    ensures db.nextId <= old(db.nextId) + 1
  {
    var _, r1 := ListWorkspaces(db, caller);
    ghost var afterFirst := (db.workspaces, db.memberships, db.nextId);
    var _, r2 := ListWorkspaces(db, caller);
    assert (db.workspaces, db.memberships, db.nextId) == afterFirst;
    first, second := r1, r2;
  }
}
