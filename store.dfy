/** The relational store behind every route, as in-memory tables.
    Row ids are naturals issued from one counter; the ORM's generated string ids play the same role. */
module Store {
  import opened Wrappers
  import opened Collections

  type Id = nat

  datatype Role = Owner | Member

  datatype User = User(id: Id, name: string, email: string, passwordHash: string, avatarUrl: Option<string>)
  datatype Workspace = Workspace(id: Id, name: string, ownerId: Id)
  /** The `workspaceUser` join row; its key is the pair (workspaceId, userId). */
  datatype Membership = Membership(workspaceId: Id, userId: Id, role: Role)
  /** A budget category. */
  datatype Budget = Budget(id: Id, workspaceId: Id, category: string, order: int)
  datatype BudgetItem = BudgetItem(id: Id, budgetId: Id, name: string, expectedAmount: int, actualAmount: int, createdAt: int)
  datatype Task = Task(id: Id, workspaceId: Id, title: string, description: Option<string>, status: string, priority: string, createdAt: int)
  datatype Guest = Guest(id: Id, workspaceId: Id, name: string, phone: Option<string>, side: string, status: string, createdAt: int)
  /** A note; `attachments` holds the ids of the media rows linked to it. */
  datatype Note = Note(id: Id, workspaceId: Id, content: string, attachments: set<Id>, createdAt: int, updatedAt: int)
  datatype Media = Media(id: Id, workspaceId: Id, url: string, mimeType: string)
  /** The wedding configuration; at most one per workspace, keyed by `workspaceId`. */
  datatype WeddingConfig = WeddingConfig(workspaceId: Id, groomName: Option<string>, brideName: Option<string>,
                                         venue: Option<string>, logoUrl: Option<string>, importantDates: Option<seq<string>>)

  /** The identity a bearer token carries: `{ userId, email, name }`. */
  datatype Payload = Payload(userId: Id, email: string, name: string)

  // Key columns, named so that every use of a key is the same function value.
  function UserId(u: User): Id { u.id }
  function UserEmail(u: User): string { u.email }
  function WorkspaceId(w: Workspace): Id { w.id }
  function MembershipWorkspace(m: Membership): Id { m.workspaceId }
  function MembershipPair(m: Membership): (Id, Id) { (m.workspaceId, m.userId) }
  function BudgetId(b: Budget): Id { b.id }
  function ItemId(i: BudgetItem): Id { i.id }
  function TaskId(t: Task): Id { t.id }
  function GuestId(g: Guest): Id { g.id }
  function NoteId(n: Note): Id { n.id }
  function MediaId(m: Media): Id { m.id }
  function ConfigWorkspace(c: WeddingConfig): Id { c.workspaceId }

  /** Is `userId` a member of `workspaceId`: the `members: { some: { userId } }` filter. */
  predicate IsMember(memberships: seq<Membership>, workspaceId: Id, userId: Id) {
    exists i :: 0 <= i < |memberships| && memberships[i].workspaceId == workspaceId && memberships[i].userId == userId
  }

  /** The membership rows of one workspace, in table order. */
  function MembersOf(memberships: seq<Membership>, workspaceId: Id): seq<Membership> {
    Filter(memberships, (m: Membership) => m.workspaceId == workspaceId)
  }

  /** The workspace exists and `userId` is its owner. */
  predicate IsOwner(workspaces: seq<Workspace>, workspaceId: Id, userId: Id) {
    match FindByKey(workspaces, WorkspaceId, workspaceId)
    case Some(w) => w.ownerId == userId
    case None => false
  }

  /** The store's invariant over table contents: primary keys and unique columns are unique, and every
      id in use was issued before `nextId`. */
  ghost predicate Consistent(users: seq<User>, workspaces: seq<Workspace>, memberships: seq<Membership>,
                             budgets: seq<Budget>, items: seq<BudgetItem>, tasks: seq<Task>, guests: seq<Guest>,
                             notes: seq<Note>, media: seq<Media>, configs: seq<WeddingConfig>, nextId: nat)
  {
    && Below(users, UserId, nextId) && Distinct(users, UserId) && Distinct(users, UserEmail)
    && Below(workspaces, WorkspaceId, nextId) && Distinct(workspaces, WorkspaceId)
    && Below(memberships, MembershipWorkspace, nextId) && Distinct(memberships, MembershipPair)
    && Below(budgets, BudgetId, nextId) && Distinct(budgets, BudgetId)
    && Below(items, ItemId, nextId) && Distinct(items, ItemId)
    && Below(tasks, TaskId, nextId) && Distinct(tasks, TaskId)
    && Below(guests, GuestId, nextId) && Distinct(guests, GuestId)
    && Below(notes, NoteId, nextId) && Distinct(notes, NoteId)
    && Below(media, MediaId, nextId) && Distinct(media, MediaId)
    && Distinct(configs, ConfigWorkspace)
  }

  /** The in-memory database: one sequence per table, and the id counter. */
  class Db {
    var users: seq<User>
    var workspaces: seq<Workspace>
    var memberships: seq<Membership>
    var budgets: seq<Budget>
    var items: seq<BudgetItem>
    var tasks: seq<Task>
    var guests: seq<Guest>
    var notes: seq<Note>
    var media: seq<Media>
    var configs: seq<WeddingConfig>
    var nextId: nat

    /** Primary keys and unique columns are unique, and every id in use was issued before `nextId`. */
    ghost predicate Valid()
      reads this
    {
      Consistent(users, workspaces, memberships, budgets, items, tasks, guests, notes, media, configs, nextId)
    }

    /** Issuing the next id keeps every table's ids below the counter. */
    lemma RaiseKeepsBelow()
      requires Valid()
      ensures Below(users, UserId, nextId + 1) && Below(workspaces, WorkspaceId, nextId + 1)
      ensures Below(memberships, MembershipWorkspace, nextId + 1)
      ensures Below(budgets, BudgetId, nextId + 1) && Below(items, ItemId, nextId + 1)
      ensures Below(tasks, TaskId, nextId + 1) && Below(guests, GuestId, nextId + 1)
      ensures Below(notes, NoteId, nextId + 1) && Below(media, MediaId, nextId + 1)
    {
    }

    /** A database holding only the given (seeded) users; ids from `firstId` on are free. */
    constructor (seedUsers: seq<User>, firstId: nat)
      requires Below(seedUsers, UserId, firstId) && Distinct(seedUsers, UserId) && Distinct(seedUsers, UserEmail)
      ensures Valid()
      ensures users == seedUsers && nextId == firstId
      ensures workspaces == [] && memberships == [] && budgets == [] && items == []
      ensures tasks == [] && guests == [] && notes == [] && media == [] && configs == []
    {
      users, nextId := seedUsers, firstId;
      workspaces, memberships, budgets, items := [], [], [], [];
      tasks, guests, notes, media, configs := [], [], [], [], [];
    }
  }
}
