/** GET /workspaces/:workspaceId/dashboard: a read-only summary of one workspace for one of its members. */
module Dashboard {
  import opened Wrappers
  import opened Collections
  import opened Store
  import Configs
  import opened Tasks

  datatype ConfigView = ConfigView(groomName: Option<string>, brideName: Option<string>, importantDates: seq<string>)
  datatype BudgetTotals = BudgetTotals(totalExpected: int, totalActual: int)
  datatype TaskStats = TaskStats(upcoming: seq<Task>, total: nat, done: nat)
  datatype Summary = Summary(config: ConfigView, budget: BudgetTotals, tasks: TaskStats, guestsTotal: nat)

  /** How many upcoming tasks the summary lists. */
  const UpcomingLimit := 5

  // ----- budget sums -----

  function Expected(i: BudgetItem): int { i.expectedAmount }
  function Actual(i: BudgetItem): int { i.actualAmount }

  /** The item's budget category belongs to the workspace: the `budget: { workspaceId }` filter. */
  predicate ItemInWorkspace(item: BudgetItem, budgets: seq<Budget>, workspaceId: Id) {
    exists j :: 0 <= j < |budgets| && budgets[j].id == item.budgetId && budgets[j].workspaceId == workspaceId
  }

  function WorkspaceItems(items: seq<BudgetItem>, budgets: seq<Budget>, workspaceId: Id): seq<BudgetItem> {
    Filter(items, (i: BudgetItem) => ItemInWorkspace(i, budgets, workspaceId))
  }

  /** `_sum` of one amount column over `items`, with the `|| 0` for no rows. */
  function SumOf(items: seq<BudgetItem>, amount: BudgetItem -> int): int {
    if items == [] then 0 else amount(items[0]) + SumOf(items[1..], amount)
  }

  lemma {:induction false} SumOfAppend(a: seq<BudgetItem>, b: seq<BudgetItem>, amount: BudgetItem -> int)
    ensures SumOf(a + b, amount) == SumOf(a, amount) + SumOf(b, amount)
  {
    if a == [] {
      assert a + b == b;
    } else {
      assert (a + b)[1..] == a[1..] + b;
      SumOfAppend(a[1..], b, amount);
    }
  }

  function Totals(items: seq<BudgetItem>, budgets: seq<Budget>, workspaceId: Id): BudgetTotals {
    var own := WorkspaceItems(items, budgets, workspaceId);
    BudgetTotals(SumOf(own, Expected), SumOf(own, Actual))
  }

  /** A workspace without budget items has both totals 0. */
  lemma TotalsZeroWithoutItems(items: seq<BudgetItem>, budgets: seq<Budget>, workspaceId: Id)
    requires forall i :: 0 <= i < |items| ==> !ItemInWorkspace(items[i], budgets, workspaceId)
    ensures Totals(items, budgets, workspaceId) == BudgetTotals(0, 0)
  {
    FilterNone(items, (i: BudgetItem) => ItemInWorkspace(i, budgets, workspaceId));
  }

  /** Items of other workspaces' budgets add nothing to the totals. */
  lemma ForeignItemsDoNotCount(items: seq<BudgetItem>, extra: seq<BudgetItem>, budgets: seq<Budget>, workspaceId: Id)
    requires forall i :: 0 <= i < |extra| ==> !ItemInWorkspace(extra[i], budgets, workspaceId)
    ensures Totals(items + extra, budgets, workspaceId) == Totals(items, budgets, workspaceId)
  {
    var p := (i: BudgetItem) => ItemInWorkspace(i, budgets, workspaceId);
    FilterAppend(items, extra, p);
    FilterNone(extra, p);
    assert Filter(items, p) + [] == Filter(items, p);
  }

  /** Budget categories of other workspaces change neither total. */
  lemma ForeignBudgetsDoNotCount(items: seq<BudgetItem>, budgets: seq<Budget>, extra: seq<Budget>, workspaceId: Id)
    requires forall j :: 0 <= j < |extra| ==> extra[j].workspaceId != workspaceId
    ensures Totals(items, budgets + extra, workspaceId) == Totals(items, budgets, workspaceId)
  {
    forall k | 0 <= k < |items|
      ensures ItemInWorkspace(items[k], budgets + extra, workspaceId) == ItemInWorkspace(items[k], budgets, workspaceId)
    {
      if ItemInWorkspace(items[k], budgets + extra, workspaceId) {
        var j :| 0 <= j < |budgets + extra| && (budgets + extra)[j].id == items[k].budgetId
          && (budgets + extra)[j].workspaceId == workspaceId;
        assert j < |budgets|;
        assert (budgets + extra)[j] == budgets[j];
      }
      if ItemInWorkspace(items[k], budgets, workspaceId) {
        var j :| 0 <= j < |budgets| && budgets[j].id == items[k].budgetId && budgets[j].workspaceId == workspaceId;
        assert (budgets + extra)[j] == budgets[j];
      }
    }
    FilterCongruent(items, (i: BudgetItem) => ItemInWorkspace(i, budgets + extra, workspaceId),
                           (i: BudgetItem) => ItemInWorkspace(i, budgets, workspaceId));
  }

  /** Each total is the sum over exactly the workspace's items, one item at a time. */
  lemma {:induction false} TotalsAddItem(items: seq<BudgetItem>, item: BudgetItem, budgets: seq<Budget>, workspaceId: Id)
    requires ItemInWorkspace(item, budgets, workspaceId)
    ensures Totals(items + [item], budgets, workspaceId).totalExpected == Totals(items, budgets, workspaceId).totalExpected + item.expectedAmount
    ensures Totals(items + [item], budgets, workspaceId).totalActual == Totals(items, budgets, workspaceId).totalActual + item.actualAmount
  {
    var p := (i: BudgetItem) => ItemInWorkspace(i, budgets, workspaceId);
    FilterAppend(items, [item], p);
    assert Filter([item], p) == [item];
    SumOfAppend(Filter(items, p), [item], Expected);
    SumOfAppend(Filter(items, p), [item], Actual);
  }

  // ----- task and guest counts -----

  function CreatedAt(t: Task): int { t.createdAt }

  function DoneTasks(tasks: seq<Task>, workspaceId: Id): seq<Task> {
    Filter(tasks, (t: Task) => t.workspaceId == workspaceId && t.status == "done")
  }

  /** The `status: { not: 'done' }` tasks of the workspace. */
  function OpenTasks(tasks: seq<Task>, workspaceId: Id): (r: seq<Task>)
    ensures forall t :: t in r <==> t in tasks && t.workspaceId == workspaceId && t.status != "done"
  {
    Filter(tasks, (t: Task) => t.workspaceId == workspaceId && t.status != "done")
  }

  /** The five oldest open tasks of the workspace, oldest first. */
  function Upcoming(tasks: seq<Task>, workspaceId: Id): (r: seq<Task>)
    ensures |r| == if |OpenTasks(tasks, workspaceId)| < UpcomingLimit then |OpenTasks(tasks, workspaceId)| else UpcomingLimit
    ensures multiset(r) <= multiset(OpenTasks(tasks, workspaceId))
    ensures forall t :: t in r ==> t in OpenTasks(tasks, workspaceId)
    ensures forall i, j :: 0 <= i < j < |r| ==> r[i].createdAt <= r[j].createdAt
    ensures forall t, i :: 0 <= i < |r| && t in multiset(OpenTasks(tasks, workspaceId)) - multiset(r) ==>
      r[i].createdAt <= t.createdAt
  {
    var open := OpenTasks(tasks, workspaceId);
    TakeSmallest(open, CreatedAt, UpcomingLimit)
  }

  /** Every upcoming task is an open task of the workspace. */
  lemma UpcomingAreOpen(tasks: seq<Task>, workspaceId: Id)
    ensures forall i :: 0 <= i < |Upcoming(tasks, workspaceId)| ==>
      var t := Upcoming(tasks, workspaceId)[i];
      t in tasks && t.workspaceId == workspaceId && t.status != "done"
  {
    var r := Upcoming(tasks, workspaceId);
    forall i | 0 <= i < |r| ensures r[i] in tasks && r[i].workspaceId == workspaceId && r[i].status != "done" {
      assert r[i] in r;
    }
  }

  /** There are never more done tasks than tasks. */
  lemma DoneAtMostTotal(tasks: seq<Task>, workspaceId: Id)
    ensures |DoneTasks(tasks, workspaceId)| <= |WorkspaceTasks(tasks, workspaceId)|
  {
    FilterMonotone(tasks, (t: Task) => t.workspaceId == workspaceId && t.status == "done",
                          (t: Task) => t.workspaceId == workspaceId);
  }

  /** A task created in the workspace raises the total by one, and the done count only if it is done. */
  lemma NewTaskCounted(tasks: seq<Task>, t: Task, workspaceId: Id)
    requires t.workspaceId == workspaceId
    ensures |WorkspaceTasks(tasks + [t], workspaceId)| == |WorkspaceTasks(tasks, workspaceId)| + 1
    ensures |DoneTasks(tasks + [t], workspaceId)| == |DoneTasks(tasks, workspaceId)| + (if t.status == "done" then 1 else 0)
  {
    FilterAppend(tasks, [t], (x: Task) => x.workspaceId == workspaceId);
    FilterAppend(tasks, [t], (x: Task) => x.workspaceId == workspaceId && x.status == "done");
  }

  function GuestCount(guests: seq<Guest>, workspaceId: Id): nat {
    |Filter(guests, (g: Guest) => g.workspaceId == workspaceId)|
  }

  // ----- the handler -----

  /** The config part: the names and dates of the workspace's record, absent names and no dates without one. */
  function ConfigPart(configs: seq<WeddingConfig>, workspaceId: Id): (r: ConfigView)
    ensures Configs.FindConfig(configs, workspaceId).None? ==> r == ConfigView(None, None, [])
    ensures Configs.FindConfig(configs, workspaceId).Some? ==>
      var c := Configs.FindConfig(configs, workspaceId).value;
      r.groomName == c.groomName && r.brideName == c.brideName && r.importantDates == c.importantDates.GetOr([])
  {
    match Configs.FindConfig(configs, workspaceId)
    case None => ConfigView(None, None, [])
    case Some(c) => ConfigView(c.groomName, c.brideName, c.importantDates.GetOr([]))
  }

  /** The handler: 403 and no body unless the caller is a member; otherwise 200 and the summary. */
  function GetDashboard(memberships: seq<Membership>, configs: seq<WeddingConfig>, budgets: seq<Budget>,
                        items: seq<BudgetItem>, tasks: seq<Task>, guests: seq<Guest>,
                        workspaceId: Id, userId: Id): (r: Reply<Summary>)
    ensures r.status == 403 <==> !IsMember(memberships, workspaceId, userId)
    ensures r.status == 403 ==> r.body.None?
    ensures r.status != 403 ==> r.status == 200 && r.body.Some?
    ensures r.body.Some? ==>
      var s := r.body.value;
      && s.tasks.done <= s.tasks.total
      && s.tasks.total == |WorkspaceTasks(tasks, workspaceId)|
      && s.tasks.done == |DoneTasks(tasks, workspaceId)|
      && s.tasks.upcoming == Upcoming(tasks, workspaceId)
      && s.budget == Totals(items, budgets, workspaceId)
      && s.config == ConfigPart(configs, workspaceId)
      && s.guestsTotal == GuestCount(guests, workspaceId)
  {
    if !IsMember(memberships, workspaceId, userId) then Reply(403, None)
    else
      DoneAtMostTotal(tasks, workspaceId);
      var stats := TaskStats(Upcoming(tasks, workspaceId), |WorkspaceTasks(tasks, workspaceId)|, |DoneTasks(tasks, workspaceId)|);
      Reply(200, Some(Summary(ConfigPart(configs, workspaceId), Totals(items, budgets, workspaceId), stats,
                              GuestCount(guests, workspaceId))))
  }
}
