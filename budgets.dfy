/** The budget routes: categories listed by `order` with their items oldest first, category create and
    delete, item create, update and delete. */
module Budgets {
  import opened Wrappers
  import opened Collections
  import opened Store

  /** A category as listed, with its items. */
  datatype BudgetView = BudgetView(budget: Budget, items: seq<BudgetItem>)

  /** The request body of the item PUT; an absent field is left out of the write. */
  datatype ItemInput = ItemInput(name: Option<string>, expectedAmount: Option<int>, actualAmount: Option<int>)

  /** The position a new category takes (the column's default). */
  const DefaultOrder := 0

  function WorkspaceBudgets(budgets: seq<Budget>, workspaceId: Id): (r: seq<Budget>)
    ensures forall x :: x in r <==> x in budgets && x.workspaceId == workspaceId
  {
    Filter(budgets, (b: Budget) => b.workspaceId == workspaceId)
  }

  function ItemsOf(items: seq<BudgetItem>, budgetId: Id): seq<BudgetItem> {
    Filter(items, (i: BudgetItem) => i.budgetId == budgetId)
  }

  /** Sort key for `orderBy: { order: 'asc' }`. */
  function ByOrder(b: Budget): int { b.order }

  /** Sort key for `orderBy: { createdAt: 'asc' }`. */
  function OldestFirst(i: BudgetItem): int { i.createdAt }

  function Categories(r: seq<BudgetView>): (bs: seq<Budget>)
    ensures |bs| == |r| && forall i :: 0 <= i < |r| ==> bs[i] == r[i].budget
  {
    seq(|r|, i requires 0 <= i < |r| => r[i].budget)
  }

  /** Each category joined with exactly its own items, oldest first. */
  function WithItems(bs: seq<Budget>, items: seq<BudgetItem>): (r: seq<BudgetView>)
    ensures Categories(r) == bs
    ensures forall i :: 0 <= i < |r| ==> multiset(r[i].items) == multiset(ItemsOf(items, r[i].budget.id))
    ensures forall i, j, k :: 0 <= i < |r| && 0 <= j < k < |r[i].items| ==> r[i].items[j].createdAt <= r[i].items[k].createdAt
  {
    var r := seq(|bs|, i requires 0 <= i < |bs| => BudgetView(bs[i], SortBy(ItemsOf(items, bs[i].id), OldestFirst)));
    assert Categories(r) == bs;
    r
  }

  /** GET /workspaces/:workspaceId/budgets. A member gets the workspace's categories in `order`, each
      with its items oldest first; anyone else gets an empty list. */
  function ListBudgets(budgets: seq<Budget>, items: seq<BudgetItem>, memberships: seq<Membership>, workspaceId: Id, userId: Id): (r: seq<BudgetView>)
    ensures !IsMember(memberships, workspaceId, userId) ==> r == []
    ensures IsMember(memberships, workspaceId, userId) ==> multiset(Categories(r)) == multiset(WorkspaceBudgets(budgets, workspaceId))
    ensures forall b :: b in Categories(r) ==> b in budgets && b.workspaceId == workspaceId
    ensures forall i, j :: 0 <= i < j < |r| ==> r[i].budget.order <= r[j].budget.order
    ensures forall i :: 0 <= i < |r| ==> multiset(r[i].items) == multiset(ItemsOf(items, r[i].budget.id))
    ensures forall i, j, k :: 0 <= i < |r| && 0 <= j < k < |r[i].items| ==> r[i].items[j].createdAt <= r[i].items[k].createdAt
  {
    if !IsMember(memberships, workspaceId, userId) then []
    else
      var own := WorkspaceBudgets(budgets, workspaceId);
      var sorted := SortBy(own, ByOrder);
      var r := WithItems(sorted, items);
      SameRows(sorted, own);
      r
  }

  /** The item row a PUT leaves: supplied fields replaced, the id, category and creation time kept. */
  function PatchItem(i: BudgetItem, input: ItemInput): (r: BudgetItem)
    ensures r.id == i.id && r.budgetId == i.budgetId && r.createdAt == i.createdAt
    ensures input.name.Some? ==> r.name == input.name.value
    ensures input.name.None? ==> r.name == i.name
    ensures input.expectedAmount.Some? ==> r.expectedAmount == input.expectedAmount.value
    ensures input.expectedAmount.None? ==> r.expectedAmount == i.expectedAmount
    ensures input.actualAmount.Some? ==> r.actualAmount == input.actualAmount.value
    ensures input.actualAmount.None? ==> r.actualAmount == i.actualAmount
    ensures input == ItemInput(None, None, None) ==> r == i
  {
    BudgetItem(i.id, i.budgetId, input.name.GetOr(i.name), input.expectedAmount.GetOr(i.expectedAmount),
               input.actualAmount.GetOr(i.actualAmount), i.createdAt)
  }

  /** POST /workspaces/:workspaceId/budgets. No membership check. A missing or empty category is refused
      (400); otherwise one category is added under the route's workspace (201). */
  method CreateBudget(db: Db, workspaceId: Id, category: Option<string>) returns (status: int, created: Option<Budget>)
    requires db.Valid()
    modifies db`budgets, db`nextId
    ensures db.Valid()
    ensures status == 400 <==> !Truthy(category)
    ensures status == 400 ==> created == None && db.budgets == old(db.budgets) && db.nextId == old(db.nextId)
    ensures status != 400 ==> (
      status == 201 && created == Some(Budget(old(db.nextId), workspaceId, category.value, DefaultOrder)) &&
      db.budgets == old(db.budgets) + [created.value] && db.nextId == old(db.nextId) + 1)
  {
    if !Truthy(category) {
      return 400, None;
    }
    var b := Budget(db.nextId, workspaceId, category.value, DefaultOrder);
    db.RaiseKeepsBelow();
    AppendFresh(db.budgets, BudgetId, db.nextId, b);
    db.budgets, db.nextId := db.budgets + [b], db.nextId + 1;
    return 201, Some(b);
  }

  /** DELETE /budgets/:budgetId. No membership check. A missing category makes the store fail (500);
      otherwise exactly that category row is removed (204). */
  method DeleteBudget(db: Db, budgetId: Id) returns (status: int)
    requires db.Valid()
    modifies db`budgets
    ensures db.Valid()
    ensures status == 500 <==> FindByKey(old(db.budgets), BudgetId, budgetId).None?
    ensures status == 500 ==> db.budgets == old(db.budgets)
    ensures status != 500 ==> (
      status == 204 && |db.budgets| == |old(db.budgets)| - 1 &&
      forall b :: b in db.budgets <==> b in old(db.budgets) && b.id != budgetId)
  {
    var k := IndexOfKey(db.budgets, BudgetId, budgetId);
    if k.None? {
      return 500;
    }
    RemoveKeyed(db.budgets, BudgetId, k.value);
    BelowRemoveAt(db.budgets, BudgetId, db.nextId, k.value);
    db.budgets := RemoveAt(db.budgets, k.value);
    return 204;
  }

  /** POST /budgets/:budgetId/items. No membership check. A missing or empty name is refused (400);
      otherwise one item is added under the route's category, expected amount 0 unless given, actual
      amount 0 (201). */
  method CreateItem(db: Db, budgetId: Id, name: Option<string>, expectedAmount: Option<int>, now: int)
    returns (status: int, created: Option<BudgetItem>)
    requires db.Valid()
    modifies db`items, db`nextId
    ensures db.Valid()
    ensures status == 400 <==> !Truthy(name)
    ensures status == 400 ==> created == None && db.items == old(db.items) && db.nextId == old(db.nextId)
    ensures status != 400 ==> (
      status == 201 && created == Some(BudgetItem(old(db.nextId), budgetId, name.value, expectedAmount.GetOr(0), 0, now)) &&
      db.items == old(db.items) + [created.value] && db.nextId == old(db.nextId) + 1)
  {
    if !Truthy(name) {
      return 400, None;
    }
    var i := BudgetItem(db.nextId, budgetId, name.value, expectedAmount.GetOr(0), 0, now);
    db.RaiseKeepsBelow();
    AppendFresh(db.items, ItemId, db.nextId, i);
    db.items, db.nextId := db.items + [i], db.nextId + 1;
    return 201, Some(i);
  }

  /** PUT /budget-items/:itemId. No membership check. A missing item makes the store fail (500) and
      nothing changes; otherwise exactly that item is patched (200). */
  method UpdateItem(db: Db, itemId: Id, input: ItemInput) returns (status: int, updated: Option<BudgetItem>)
    requires db.Valid()
    modifies db`items
    ensures db.Valid()
    ensures status == 500 <==> FindByKey(old(db.items), ItemId, itemId).None?
    ensures status == 500 ==> updated == None && db.items == old(db.items)
    ensures status != 500 ==> (
      status == 200 &&
      updated == Some(PatchItem(FindByKey(old(db.items), ItemId, itemId).value, input)) &&
      FindByKey(db.items, ItemId, itemId) == updated)
    ensures |db.items| == |old(db.items)|
    ensures forall i :: 0 <= i < |db.items| ==>
      db.items[i] == if old(db.items)[i].id == itemId then PatchItem(old(db.items)[i], input) else old(db.items)[i]
  {
    var k := IndexOfKey(db.items, ItemId, itemId);
    if k.None? {
      return 500, None;
    }
    var i := PatchItem(db.items[k.value], input);
    FindByKeyDistinct(db.items, ItemId, db.items[k.value]);
    ReplaceKeyed(db.items, ItemId, k.value, i);
    FindByKeyReplace(db.items, ItemId, k.value, i, itemId);
    db.items := db.items[k.value := i];
    return 200, Some(i);
  }

  /** DELETE /budget-items/:itemId. No membership check. A missing item makes the store fail (500);
      otherwise exactly that item is removed (204). */
  method DeleteItem(db: Db, itemId: Id) returns (status: int)
    requires db.Valid()
    modifies db`items
    ensures db.Valid()
    ensures status == 500 <==> FindByKey(old(db.items), ItemId, itemId).None?
    ensures status == 500 ==> db.items == old(db.items)
    ensures status != 500 ==> (
      status == 204 && |db.items| == |old(db.items)| - 1 &&
      forall i :: i in db.items <==> i in old(db.items) && i.id != itemId)
  {
    var k := IndexOfKey(db.items, ItemId, itemId);
    if k.None? {
      return 500;
    }
    RemoveKeyed(db.items, ItemId, k.value);
    BelowRemoveAt(db.items, ItemId, db.nextId, k.value);
    db.items := RemoveAt(db.items, k.value);
    return 204;
  }
}
