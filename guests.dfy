/** The guest routes: list (members only, newest first), create, update and delete by id. */
module Guests {
  import opened Wrappers
  import opened Collections
  import opened Store

  /** The request body of POST and PUT; an absent field is left out of the write. */
  datatype GuestInput = GuestInput(name: Option<string>, phone: Option<string>, side: Option<string>, status: Option<string>)

  const DefaultStatus := "pending"

  function WorkspaceGuests(guests: seq<Guest>, workspaceId: Id): (r: seq<Guest>)
    ensures forall x :: x in r <==> x in guests && x.workspaceId == workspaceId
  {
    Filter(guests, (g: Guest) => g.workspaceId == workspaceId)
  }

  /** Sort key for `orderBy: { createdAt: 'desc' }`. */
  function NewestFirst(g: Guest): int { -g.createdAt }

  /** GET /workspaces/:workspaceId/guests. A member gets all of the workspace's guests, newest first;
      anyone else gets an empty list. */
  function ListGuests(guests: seq<Guest>, memberships: seq<Membership>, workspaceId: Id, userId: Id): (r: seq<Guest>)
    ensures !IsMember(memberships, workspaceId, userId) ==> r == []
    ensures IsMember(memberships, workspaceId, userId) ==> multiset(r) == multiset(WorkspaceGuests(guests, workspaceId))
    ensures forall g :: g in r <==> IsMember(memberships, workspaceId, userId) && g in guests && g.workspaceId == workspaceId
    ensures forall i, j :: 0 <= i < j < |r| ==> r[i].createdAt >= r[j].createdAt
  {
    if !IsMember(memberships, workspaceId, userId) then []
    else
      var r := SortBy(WorkspaceGuests(guests, workspaceId), NewestFirst);
      assert forall g :: g in r <==> g in multiset(r);
      r
  }

  /** The row a PUT leaves: supplied fields replaced, the rest, the id, workspace and creation time kept. */
  function PatchGuest(g: Guest, input: GuestInput): (r: Guest)
    ensures r.id == g.id && r.workspaceId == g.workspaceId && r.createdAt == g.createdAt
    ensures input.name.Some? ==> r.name == input.name.value
    ensures input.name.None? ==> r.name == g.name
    ensures input.phone.Some? ==> r.phone == input.phone
    ensures input.phone.None? ==> r.phone == g.phone
    ensures input.side.Some? ==> r.side == input.side.value
    ensures input.side.None? ==> r.side == g.side
    ensures input.status.Some? ==> r.status == input.status.value
    ensures input.status.None? ==> r.status == g.status
    ensures input == GuestInput(None, None, None, None) ==> r == g
  {
    Guest(g.id, g.workspaceId, input.name.GetOr(g.name), if input.phone.Some? then input.phone else g.phone,
          input.side.GetOr(g.side), input.status.GetOr(g.status), g.createdAt)
  }

  /** POST /workspaces/:workspaceId/guests. A missing or empty name or side is refused (400) and nothing
      is written; otherwise one guest is added under the route's workspace, status `pending` unless
      given (201). */
  method CreateGuest(db: Db, workspaceId: Id, input: GuestInput, now: int) returns (status: int, created: Option<Guest>)
    requires db.Valid()
    modifies db`guests, db`nextId
    ensures db.Valid()
    ensures status == 400 <==> !Truthy(input.name) || !Truthy(input.side)
    ensures status == 400 ==> created == None && db.guests == old(db.guests) && db.nextId == old(db.nextId)
    ensures status != 400 ==> (
      status == 201 && created.Some? &&
      created.value == Guest(old(db.nextId), workspaceId, input.name.value, input.phone, input.side.value,
                             OrElse(input.status, DefaultStatus), now) &&
      db.guests == old(db.guests) + [created.value] && db.nextId == old(db.nextId) + 1)
  {
    if !Truthy(input.name) || !Truthy(input.side) {
      return 400, None;
    }
    var g := Guest(db.nextId, workspaceId, input.name.value, input.phone, input.side.value,
                   OrElse(input.status, DefaultStatus), now);
    db.RaiseKeepsBelow();
    AppendFresh(db.guests, GuestId, db.nextId, g);
    db.guests, db.nextId := db.guests + [g], db.nextId + 1;
    return 201, Some(g);
  }

  /** PUT /guests/:guestId. No membership check. A missing guest makes the store fail (500) and nothing
      changes; otherwise exactly that guest is patched (200). */
  method UpdateGuest(db: Db, guestId: Id, input: GuestInput) returns (status: int, updated: Option<Guest>)
    requires db.Valid()
    modifies db`guests
    ensures db.Valid()
    ensures status == 500 <==> FindByKey(old(db.guests), GuestId, guestId).None?
    ensures status == 500 ==> updated == None && db.guests == old(db.guests)
    ensures status != 500 ==> (
      status == 200 &&
      updated == Some(PatchGuest(FindByKey(old(db.guests), GuestId, guestId).value, input)) &&
      FindByKey(db.guests, GuestId, guestId) == updated)
    ensures |db.guests| == |old(db.guests)|
    ensures forall i :: 0 <= i < |db.guests| ==>
      db.guests[i] == if old(db.guests)[i].id == guestId then PatchGuest(old(db.guests)[i], input) else old(db.guests)[i]
  {
    var k := IndexOfKey(db.guests, GuestId, guestId);
    if k.None? {
      return 500, None;
    }
    var g := PatchGuest(db.guests[k.value], input);
    FindByKeyDistinct(db.guests, GuestId, db.guests[k.value]);
    ReplaceKeyed(db.guests, GuestId, k.value, g);
    FindByKeyReplace(db.guests, GuestId, k.value, g, guestId);
    db.guests := db.guests[k.value := g];
    return 200, Some(g);
  }

  /** DELETE /guests/:guestId. No membership check. A missing guest makes the store fail (500);
      otherwise exactly that guest is removed (204). */
  method DeleteGuest(db: Db, guestId: Id) returns (status: int)
    requires db.Valid()
    modifies db`guests
    ensures db.Valid()
    ensures status == 500 <==> FindByKey(old(db.guests), GuestId, guestId).None?
    ensures status == 500 ==> db.guests == old(db.guests)
    ensures status != 500 ==> (
      status == 204 && |db.guests| == |old(db.guests)| - 1 &&
      forall g :: g in db.guests <==> g in old(db.guests) && g.id != guestId)
  {
    var k := IndexOfKey(db.guests, GuestId, guestId);
    if k.None? {
      return 500;
    }
    RemoveKeyed(db.guests, GuestId, k.value);
    BelowRemoveAt(db.guests, GuestId, db.nextId, k.value);
    db.guests := RemoveAt(db.guests, k.value);
    return 204;
  }
}
