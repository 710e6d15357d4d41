/** The note routes: list (members only, most recently updated first, with attachments), create with
    media links, delete by id. */
module Notes {
  import opened Wrappers
  import opened Collections
  import opened Store

  /** A note as returned, with its attached media rows. */
  datatype NoteView = NoteView(note: Note, attachments: seq<Media>)

  function WorkspaceNotes(notes: seq<Note>, workspaceId: Id): (r: seq<Note>)
    ensures forall x :: x in r <==> x in notes && x.workspaceId == workspaceId
  {
    Filter(notes, (n: Note) => n.workspaceId == workspaceId)
  }

  /** `include: { attachments: true }`: the media rows linked to the note. */
  function AttachmentsOf(media: seq<Media>, n: Note): (r: seq<Media>)
    ensures forall m :: m in r <==> m in media && m.id in n.attachments
    ensures forall m :: multiset(r)[m] == if m.id in n.attachments then multiset(media)[m] else 0
  {
    FilterMultiset(media, (m: Media) => m.id in n.attachments);
    Filter(media, (m: Media) => m.id in n.attachments)
  }

  /** Sort key for `orderBy: { updatedAt: 'desc' }`. */
  function RecentFirst(n: Note): int { -n.updatedAt }

  function NotesOf(r: seq<NoteView>): (ns: seq<Note>)
    ensures |ns| == |r| && forall i :: 0 <= i < |r| ==> ns[i] == r[i].note
  {
    seq(|r|, i requires 0 <= i < |r| => r[i].note)
  }

  /** Each note joined with exactly its linked media. */
  function WithAttachments(ns: seq<Note>, media: seq<Media>): (r: seq<NoteView>)
    ensures NotesOf(r) == ns
    ensures forall i, m :: 0 <= i < |r| ==> (m in r[i].attachments <==> m in media && m.id in r[i].note.attachments)
    ensures forall i, m :: 0 <= i < |r| ==>
      multiset(r[i].attachments)[m] == if m.id in r[i].note.attachments then multiset(media)[m] else 0
  {
    var r := seq(|ns|, i requires 0 <= i < |ns| => NoteView(ns[i], AttachmentsOf(media, ns[i])));
    assert NotesOf(r) == ns;
    r
  }

  /** GET /workspaces/:workspaceId/notes. A member gets the workspace's notes, most recently updated
      first, each with exactly its linked media; anyone else gets an empty list. */
  function ListNotes(notes: seq<Note>, media: seq<Media>, memberships: seq<Membership>, workspaceId: Id, userId: Id): (r: seq<NoteView>)
    ensures !IsMember(memberships, workspaceId, userId) ==> r == []
    ensures IsMember(memberships, workspaceId, userId) ==> multiset(NotesOf(r)) == multiset(WorkspaceNotes(notes, workspaceId))
    ensures forall n :: n in NotesOf(r) ==> n in notes && n.workspaceId == workspaceId
    ensures forall i, j :: 0 <= i < j < |r| ==> r[i].note.updatedAt >= r[j].note.updatedAt
    ensures forall i, m :: 0 <= i < |r| ==> (m in r[i].attachments <==> m in media && m.id in r[i].note.attachments)
    ensures forall i, m :: 0 <= i < |r| ==>
      multiset(r[i].attachments)[m] == if m.id in r[i].note.attachments then multiset(media)[m] else 0
  {
    if !IsMember(memberships, workspaceId, userId) then []
    else
      var own := WorkspaceNotes(notes, workspaceId);
      var sorted := SortBy(own, RecentFirst);
      var r := WithAttachments(sorted, media);
      SameRows(sorted, own);
      r
  }

  /** `connect: mediaIds?.map(id => ({ id }))`: the ids to link, or None when one of them names no
      media row (the store then fails the whole create). The media's workspace is not looked at. */
  function Connect(media: seq<Media>, mediaIds: Option<seq<Id>>): (r: Option<set<Id>>)
    ensures mediaIds.None? ==> r == Some({})
    ensures r.None? <==> mediaIds.Some? && exists id :: id in mediaIds.value && FindByKey(media, MediaId, id).None?
    ensures r.Some? ==> forall id :: id in r.value <==> mediaIds.Some? && id in mediaIds.value
    ensures r.Some? ==> forall id :: id in r.value ==> exists m :: m in media && m.id == id
  {
    if mediaIds.None? then Some({})
    else if forall id :: id in mediaIds.value ==> FindByKey(media, MediaId, id).Some? then
      Some(set id | id in mediaIds.value)
    else None
  }

  /** A note may be linked to a media row of another workspace: nothing in the create path compares
      the two workspaces. */
  lemma ForeignMediaAttaches(media: seq<Media>, m: Media, workspaceId: Id, content: string, now: int)
    requires m in media && m.workspaceId != workspaceId
    ensures Connect(media, Some([m.id])) == Some({m.id})
    ensures m in AttachmentsOf(media, Note(0, workspaceId, content, {m.id}, now, now))
  {
    assert FindByKey(media, MediaId, m.id).Some?;
    assert forall id :: id in [m.id] ==> FindByKey(media, MediaId, id).Some?;
    var r := Connect(media, Some([m.id]));
    assert r.Some?;
    assert forall id :: id in r.value <==> id in {m.id};
    assert r.value == {m.id};
  }

  /** POST /workspaces/:workspaceId/notes. No membership check. A missing or empty content is refused
      (400); a media id that names no media row makes the store fail (500) and nothing is written;
      otherwise one note is added under the route's workspace, linked to exactly the given media (201). */
  method CreateNote(db: Db, workspaceId: Id, content: Option<string>, mediaIds: Option<seq<Id>>, now: int)
    returns (status: int, created: Option<NoteView>)
    requires db.Valid()
    modifies db`notes, db`nextId
    ensures db.Valid()
    ensures status == 400 <==> !Truthy(content)
    ensures status == 500 <==> Truthy(content) && Connect(db.media, mediaIds).None?
    ensures status == 400 || status == 500 ==> created == None && db.notes == old(db.notes) && db.nextId == old(db.nextId)
    ensures status != 400 && status != 500 ==> (
      var n := Note(old(db.nextId), workspaceId, content.value, Connect(db.media, mediaIds).value, now, now);
      status == 201 && created == Some(NoteView(n, AttachmentsOf(db.media, n))) &&
      db.notes == old(db.notes) + [n] && db.nextId == old(db.nextId) + 1)
  {
    if !Truthy(content) {
      return 400, None;
    }
    var linked := Connect(db.media, mediaIds);
    if linked.None? {
      return 500, None;
    }
    var n := Note(db.nextId, workspaceId, content.value, linked.value, now, now);
    db.RaiseKeepsBelow();
    AppendFresh(db.notes, NoteId, db.nextId, n);
    db.notes, db.nextId := db.notes + [n], db.nextId + 1;
    return 201, Some(NoteView(n, AttachmentsOf(db.media, n)));
  }

  /** DELETE /notes/:noteId. No permission check of any kind. A missing note makes the store fail (500);
      otherwise exactly that note is removed (204). */
  method DeleteNote(db: Db, noteId: Id) returns (status: int)
    requires db.Valid()
    modifies db`notes
    ensures db.Valid()
    ensures status == 500 <==> FindByKey(old(db.notes), NoteId, noteId).None?
    ensures status == 500 ==> db.notes == old(db.notes)
    ensures status != 500 ==> (
      status == 204 && |db.notes| == |old(db.notes)| - 1 &&
      forall n :: n in db.notes <==> n in old(db.notes) && n.id != noteId)
  {
    var k := IndexOfKey(db.notes, NoteId, noteId);
    if k.None? {
      return 500;
    }
    RemoveKeyed(db.notes, NoteId, k.value);
    BelowRemoveAt(db.notes, NoteId, db.nextId, k.value);
    db.notes := RemoveAt(db.notes, k.value);
    return 204;
  }
}
