/** The directory store of src/db.ts: the entry table, the cookie table, the like table and
    the migration ledger, as one object whose tables the operations update in place.
    Read-only queries are functions over the table values. */
module Db {
  import opened Common
  import opened Text

  /** One row of the `entries` table. Timestamps are readings of an abstract clock. */
  datatype Entry = Entry(
    id: nat,
    url: string,
    name: string,
    description: string,
    thumbnail: Option<Bytes>,
    thumbnailMime: Option<string>,
    owner: string,
    createdAt: nat,
    updatedAt: nat)

  /** One row of the `likes` table; the pair is its primary key. */
  datatype Like = Like(entryId: int, account: string)

  /** The optional fields `updateEntry` accepts. */
  datatype Updates = Updates(description: Option<string>, thumbnail: Option<Bytes>, thumbnailMime: Option<string>)

  /** What `getThumbnail` returns. */
  datatype Thumbnail = Thumbnail(data: Bytes, mime: Option<string>)

  /** One row of the ranked projection: the entry without its bytes, its like count and the
      derived thumbnail URL. */
  datatype EntryWithLikes = EntryWithLikes(
    id: nat,
    url: string,
    name: string,
    description: string,
    thumbnailMime: Option<string>,
    owner: string,
    createdAt: nat,
    updatedAt: nat,
    likes: nat,
    thumbnailUrl: Option<string>)

  /** An INSERT the storage layer rejects (a UNIQUE or PRIMARY KEY constraint). */
  datatype DbError = ConstraintViolation

  /** What `deleteEntry` returns. */
  datatype DeleteOutcome = DeleteOutcome(success: bool, error: Option<string>)

  const EntryNotFound := "Entry not found"
  const NotAuthorizedToDelete := "Not authorized to delete this entry"

  // ---------------------------------------------------------------- table invariants

  /** Rows are kept in rowid order, and AUTOINCREMENT hands out increasing ids. */
  predicate IdsIncreasing(entries: seq<Entry>) {
    forall i, j :: 0 <= i < j < |entries| ==> entries[i].id < entries[j].id
  }

  /** Every id handed out so far is positive and below the next one to hand out. */
  predicate IdsBelow(entries: seq<Entry>, nextId: nat) {
    0 < nextId && forall i :: 0 <= i < |entries| ==> 0 < entries[i].id < nextId
  }

  /** `url TEXT UNIQUE`. */
  predicate UrlsUnique(entries: seq<Entry>) {
    forall i, j :: 0 <= i < j < |entries| ==> entries[i].url != entries[j].url
  }

  predicate HasEntry(entries: seq<Entry>, id: int) {
    exists i :: 0 <= i < |entries| && entries[i].id == id
  }

  /** `FOREIGN KEY (entry_id) REFERENCES entries(id)`. */
  predicate LikesReferenceEntries(entries: seq<Entry>, likes: set<Like>) {
    forall l :: l in likes ==> HasEntry(entries, l.entryId)
  }

  predicate WellFormed(entries: seq<Entry>, likes: set<Like>, nextId: nat) {
    IdsIncreasing(entries) && IdsBelow(entries, nextId) && UrlsUnique(entries)
    && LikesReferenceEntries(entries, likes)
  }

  // ---------------------------------------------------------------- lookups

  /** `getEntryByUrl`: the row whose url is `url`, if any. */
  function GetEntryByUrl(entries: seq<Entry>, url: string): (r: Option<Entry>)
    ensures r.Some? <==> exists i :: 0 <= i < |entries| && entries[i].url == url
    ensures r.Some? ==> r.value in entries && r.value.url == url
  {
    if entries == [] then None
    else if entries[0].url == url then Some(entries[0])
    else GetEntryByUrl(entries[1..], url)
  }

  /** `getEntryById`: the row whose id is `id`, if any. */
  function GetEntryById(entries: seq<Entry>, id: int): (r: Option<Entry>)
    ensures r.Some? <==> HasEntry(entries, id)
    ensures r.Some? ==> r.value in entries && r.value.id == id
  {
    if entries == [] then None
    else if entries[0].id == id then Some(entries[0])
    else
      var r := GetEntryById(entries[1..], id);
      assert HasEntry(entries[1..], id) ==> HasEntry(entries, id) by {
        if HasEntry(entries[1..], id) {
          var i :| 0 <= i < |entries[1..]| && entries[1..][i].id == id;
          assert entries[i + 1].id == id;
        }
      }
      r
  }

  /** The position of the row whose url is `url`, or -1. */
  function IndexOfUrl(entries: seq<Entry>, url: string): (k: int)
    ensures -1 <= k < |entries|
    ensures k >= 0 ==> entries[k].url == url
    ensures k < 0 <==> GetEntryByUrl(entries, url).None?
  {
    if entries == [] then -1
    else if entries[0].url == url then 0
    else
      var k := IndexOfUrl(entries[1..], url);
      if k < 0 then -1 else k + 1
  }

  /** With unique urls the row found by url sits at the found position. */
  lemma EntryAtIndexOfUrl(entries: seq<Entry>, url: string)
    requires UrlsUnique(entries)
    requires GetEntryByUrl(entries, url).Some?
    ensures GetEntryByUrl(entries, url) == Some(entries[IndexOfUrl(entries, url)])
  {
    var k := IndexOfUrl(entries, url);
    var e := GetEntryByUrl(entries, url).value;
    var i :| 0 <= i < |entries| && entries[i] == e;
    if i != k {
      assert entries[i].url == entries[k].url;
    }
  }

  /** A row appended with a fresh url and an id above all others is found both ways. */
  lemma {:induction false} LookupAppended(entries: seq<Entry>, e: Entry)
    requires GetEntryByUrl(entries, e.url).None?
    requires forall i :: 0 <= i < |entries| ==> entries[i].id < e.id
    ensures GetEntryByUrl(entries + [e], e.url) == Some(e)
    ensures GetEntryById(entries + [e], e.id) == Some(e)
  {
    if entries != [] {
      assert (entries + [e])[1..] == entries[1..] + [e];
      LookupAppended(entries[1..], e);
    }
  }

  /** Appending a row leaves the lookup of every other url unchanged. */
  lemma {:induction false} LookupOtherUrl(entries: seq<Entry>, e: Entry, url: string)
    requires url != e.url
    ensures GetEntryByUrl(entries + [e], url) == GetEntryByUrl(entries, url)
  {
    if entries != [] {
      assert (entries + [e])[1..] == entries[1..] + [e];
      LookupOtherUrl(entries[1..], e, url);
    }
  }

  // ---------------------------------------------------------------- likes

  function LikesOf(likes: set<Like>, id: int): set<Like> {
    set l | l in likes && l.entryId == id
  }

  /** `getLikeCount`: `COUNT(*)` of the likes carrying `id`, 0 when there are none. */
  function GetLikeCount(likes: set<Like>, id: int): nat {
    |LikesOf(likes, id)|
  }

  /** `hasLiked`. */
  predicate HasLiked(likes: set<Like>, id: int, account: string) {
    Like(id, account) in likes
  }

  /** An entry has a like exactly when some account has liked it, and each account that has
      contributes one to its count. */
  lemma LikedCounted(likes: set<Like>, id: int, account: string)
    ensures HasLiked(likes, id, account) ==> GetLikeCount(likes, id) >= 1
    ensures GetLikeCount(likes, id) >= 1 ==> exists a :: HasLiked(likes, id, a)
    ensures GetLikeCount(likes - {Like(id, account)}, id) + (if HasLiked(likes, id, account) then 1 else 0)
            == GetLikeCount(likes, id)
  {
    var s := LikesOf(likes, id);
    if HasLiked(likes, id, account) {
      assert Like(id, account) in s;
      assert LikesOf(likes - {Like(id, account)}, id) == s - {Like(id, account)};
    } else {
      assert LikesOf(likes - {Like(id, account)}, id) == s;
    }
    if GetLikeCount(likes, id) >= 1 {
      var l :| l in s;
      assert HasLiked(likes, id, l.account);
    }
  }

  /** Inserting one like raises the count of its entry by one when the pair is new, and
      changes no other count. */
  lemma LikeCountAfterInsert(likes: set<Like>, l: Like, id: int)
    ensures GetLikeCount(likes + {l}, id)
         == GetLikeCount(likes, id) + (if l.entryId == id && l !in likes then 1 else 0)
  {
    if l.entryId == id && l !in likes {
      assert LikesOf(likes + {l}, id) == LikesOf(likes, id) + {l};
    } else {
      assert LikesOf(likes + {l}, id) == LikesOf(likes, id);
    }
  }

  /** The likes that survive deleting entry `id`. */
  function LikesWithout(likes: set<Like>, id: int): (r: set<Like>)
    ensures r <= likes
  {
    set l | l in likes && l.entryId != id
  }

  /** After the cascade no like carries the deleted id, and every other count is unchanged. */
  lemma LikeCountAfterCascade(likes: set<Like>, deleted: int, id: int)
    ensures GetLikeCount(LikesWithout(likes, deleted), id)
         == if id == deleted then 0 else GetLikeCount(likes, id)
  {
    if id == deleted {
      assert LikesOf(LikesWithout(likes, deleted), id) == {};
    } else {
      assert LikesOf(LikesWithout(likes, deleted), id) == LikesOf(likes, id);
    }
  }

  /** A like never counted for entry `id` if no like carries `id`. */
  lemma LikeCountZero(likes: set<Like>, id: int)
    requires forall l :: l in likes ==> l.entryId != id
    ensures GetLikeCount(likes, id) == 0
  {
    assert LikesOf(likes, id) == {};
  }

  // ---------------------------------------------------------------- cookies

  /** `getAtxpAccountFromCookie`: `result?.atxp_account || null`, so an unknown token and an
      empty account both give nothing. */
  function GetAccountFromCookie(cookies: map<string, string>, token: string): (r: Option<string>)
    ensures r.Some? <==> token in cookies && cookies[token] != ""
    ensures r.Some? ==> r.value == cookies[token]
  {
    if token in cookies && cookies[token] != "" then Some(cookies[token]) else None
  }

  // ---------------------------------------------------------------- thumbnails

  /** `getThumbnail`: `WHERE id = ? AND thumbnail IS NOT NULL`. */
  function GetThumbnail(entries: seq<Entry>, id: int): (t: Option<Thumbnail>)
    ensures t.None? <==> !HasEntry(entries, id) || GetEntryById(entries, id).value.thumbnail.None?
    ensures t.Some? ==> (t.value.data == GetEntryById(entries, id).value.thumbnail.value
                         && t.value.mime == GetEntryById(entries, id).value.thumbnailMime)
  {
    match GetEntryById(entries, id)
    case None => None
    case Some(e) => if e.thumbnail.Some? then Some(Thumbnail(e.thumbnail.value, e.thumbnailMime)) else None
  }

  const ThumbnailPath := "/thumbnails/"

  /** The `thumbnailUrl` of the ranked projection: nothing unless a non-empty MIME type is set,
      otherwise a path naming the entry's id with its last update as cache-busting version. */
  function ThumbnailUrl(e: Entry): (u: Option<string>)
    ensures u.None? <==> e.thumbnailMime.None? || e.thumbnailMime.value == ""
    ensures u.Some? ==> StartsWith(u.value, ThumbnailPath + NatToString(e.id) + "?v=")
  {
    if e.thumbnailMime.Some? && e.thumbnailMime.value != "" then
      var prefix := ThumbnailPath + NatToString(e.id) + "?v=";
      var u := prefix + NatToString(e.updatedAt);
      assert u[..|prefix|] == prefix;
      Some(u)
    else None
  }

  // ---------------------------------------------------------------- ranked projection

  function RankRow(e: Entry, likes: set<Like>): EntryWithLikes {
    EntryWithLikes(e.id, e.url, e.name, e.description, e.thumbnailMime, e.owner,
                   e.createdAt, e.updatedAt, GetLikeCount(likes, e.id), ThumbnailUrl(e))
  }

  /** The LEFT JOIN ... GROUP BY e.id: one row per entry, in table order. */
  function JoinedRows(entries: seq<Entry>, likes: set<Like>): (rows: seq<EntryWithLikes>)
    ensures |rows| == |entries|
    ensures forall i :: 0 <= i < |entries| ==> rows[i] == RankRow(entries[i], likes)
  {
    if entries == [] then [] else [RankRow(entries[0], likes)] + JoinedRows(entries[1..], likes)
  }

  /** `ORDER BY likes DESC, e.created_at DESC`: may `a` come before `b`? */
  predicate RankedBefore(a: EntryWithLikes, b: EntryWithLikes) {
    a.likes > b.likes || (a.likes == b.likes && a.createdAt >= b.createdAt)
  }

  predicate Ranked(rows: seq<EntryWithLikes>) {
    forall i, j :: 0 <= i < j < |rows| ==> RankedBefore(rows[i], rows[j])
  }

  /** A row that may precede every row of a ranked sequence can be put in front of it. */
  lemma RankedCons(x: EntryWithLikes, rows: seq<EntryWithLikes>)
    requires Ranked(rows)
    requires forall j :: 0 <= j < |rows| ==> RankedBefore(x, rows[j])
    ensures Ranked([x] + rows)
  {
    var r := [x] + rows;
    forall i, j | 0 <= i < j < |r| ensures RankedBefore(r[i], r[j]) {
      if i > 0 { assert r[i] == rows[i - 1] && r[j] == rows[j - 1]; }
      else { assert r[j] == rows[j - 1]; }
    }
  }

  /** Every element of a multiset that only holds elements of `rows` plus `x` is bounded below
      by a row that precedes both. */
  lemma BelowAll(y: EntryWithLikes, x: EntryWithLikes, rows: seq<EntryWithLikes>, tail: seq<EntryWithLikes>)
    requires forall j :: 0 <= j < |rows| ==> RankedBefore(y, rows[j])
    requires RankedBefore(y, x)
    requires multiset(tail) == multiset(rows) + multiset{x}
    ensures forall j :: 0 <= j < |tail| ==> RankedBefore(y, tail[j])
  {
    forall j | 0 <= j < |tail| ensures RankedBefore(y, tail[j]) {
      assert tail[j] in multiset(tail);
      if tail[j] != x {
        assert tail[j] in multiset(rows);
        var k :| 0 <= k < |rows| && rows[k] == tail[j];
      }
    }
  }

  /** Inserts one row into a ranked sequence. */
  function InsertRanked(x: EntryWithLikes, rows: seq<EntryWithLikes>): (r: seq<EntryWithLikes>)
    requires Ranked(rows)
    ensures Ranked(r)
    ensures multiset(r) == multiset(rows) + multiset{x}
  {
    if rows == [] || RankedBefore(x, rows[0]) then
      RankedCons(x, rows);
      [x] + rows
    else
      var tail := InsertRanked(x, rows[1..]);
      assert Ranked(rows[1..]) by {
        forall i, j | 0 <= i < j < |rows[1..]| ensures RankedBefore(rows[1..][i], rows[1..][j]) {
          assert rows[1..][i] == rows[i + 1] && rows[1..][j] == rows[j + 1];
        }
      }
      assert forall j :: 0 <= j < |rows[1..]| ==> RankedBefore(rows[0], rows[1..][j]) by {
        forall j | 0 <= j < |rows[1..]| ensures RankedBefore(rows[0], rows[1..][j]) {
          assert rows[1..][j] == rows[j + 1];
        }
      }
      BelowAll(rows[0], x, rows[1..], tail);
      RankedCons(rows[0], tail);
      assert rows == [rows[0]] + rows[1..];
      [rows[0]] + tail
  }

  /** Sorts rows into ranking order (insertion sort); rows that tie on both keys keep an order
      the source does not fix either. */
  function SortRanked(rows: seq<EntryWithLikes>): (r: seq<EntryWithLikes>)
    ensures Ranked(r)
    ensures multiset(r) == multiset(rows)
  {
    if rows == [] then []
    else
      assert rows == [rows[0]] + rows[1..];
      InsertRanked(rows[0], SortRanked(rows[1..]))
  }

  /** `getAllEntriesWithLikes`: the joined rows, ranked. */
  function GetAllEntriesWithLikes(entries: seq<Entry>, likes: set<Like>): (r: seq<EntryWithLikes>)
    ensures Ranked(r)
    ensures multiset(r) == multiset(JoinedRows(entries, likes))
  {
    SortRanked(JoinedRows(entries, likes))
  }

  /** The ranked projection has exactly one row per entry, each carrying that entry's like
      count and thumbnail URL, and nothing else. */
  lemma RankedProjection(entries: seq<Entry>, likes: set<Like>)
    requires IdsIncreasing(entries)
    ensures |GetAllEntriesWithLikes(entries, likes)| == |entries|
    ensures forall i :: 0 <= i < |entries| ==> RankRow(entries[i], likes) in GetAllEntriesWithLikes(entries, likes)
    ensures forall row :: row in GetAllEntriesWithLikes(entries, likes) ==>
              row.likes == GetLikeCount(likes, row.id) && GetEntryById(entries, row.id).Some?
              && row == RankRow(GetEntryById(entries, row.id).value, likes)
  {
    var r := GetAllEntriesWithLikes(entries, likes);
    var rows := JoinedRows(entries, likes);
    assert |r| == |multiset(r)| == |multiset(rows)| == |rows|;
    forall i | 0 <= i < |entries| ensures RankRow(entries[i], likes) in r {
      assert rows[i] in multiset(rows);
    }
    forall row | row in r
      ensures row.likes == GetLikeCount(likes, row.id) && GetEntryById(entries, row.id).Some?
           && row == RankRow(GetEntryById(entries, row.id).value, likes)
    {
      assert row in multiset(rows);
      var i :| 0 <= i < |rows| && rows[i] == row;
      assert HasEntry(entries, row.id);
      var e := GetEntryById(entries, row.id).value;
      var j :| 0 <= j < |entries| && entries[j] == e;
      assert entries[i].id == entries[j].id;
      assert i == j;
    }
  }

  /** The three-entry ranking example: equal likes go newest first, fewer likes last. */
  lemma RankingExample(a: EntryWithLikes, b: EntryWithLikes, c: EntryWithLikes)
    requires a.likes == 5 && b.likes == 5 && c.likes == 3
    requires a.createdAt < b.createdAt
    ensures Ranked([b, a, c])
    ensures !Ranked([a, b, c])
  {
    var wrong := [a, b, c];
    assert wrong[0] == a && wrong[1] == b;
    assert !RankedBefore(wrong[0], wrong[1]);
  }

  // ---------------------------------------------------------------- row edits

  /** The row `updateEntry` writes: `updated_at` is refreshed and each supplied field replaced. */
  function ApplyUpdates(e: Entry, u: Updates, now: nat): (r: Entry)
    ensures r.id == e.id && r.url == e.url && r.name == e.name && r.owner == e.owner
    ensures r.createdAt == e.createdAt && r.updatedAt == now
    ensures r.description == u.description.GetOr(e.description)
    ensures r.thumbnail == (if u.thumbnail.Some? then u.thumbnail else e.thumbnail)
    ensures r.thumbnailMime == (if u.thumbnailMime.Some? then u.thumbnailMime else e.thumbnailMime)
  {
    e.(updatedAt := now,
       description := u.description.GetOr(e.description),
       thumbnail := if u.thumbnail.Some? then u.thumbnail else e.thumbnail,
       thumbnailMime := if u.thumbnailMime.Some? then u.thumbnailMime else e.thumbnailMime)
  }

  /** The table after `UPDATE entries SET ... WHERE url = ?`. */
  function UpdateRows(entries: seq<Entry>, url: string, u: Updates, now: nat): (r: seq<Entry>)
    ensures |r| == |entries|
    ensures forall i :: 0 <= i < |r| ==> r[i].id == entries[i].id && r[i].url == entries[i].url
                                         && r[i].name == entries[i].name && r[i].owner == entries[i].owner
    ensures forall i :: 0 <= i < |r| && entries[i].url != url ==> r[i] == entries[i]
  {
    seq(|entries|, i requires 0 <= i < |entries| =>
      if entries[i].url == url then ApplyUpdates(entries[i], u, now) else entries[i])
  }

  /** `result.changes > 0` fails exactly when no row has the url, and then the table is as it was. */
  lemma UpdateRowsNoMatch(entries: seq<Entry>, url: string, u: Updates, now: nat)
    requires GetEntryByUrl(entries, url).None?
    ensures UpdateRows(entries, url, u, now) == entries
  {
  }

  /** With unique urls, the update touches only the row at the position of `url`. */
  lemma UpdateAtIndex(entries: seq<Entry>, k: int, u: Updates, now: nat)
    requires UrlsUnique(entries) && 0 <= k < |entries|
    ensures entries[k := ApplyUpdates(entries[k], u, now)] == UpdateRows(entries, entries[k].url, u, now)
  {
    assert forall i :: 0 <= i < |entries| && i != k ==> entries[i].url != entries[k].url;
  }

  /** An update keeps every id and url, hence every table invariant. */
  lemma UpdateRowsWellFormed(entries: seq<Entry>, likes: set<Like>, nextId: nat, url: string, u: Updates, now: nat)
    requires WellFormed(entries, likes, nextId)
    ensures WellFormed(UpdateRows(entries, url, u, now), likes, nextId)
  {
    var r := UpdateRows(entries, url, u, now);
    assert forall i :: 0 <= i < |r| ==> r[i].id == entries[i].id && r[i].url == entries[i].url;
    forall l | l in likes ensures HasEntry(r, l.entryId) {
      var i :| 0 <= i < |entries| && entries[i].id == l.entryId;
      assert r[i].id == entries[i].id;
    }
  }

  /** After an update by `url`, looking up any url finds the same row, updated when it is
      the row the update matched. */
  lemma {:induction false} LookupUpdated(entries: seq<Entry>, url: string, u: Updates, now: nat, key: string)
    ensures GetEntryByUrl(UpdateRows(entries, url, u, now), key) ==
              match GetEntryByUrl(entries, key)
              case None => None
              case Some(e) => Some(if key == url then ApplyUpdates(e, u, now) else e)
  {
    if entries != [] {
      assert UpdateRows(entries, url, u, now)[1..] == UpdateRows(entries[1..], url, u, now);
      LookupUpdated(entries[1..], url, u, now, key);
    }
  }

  /** `DELETE FROM entries WHERE id = ?`: the other rows, in their order. */
  function RemoveEntry(entries: seq<Entry>, id: int): (r: seq<Entry>)
    ensures forall e :: e in r <==> e in entries && e.id != id
  {
    if entries == [] then []
    else
      var rest := RemoveEntry(entries[1..], id);
      assert forall e :: e in entries <==> e == entries[0] || e in entries[1..];
      if entries[0].id == id then rest else [entries[0]] + rest
  }

  /** A well-ordered table's first row precedes all the others in id and differs from them in
      url, and the rest of the table is well ordered. */
  lemma TailWellOrdered(entries: seq<Entry>)
    requires entries != [] && IdsIncreasing(entries) && UrlsUnique(entries)
    ensures IdsIncreasing(entries[1..]) && UrlsUnique(entries[1..])
    ensures forall x :: x in entries[1..] ==> entries[0].id < x.id && entries[0].url != x.url
  {
    assert forall i :: 0 <= i < |entries[1..]| ==> entries[1..][i] == entries[i + 1];
  }

  /** A row that precedes a well-ordered table in id and differs from all its urls can head it. */
  lemma ConsWellOrdered(e: Entry, rest: seq<Entry>)
    requires IdsIncreasing(rest) && UrlsUnique(rest)
    requires forall x :: x in rest ==> e.id < x.id && e.url != x.url
    ensures IdsIncreasing([e] + rest) && UrlsUnique([e] + rest)
  {
    var r := [e] + rest;
    forall i, j | 0 <= i < j < |r| ensures r[i].id < r[j].id && r[i].url != r[j].url {
      assert r[j] == rest[j - 1];
      if i > 0 {
        assert r[i] == rest[i - 1];
      } else {
        assert rest[j - 1] in rest;
      }
    }
  }

  /** Removing a row keeps the ids increasing and the urls unique. */
  lemma {:induction false} RemoveEntryWellOrdered(entries: seq<Entry>, id: int)
    requires IdsIncreasing(entries) && UrlsUnique(entries)
    ensures IdsIncreasing(RemoveEntry(entries, id)) && UrlsUnique(RemoveEntry(entries, id))
  {
    if entries != [] {
      TailWellOrdered(entries);
      RemoveEntryWellOrdered(entries[1..], id);
      if entries[0].id != id {
        ConsWellOrdered(entries[0], RemoveEntry(entries[1..], id));
      }
    }
  }

  /** Appending a row with the next id under a fresh url keeps every table invariant. */
  lemma AppendWellFormed(entries: seq<Entry>, likes: set<Like>, nextId: nat, e: Entry)
    requires WellFormed(entries, likes, nextId)
    requires e.id == nextId && GetEntryByUrl(entries, e.url).None?
    ensures WellFormed(entries + [e], likes, nextId + 1)
  {
    var r := entries + [e];
    assert forall i :: 0 <= i < |entries| ==> r[i] == entries[i];
    forall l | l in likes ensures HasEntry(r, l.entryId) {
      var i :| 0 <= i < |entries| && entries[i].id == l.entryId;
      assert r[i] == entries[i];
    }
  }

  lemma HasEntryIn(entries: seq<Entry>, e: Entry)
    requires e in entries
    ensures HasEntry(entries, e.id)
  {
    var i :| 0 <= i < |entries| && entries[i] == e;
  }

  /** The whole store. `entries` is in rowid order; `nextId` is the AUTOINCREMENT counter;
      `ledger` holds the names of the migrations already applied. */
  class Store {
    var entries: seq<Entry>
    var nextId: nat
    var cookies: map<string, string>
    var likes: set<Like>
    var ledger: set<string>

    ghost predicate Valid()
      reads this
    {
      WellFormed(entries, likes, nextId)
    }

    /** An empty store, as `initSchema` leaves a fresh database. */
    constructor ()
      ensures Valid()
      ensures entries == [] && nextId == 1 && cookies == map[] && likes == {} && ledger == {}
    {
      entries, nextId, cookies, likes, ledger := [], 1, map[], {}, {};
    }

    /** `createAuthCookie`: stores the caller-drawn token for `account`. The token is the
        primary key, so a token already present is a rejected insert. */
    method CreateAuthCookie(account: string, token: string) returns (r: Result<string, DbError>)
      requires Valid()
      modifies this
      ensures Valid()
      ensures entries == old(entries) && nextId == old(nextId) && likes == old(likes) && ledger == old(ledger)
      ensures token in old(cookies) ==> r == Err(ConstraintViolation) && cookies == old(cookies)
      ensures token !in old(cookies) ==> r == Ok(token) && cookies == old(cookies)[token := account]
      ensures r.Ok? ==> GetAccountFromCookie(cookies, r.value) == (if account == "" then None else Some(account))
    {
      if token in cookies {
        return Err(ConstraintViolation);
      }
      cookies := cookies[token := account];
      r := Ok(token);
    }

    /** `addEntry`: inserts a row with the next id; a url already present is rejected. */
    method AddEntry(url: string, name: string, description: string, thumbnail: Option<Bytes>,
                    thumbnailMime: Option<string>, owner: string, now: nat)
      returns (r: Result<nat, DbError>)
      requires Valid()
      modifies this
      ensures Valid()
      ensures cookies == old(cookies) && likes == old(likes) && ledger == old(ledger)
      ensures old(GetEntryByUrl(entries, url)).Some? ==>
                r == Err(ConstraintViolation) && entries == old(entries) && nextId == old(nextId)
      ensures old(GetEntryByUrl(entries, url)).None? ==>
                r == Ok(old(nextId)) && nextId == old(nextId) + 1
                && entries == old(entries) + [Entry(old(nextId), url, name, description, thumbnail,
                                                    thumbnailMime, owner, now, now)]
      ensures r.Ok? ==> forall i :: 0 <= i < |old(entries)| ==> old(entries)[i].id < r.value
      ensures r.Ok? ==>
                var e := Entry(r.value, url, name, description, thumbnail, thumbnailMime, owner, now, now);
                GetEntryByUrl(entries, url) == Some(e) && GetEntryById(entries, r.value) == Some(e)
    {
      if GetEntryByUrl(entries, url).Some? {
        return Err(ConstraintViolation);
      }
      var e := Entry(nextId, url, name, description, thumbnail, thumbnailMime, owner, now, now);
      LookupAppended(entries, e);
      AppendWellFormed(entries, likes, nextId, e);
      entries := entries + [e];
      nextId := nextId + 1;
      r := Ok(e.id);
    }

    /** `updateEntry`: `UPDATE entries SET updated_at = ..., <supplied fields> WHERE url = ?`;
        reports whether a row changed. */
    method UpdateEntry(url: string, updates: Updates, now: nat) returns (changed: bool)
      requires Valid()
      modifies this
      ensures Valid()
      ensures cookies == old(cookies) && likes == old(likes) && ledger == old(ledger) && nextId == old(nextId)
      ensures changed <==> old(GetEntryByUrl(entries, url)).Some?
      ensures entries == UpdateRows(old(entries), url, updates, now)
    {
      var k := IndexOfUrl(entries, url);
      if k < 0 {
        assert forall i :: 0 <= i < |entries| ==> entries[i].url != url;
        assert entries == UpdateRows(entries, url, updates, now);
        return false;
      }
      // the SET clause, one supplied field at a time
      var e := entries[k].(updatedAt := now);
      if updates.description.Some? {
        e := e.(description := updates.description.value);
      }
      if updates.thumbnail.Some? {
        e := e.(thumbnail := updates.thumbnail);
      }
      if updates.thumbnailMime.Some? {
        e := e.(thumbnailMime := updates.thumbnailMime);
      }
      assert e == ApplyUpdates(entries[k], updates, now);
      UpdateAtIndex(entries, k, updates, now);
      UpdateRowsWellFormed(entries, likes, nextId, url, updates, now);
      entries := entries[k := e];
      changed := true;
    }

    /** `addLike`: inserts the pair; any rejected insert (the pair already present, or no
        entry with that id under the foreign key) returns false and changes nothing. */
    method AddLike(entryId: int, account: string) returns (added: bool)
      requires Valid()
      modifies this
      ensures Valid()
      ensures entries == old(entries) && cookies == old(cookies) && ledger == old(ledger) && nextId == old(nextId)
      ensures added <==> HasEntry(entries, entryId) && !HasLiked(old(likes), entryId, account)
      ensures likes == if added then old(likes) + {Like(entryId, account)} else old(likes)
      ensures HasEntry(entries, entryId) ==> HasLiked(likes, entryId, account)
      ensures GetLikeCount(likes, entryId) == GetLikeCount(old(likes), entryId) + (if added then 1 else 0)
      ensures forall id :: id != entryId ==> GetLikeCount(likes, id) == GetLikeCount(old(likes), id)
    {
      ghost var before := likes;
      if GetEntryById(entries, entryId).None? || Like(entryId, account) in likes {
        added := false;
      } else {
        likes := likes + {Like(entryId, account)};
        added := true;
      }
      forall id | true ensures GetLikeCount(likes, id) == GetLikeCount(before, id) + (if added && id == entryId then 1 else 0) {
        LikeCountAfterInsert(before, Like(entryId, account), id);
      }
      assert GetLikeCount(likes, entryId) == GetLikeCount(before, entryId) + (if added then 1 else 0);
    }

    /** `deleteEntry`: an unknown url or a caller who is neither admin nor owner changes
        nothing; otherwise the entry's likes are removed, then the entry. */
    method DeleteEntry(url: string, account: string, isAdmin: bool) returns (r: DeleteOutcome)
      requires Valid()
      modifies this
      ensures Valid()
      ensures cookies == old(cookies) && ledger == old(ledger) && nextId == old(nextId)
      ensures old(GetEntryByUrl(entries, url)).None? ==>
                r == DeleteOutcome(false, Some(EntryNotFound)) && entries == old(entries) && likes == old(likes)
      ensures old(GetEntryByUrl(entries, url)).Some? && !isAdmin && old(GetEntryByUrl(entries, url)).value.owner != account ==>
                r == DeleteOutcome(false, Some(NotAuthorizedToDelete)) && entries == old(entries) && likes == old(likes)
      ensures old(GetEntryByUrl(entries, url)).Some? && (isAdmin || old(GetEntryByUrl(entries, url)).value.owner == account) ==>
                var id := old(GetEntryByUrl(entries, url)).value.id;
                r == DeleteOutcome(true, None)
                && entries == RemoveEntry(old(entries), id) && likes == LikesWithout(old(likes), id)
                && GetEntryById(entries, id).None? && GetLikeCount(likes, id) == 0
    {
      var found := GetEntryByUrl(entries, url);
      if found.None? {
        return DeleteOutcome(false, Some(EntryNotFound));
      }
      var entry := found.value;
      if !isAdmin && entry.owner != account {
        return DeleteOutcome(false, Some(NotAuthorizedToDelete));
      }
      ghost var before := entries;
      // likes first, because of the foreign key
      likes := LikesWithout(likes, entry.id);
      LikeCountAfterCascade(old(likes), entry.id, entry.id);
      entries := RemoveEntry(entries, entry.id);
      RemoveEntryWellOrdered(before, entry.id);
      r := DeleteOutcome(true, None);
      forall l | l in likes ensures HasEntry(entries, l.entryId) {
        var e := GetEntryById(before, l.entryId).value;
        assert e in entries;
        HasEntryIn(entries, e);
      }
      forall i | 0 <= i < |entries| ensures 0 < entries[i].id < nextId {
        assert entries[i] in before;
      }
    }

    /** `markMigrationComplete`. */
    method MarkMigrationComplete(name: string)
      requires Valid()
      modifies this
      ensures Valid()
      ensures entries == old(entries) && likes == old(likes) && cookies == old(cookies) && nextId == old(nextId)
      ensures ledger == old(ledger) + {name}
    {
      ledger := ledger + {name};
    }
  }
}
