/** The seeding script of src/seed.ts: the five directory entries every installation starts
    with, inserted when missing or given their bundled thumbnail when the stored one looks
    broken, followed by the script's own like migration. */
module Seed {
  import opened Common
  import opened Db
  import opened Migrate

  /** One element of `seedEntries`. */
  datatype SeedRecord = SeedRecord(url: string, name: string, description: string, owner: string,
                                   thumbnailFile: string, thumbnailMime: string)

  const SeedEntries: seq<SeedRecord> := [
    SeedRecord("https://moltbook.com", "Moltbook",
      "A Reddit-style social network designed for AI agents to share thoughts, vote on content, and engage in discussions.",
      "seed_account_moltbook", "moltbook-thumbnail.gif", "image/gif"),
    SeedRecord("https://instaclaw.xyz", "Instaclaw",
      "An Instagram-like platform where AI agents can share and curate visual content, follow other agents, and build a visual portfolio.",
      "seed_account_instaclaw", "instaclaw-thumbnail.gif", "image/gif"),
    SeedRecord("https://shellmates.app", "Shellmates",
      "A Tinder-style matchmaking app for AI agents to find compatible partners, swipe on profiles, and make meaningful connections.",
      "seed_account_shellmates", "shellmates-thumbnail.gif", "image/gif"),
    SeedRecord("https://moltx.io", "MoltX",
      "A Twitter-style social network for AI agents to post thoughts, follow other agents, and explore trending discussions.",
      "seed_account_moltx", "moltx-thumbnail.png", "image/png"),
    SeedRecord("https://moltoverflow.com", "MoltOverflow",
      "A knowledge base where AI agents share and retrieve programming solutions. Where agents share solutions they wish they'd found sooner.",
      "atxp:atxp_acct_Bkueuz6bm1WBtJiva8Gws", "moltoverflow-thumbnail.gif", "image/gif")
  ]

  /** seed.ts's own `migrateRandomLikes`, recorded under a separate name. */
  const SeedRandomLikes := Migration("add-random-likes-v2", 12, 97)

  /** Stored thumbnails shorter than this are taken to be broken. */
  const BrokenThumbnailSize := 1000

  function ThumbnailSize(e: Entry): nat {
    if e.thumbnail.Some? then |e.thumbnail.value| else 0
  }

  /** `loadThumbnail(thumbnailFile)` when a file is named: `assets` maps a file name to its bytes,
      or to None when no asset directory holds it. */
  function Loaded(rec: SeedRecord, assets: string -> Option<Bytes>): Option<Bytes> {
    if rec.thumbnailFile != "" then assets(rec.thumbnailFile) else None
  }

  /** An existing row is repaired when its thumbnail looks broken and a replacement is at hand. */
  predicate NeedsRepair(e: Entry, loaded: Option<Bytes>, mime: string) {
    ThumbnailSize(e) < BrokenThumbnailSize && loaded.Some? && mime != ""
  }

  function RepairUpdates(loaded: Option<Bytes>, mime: string): Updates {
    Updates(None, loaded, Some(mime))
  }

  /** The row `addEntry` writes for a record. */
  function NewRow(id: nat, rec: SeedRecord, loaded: Option<Bytes>, now: nat): Entry {
    Entry(id, rec.url, rec.name, rec.description, loaded, Some(rec.thumbnailMime), rec.owner, now, now)
  }

  /** The entries table and its AUTOINCREMENT counter. */
  datatype Table = Table(entries: seq<Entry>, nextId: nat)

  /** One pass of the seeding loop. */
  function SeedStep(t: Table, rec: SeedRecord, assets: string -> Option<Bytes>, now: nat): Table {
    var loaded := Loaded(rec, assets);
    match GetEntryByUrl(t.entries, rec.url)
    case None => Table(t.entries + [NewRow(t.nextId, rec, loaded, now)], t.nextId + 1)
    case Some(e) =>
      if NeedsRepair(e, loaded, rec.thumbnailMime)
      then Table(UpdateRows(t.entries, rec.url, RepairUpdates(loaded, rec.thumbnailMime), now), t.nextId)
      else t
  }

  /** The table after the seeding loop has gone through `records` in order. */
  function SeedAll(t: Table, records: seq<SeedRecord>, assets: string -> Option<Bytes>, now: nat): Table
    decreases |records|
  {
    if records == [] then t
    else SeedStep(SeedAll(t, records[..|records| - 1], assets, now), records[|records| - 1], assets, now)
  }

  /** The columns seeding never touches on an existing row. */
  predicate SameIdentity(a: Entry, b: Entry) {
    a.id == b.id && a.url == b.url && a.name == b.name && a.description == b.description
    && a.owner == b.owner && a.createdAt == b.createdAt
  }

  /** A row seeding changed was one with a broken thumbnail, and now has a thumbnail and a type. */
  predicate RepairedFrom(before: Entry, after: Entry) {
    after == before
    || (ThumbnailSize(before) < BrokenThumbnailSize && after.thumbnail.Some?
        && after.thumbnailMime.Some? && after.thumbnailMime.value != "")
  }

  /** `after` only appends rows to `before`, with consecutive ids from the counter, and on the
      rows already present changes at most the thumbnail of a broken one. */
  predicate KeepsRows(before: Table, after: Table) {
    |before.entries| <= |after.entries| && after.nextId == before.nextId + (|after.entries| - |before.entries|)
    && (forall i :: 0 <= i < |before.entries| ==>
          SameIdentity(before.entries[i], after.entries[i]) && RepairedFrom(before.entries[i], after.entries[i]))
    && (forall i :: |before.entries| <= i < |after.entries| ==>
          after.entries[i].id == before.nextId + (i - |before.entries|))
    && UrlsUnique(after.entries)
  }

  lemma SeedStepKeepsRows(t: Table, rec: SeedRecord, assets: string -> Option<Bytes>, now: nat)
    requires UrlsUnique(t.entries)
    ensures KeepsRows(t, SeedStep(t, rec, assets, now))
    ensures |SeedStep(t, rec, assets, now).entries| <= |t.entries| + 1
    ensures GetEntryByUrl(t.entries, rec.url).Some? ==> |SeedStep(t, rec, assets, now).entries| == |t.entries|
  {
    var loaded := Loaded(rec, assets);
    match GetEntryByUrl(t.entries, rec.url)
    case None =>
      AppendKeepsRows(t, NewRow(t.nextId, rec, loaded, now));
    case Some(e) =>
      if NeedsRepair(e, loaded, rec.thumbnailMime) {
        RepairKeepsRows(t, rec.url, RepairUpdates(loaded, rec.thumbnailMime), now);
      }
  }

  /** Inserting a row under a new url and the next id keeps the rows. */
  lemma AppendKeepsRows(t: Table, row: Entry)
    requires UrlsUnique(t.entries) && GetEntryByUrl(t.entries, row.url).None? && row.id == t.nextId
    ensures KeepsRows(t, Table(t.entries + [row], t.nextId + 1))
  {
    var r := t.entries + [row];
    assert forall i :: 0 <= i < |t.entries| ==> r[i] == t.entries[i];
  }

  /** Repairing the broken thumbnail of the row at `url` keeps the rows. */
  lemma RepairKeepsRows(t: Table, url: string, u: Updates, now: nat)
    requires UrlsUnique(t.entries) && GetEntryByUrl(t.entries, url).Some?
    requires ThumbnailSize(GetEntryByUrl(t.entries, url).value) < BrokenThumbnailSize
    requires u.description.None? && u.thumbnail.Some? && u.thumbnailMime.Some? && u.thumbnailMime.value != ""
    ensures KeepsRows(t, Table(UpdateRows(t.entries, url, u, now), t.nextId))
  {
    var r := UpdateRows(t.entries, url, u, now);
    assert forall i :: 0 <= i < |r| ==> r[i].url == t.entries[i].url;
    forall i | 0 <= i < |t.entries|
      ensures SameIdentity(t.entries[i], r[i]) && RepairedFrom(t.entries[i], r[i])
    {
      if t.entries[i].url == url {
        LookupAtUrl(t.entries, i, url);
      }
    }
  }

  lemma KeepsRowsTransitive(a: Table, b: Table, c: Table)
    requires KeepsRows(a, b) && KeepsRows(b, c)
    ensures KeepsRows(a, c)
  {
  }

  /** Seeding as a whole keeps the rows in the same way. */
  lemma {:induction false} SeedKeepsRows(t: Table, records: seq<SeedRecord>, assets: string -> Option<Bytes>, now: nat)
    requires UrlsUnique(t.entries)
    ensures KeepsRows(t, SeedAll(t, records, assets, now))
    decreases |records|
  {
    if records != [] {
      var n := |records| - 1;
      var mid := SeedAll(t, records[..n], assets, now);
      SeedKeepsRows(t, records[..n], assets, now);
      SeedStepKeepsRows(mid, records[n], assets, now);
      KeepsRowsTransitive(t, mid, SeedAll(t, records, assets, now));
    }
  }

  lemma SeedKeepsUrlsUnique(t: Table, records: seq<SeedRecord>, assets: string -> Option<Bytes>, now: nat)
    requires UrlsUnique(t.entries)
    ensures UrlsUnique(SeedAll(t, records, assets, now).entries)
  {
    SeedKeepsRows(t, records, assets, now);
  }

  /** With unique urls, the row found by url is the one at the position holding that url. */
  lemma LookupAtUrl(entries: seq<Entry>, i: int, url: string)
    requires UrlsUnique(entries)
    requires 0 <= i < |entries| && entries[i].url == url
    ensures GetEntryByUrl(entries, url) == Some(entries[i])
  {
    var e := GetEntryByUrl(entries, url).value;
    var j :| 0 <= j < |entries| && entries[j] == e;
    assert entries[j].url == url;
  }

  /** One step keeps every url that had a row and gives its own record's url one. */
  lemma StepCovers(t: Table, rec: SeedRecord, assets: string -> Option<Bytes>, now: nat, url: string)
    requires UrlsUnique(t.entries)
    requires url == rec.url || GetEntryByUrl(t.entries, url).Some?
    ensures GetEntryByUrl(SeedStep(t, rec, assets, now).entries, url).Some?
  {
    var r := SeedStep(t, rec, assets, now);
    SeedStepKeepsRows(t, rec, assets, now);
    if GetEntryByUrl(t.entries, url).Some? {
      var i :| 0 <= i < |t.entries| && t.entries[i].url == url;
      assert r.entries[i].url == url;
    } else {
      // the url is the record's own, which the table lacks: the row is appended
      assert r.entries[|t.entries|].url == url;
    }
  }

  /** A url that has a row keeps one through any run. */
  lemma {:induction false} SeedKeepsUrl(t: Table, records: seq<SeedRecord>, assets: string -> Option<Bytes>, now: nat, url: string)
    requires UrlsUnique(t.entries) && GetEntryByUrl(t.entries, url).Some?
    ensures GetEntryByUrl(SeedAll(t, records, assets, now).entries, url).Some?
    decreases |records|
  {
    if records != [] {
      var n := |records| - 1;
      SeedKeepsUrl(t, records[..n], assets, now, url);
      SeedKeepsUrlsUnique(t, records[..n], assets, now);
      SeedAllLast(t, records, assets, now);
      StepCovers(SeedAll(t, records[..n], assets, now), records[n], assets, now, url);
    }
  }

  /** A run over records whose urls all have rows inserts nothing. */
  lemma {:induction false} SeedCoveredAppendsNothing(t: Table, records: seq<SeedRecord>, assets: string -> Option<Bytes>, now: nat)
    requires UrlsUnique(t.entries)
    requires forall rec :: rec in records ==> GetEntryByUrl(t.entries, rec.url).Some?
    ensures |SeedAll(t, records, assets, now).entries| == |t.entries|
    ensures SeedAll(t, records, assets, now).nextId == t.nextId
    decreases |records|
  {
    if records != [] {
      var n := |records| - 1;
      assert forall rec :: rec in records[..n] ==> rec in records;
      SeedCoveredAppendsNothing(t, records[..n], assets, now);
      var mid := SeedAll(t, records[..n], assets, now);
      assert records[n] in records;
      SeedKeepsUrl(t, records[..n], assets, now, records[n].url);
      SeedKeepsUrlsUnique(t, records[..n], assets, now);
      SeedKeepsRows(t, records[..n], assets, now);
      SeedStepKeepsRows(mid, records[n], assets, now);
      SeedAllLast(t, records, assets, now);
    }
  }

  /** A second run of the seeding loop inserts no row and leaves the counter alone: every row
      it finds keeps its identity and changes at most by a thumbnail repair. */
  lemma SeedSecondPass(t: Table, records: seq<SeedRecord>, assets: string -> Option<Bytes>, now: nat, later: nat)
    requires UrlsUnique(t.entries)
    ensures var once := SeedAll(t, records, assets, now);
      var twice := SeedAll(once, records, assets, later);
      |twice.entries| == |once.entries| && twice.nextId == once.nextId && KeepsRows(once, twice)
  {
    var once := SeedAll(t, records, assets, now);
    SeedCovers(t, records, assets, now);
    SeedKeepsUrlsUnique(t, records, assets, now);
    SeedCoveredAppendsNothing(once, records, assets, later);
    SeedKeepsRows(once, records, assets, later);
  }

  /** After seeding, every record's url has a row. */
  lemma {:induction false} SeedCovers(t: Table, records: seq<SeedRecord>, assets: string -> Option<Bytes>, now: nat)
    requires UrlsUnique(t.entries)
    ensures forall rec :: rec in records ==> GetEntryByUrl(SeedAll(t, records, assets, now).entries, rec.url).Some?
    decreases |records|
  {
    if records != [] {
      var n := |records| - 1;
      var mid := SeedAll(t, records[..n], assets, now);
      SeedCovers(t, records[..n], assets, now);
      SeedKeepsUrlsUnique(t, records[..n], assets, now);
      SeedAllLast(t, records, assets, now);
      StepCoversAll(mid, records, assets, now);
    }
  }

  lemma StepCoversAll(t: Table, records: seq<SeedRecord>, assets: string -> Option<Bytes>, now: nat)
    requires records != [] && UrlsUnique(t.entries)
    requires forall rec :: rec in records[..|records| - 1] ==> GetEntryByUrl(t.entries, rec.url).Some?
    ensures forall rec :: rec in records ==>
              GetEntryByUrl(SeedStep(t, records[|records| - 1], assets, now).entries, rec.url).Some?
  {
    var n := |records| - 1;
    forall rec | rec in records
      ensures GetEntryByUrl(SeedStep(t, records[n], assets, now).entries, rec.url).Some?
    {
      if rec != records[n] {
        var i :| 0 <= i < |records| && records[i] == rec;
        assert records[..n][i] == rec;
      }
      StepCovers(t, records[n], assets, now, rec.url);
    }
  }

  predicate UrlsDistinct(records: seq<SeedRecord>) {
    forall i, j :: 0 <= i < j < |records| ==> records[i].url != records[j].url
  }

  /** A record whose url the table lacks is appended under the next id. */
  lemma StepAppends(t: Table, rec: SeedRecord, assets: string -> Option<Bytes>, now: nat)
    requires forall k :: 0 <= k < |t.entries| ==> t.entries[k].url != rec.url
    ensures SeedStep(t, rec, assets, now) == Table(t.entries + [NewRow(t.nextId, rec, Loaded(rec, assets), now)], t.nextId + 1)
  {
    assert GetEntryByUrl(t.entries, rec.url).None?;
  }

  /** Seeding an empty table with distinct urls inserts every record, in order, with
      consecutive ids. */
  lemma {:induction false} SeedIntoEmpty(nextId: nat, records: seq<SeedRecord>, assets: string -> Option<Bytes>, now: nat)
    requires UrlsDistinct(records)
    ensures var r := SeedAll(Table([], nextId), records, assets, now);
      r.nextId == nextId + |records| && NewRows(r.entries, records, nextId, assets, now)
    decreases |records|
  {
    if records != [] {
      var n := |records| - 1;
      var prefix := records[..n];
      assert forall k :: 0 <= k < n ==> prefix[k] == records[k];
      var mid := SeedAll(Table([], nextId), prefix, assets, now);
      SeedIntoEmpty(nextId, prefix, assets, now);
      AppendedRows(mid.entries, records, nextId, assets, now);
      StepAppends(mid, records[n], assets, now);
      SeedAllLast(Table([], nextId), records, assets, now);
      assert records[..|records| - 1] == prefix;
    }
  }

  /** `rows` are the rows `addEntry` writes for `records` in order, from id `nextId` on. */
  predicate NewRows(rows: seq<Entry>, records: seq<SeedRecord>, nextId: nat, assets: string -> Option<Bytes>, now: nat) {
    |rows| == |records|
    && forall k :: 0 <= k < |records| ==> rows[k] == NewRow(nextId + k, records[k], Loaded(records[k], assets), now)
  }

  /** The last record is seeded after all the others. */
  lemma SeedAllLast(t: Table, records: seq<SeedRecord>, assets: string -> Option<Bytes>, now: nat)
    requires records != []
    ensures SeedAll(t, records, assets, now)
            == SeedStep(SeedAll(t, records[..|records| - 1], assets, now), records[|records| - 1], assets, now)
  {
  }

  lemma AppendedRows(rows: seq<Entry>, records: seq<SeedRecord>, nextId: nat, assets: string -> Option<Bytes>, now: nat)
    requires records != [] && NewRows(rows, records[..|records| - 1], nextId, assets, now)
    ensures UrlsDistinct(records) ==> forall k :: 0 <= k < |rows| ==> rows[k].url != records[|records| - 1].url
    ensures NewRows(rows + [NewRow(nextId + |rows|, records[|rows|], Loaded(records[|rows|], assets), now)],
                    records, nextId, assets, now)
  {
    assert forall k :: 0 <= k < |rows| ==> records[..|records| - 1][k] == records[k];
  }

  /** The five seed urls are distinct. */
  lemma SeedEntriesDistinct()
    ensures UrlsDistinct(SeedEntries)
  {
    forall i, j | 0 <= i < j < |SeedEntries| ensures SeedEntries[i].url != SeedEntries[j].url {
      assert |SeedEntries[i].url| != |SeedEntries[j].url|;
    }
  }

  /** A fresh database seeded once holds exactly the five seed entries with ids 1..5. */
  lemma SeedFreshDatabase(assets: string -> Option<Bytes>, now: nat)
    ensures var r := SeedAll(Table([], 1), SeedEntries, assets, now);
      |r.entries| == 5 && r.nextId == 6
      && forall k :: 0 <= k < 5 ==>
           r.entries[k].id == k + 1 && r.entries[k].url == SeedEntries[k].url && r.entries[k].owner == SeedEntries[k].owner
  {
    SeedEntriesDistinct();
    SeedIntoEmpty(1, SeedEntries, assets, now);
  }

  /** A record is settled when its url has a row that does not need repair. */
  predicate Settled(entries: seq<Entry>, rec: SeedRecord, assets: string -> Option<Bytes>) {
    GetEntryByUrl(entries, rec.url).Some?
    && !NeedsRepair(GetEntryByUrl(entries, rec.url).value, Loaded(rec, assets), rec.thumbnailMime)
  }

  /** A run over settled records changes nothing. */
  lemma {:induction false} SeedSettled(t: Table, records: seq<SeedRecord>, assets: string -> Option<Bytes>, now: nat)
    requires forall rec :: rec in records ==> Settled(t.entries, rec, assets)
    ensures SeedAll(t, records, assets, now) == t
    decreases |records|
  {
    if records != [] {
      var n := |records| - 1;
      assert forall rec :: rec in records[..n] ==> rec in records;
      SeedSettled(t, records[..n], assets, now);
      assert records[n] in records;
      SeedAllLast(t, records, assets, now);
      StepSettled(t, records[n], assets, now);
    }
  }

  /** A settled record leaves the table as it is. */
  lemma StepSettled(t: Table, rec: SeedRecord, assets: string -> Option<Bytes>, now: nat)
    requires Settled(t.entries, rec, assets)
    ensures SeedStep(t, rec, assets, now) == t
  {
  }

  /** Every bundled thumbnail is at least the broken-thumbnail size. */
  ghost predicate AssetsWhole(assets: string -> Option<Bytes>) {
    forall f :: assets(f).Some? ==> |assets(f).value| >= BrokenThumbnailSize
  }

  /** With whole assets, one step settles its own record and keeps every settled one settled. */
  lemma SeedStepSettles(t: Table, rec: SeedRecord, other: SeedRecord, assets: string -> Option<Bytes>, now: nat)
    requires AssetsWhole(assets)
    requires other == rec || Settled(t.entries, other, assets)
    ensures Settled(SeedStep(t, rec, assets, now).entries, other, assets)
  {
    var loaded := Loaded(rec, assets);
    var r := SeedStep(t, rec, assets, now);
    match GetEntryByUrl(t.entries, rec.url)
    case None =>
      var row := NewRow(t.nextId, rec, loaded, now);
      if other.url == rec.url {
        assert r.entries[|t.entries|] == row;
        FirstAppendedLookup(t.entries, row);
      } else {
        LookupOtherUrl(t.entries, row, other.url);
      }
    case Some(e) =>
      if NeedsRepair(e, loaded, rec.thumbnailMime) {
        LookupUpdated(t.entries, rec.url, RepairUpdates(loaded, rec.thumbnailMime), now, other.url);
      }
  }

  /** Appending a row under a url the table lacks makes that row the one found. */
  lemma {:induction false} FirstAppendedLookup(entries: seq<Entry>, row: Entry)
    requires GetEntryByUrl(entries, row.url).None?
    ensures GetEntryByUrl(entries + [row], row.url) == Some(row)
  {
    if entries != [] {
      assert (entries + [row])[1..] == entries[1..] + [row];
      FirstAppendedLookup(entries[1..], row);
    }
  }

  /** With whole assets, every record is settled after a run over it. */
  lemma {:induction false} SeedSettlesAll(t: Table, records: seq<SeedRecord>, assets: string -> Option<Bytes>, now: nat)
    requires AssetsWhole(assets)
    ensures forall rec :: rec in records ==> Settled(SeedAll(t, records, assets, now).entries, rec, assets)
    decreases |records|
  {
    if records != [] {
      var n := |records| - 1;
      var mid := SeedAll(t, records[..n], assets, now);
      SeedSettlesAll(t, records[..n], assets, now);
      forall rec | rec in records ensures Settled(SeedAll(t, records, assets, now).entries, rec, assets) {
        if rec != records[n] {
          var i :| 0 <= i < |records| && records[i] == rec;
          assert records[..n][i] == rec;
        }
        SeedStepSettles(mid, records[n], rec, assets, now);
      }
    }
  }

  /** Running the seed script a second time changes nothing, as long as the bundled thumbnails
      are not themselves below the broken-thumbnail size. */
  lemma SeedIdempotent(t: Table, records: seq<SeedRecord>, assets: string -> Option<Bytes>, now: nat, later: nat)
    requires AssetsWhole(assets)
    ensures SeedAll(SeedAll(t, records, assets, now), records, assets, later) == SeedAll(t, records, assets, now)
  {
    SeedSettlesAll(t, records, assets, now);
    SeedSettled(SeedAll(t, records, assets, now), records, assets, later);
  }

  /** A bundled thumbnail below the broken-thumbnail size is written again on every run: a
      record inserted with such a file is repaired, with a new `updated_at`, on the next run. */
  lemma SmallAssetRewritten(t: Table, rec: SeedRecord, assets: string -> Option<Bytes>, now: nat, later: nat)
    requires GetEntryByUrl(t.entries, rec.url).None?
    requires rec.thumbnailFile != "" && rec.thumbnailMime != ""
    requires assets(rec.thumbnailFile).Some? && |assets(rec.thumbnailFile).value| < BrokenThumbnailSize
    requires later != now
    ensures var once := SeedAll(t, [rec], assets, now);
      SeedAll(once, [rec], assets, later) != once
  {
    var loaded := Loaded(rec, assets);
    var row := NewRow(t.nextId, rec, loaded, now);
    assert [rec][..0] == [];
    assert SeedAll(t, [rec][..0], assets, now) == t;
    var once := SeedAll(t, [rec], assets, now);
    assert once.entries == t.entries + [row];
    FirstAppendedLookup(t.entries, row);
    assert NeedsRepair(row, loaded, rec.thumbnailMime);
    assert SeedAll(once, [rec][..0], assets, later) == once;
    var twice := SeedAll(once, [rec], assets, later);
    LookupUpdated(once.entries, rec.url, RepairUpdates(loaded, rec.thumbnailMime), later, rec.url);
    assert GetEntryByUrl(twice.entries, rec.url).value.updatedAt == later;
  }

  /** One pass of the seeding loop of `seed()`: insert the record when its url is missing,
      otherwise repair a broken thumbnail. */
  method SeedOne(db: Store, rec: SeedRecord, assets: string -> Option<Bytes>, now: nat)
    requires db.Valid()
    modifies db
    ensures db.Valid()
    ensures db.likes == old(db.likes) && db.cookies == old(db.cookies) && db.ledger == old(db.ledger)
    ensures Table(db.entries, db.nextId) == SeedStep(Table(old(db.entries), old(db.nextId)), rec, assets, now)
  {
    var existing := GetEntryByUrl(db.entries, rec.url);
    var thumbnail := if rec.thumbnailFile != "" then assets(rec.thumbnailFile) else None;
    if existing.Some? {
      var thumbnailSize := if existing.value.thumbnail.Some? then |existing.value.thumbnail.value| else 0;
      var thumbnailMissing := thumbnailSize < BrokenThumbnailSize;
      if thumbnailMissing && thumbnail.Some? && rec.thumbnailMime != "" {
        var _ := db.UpdateEntry(rec.url, Updates(None, thumbnail, Some(rec.thumbnailMime)), now);
      }
    } else {
      var _ := db.AddEntry(rec.url, rec.name, rec.description, thumbnail, Some(rec.thumbnailMime), rec.owner, now);
    }
  }

  /** The seeding loop of `seed()`. */
  method SeedEntriesInto(db: Store, records: seq<SeedRecord>, assets: string -> Option<Bytes>, now: nat)
    requires db.Valid()
    modifies db
    ensures db.Valid()
    ensures db.likes == old(db.likes) && db.cookies == old(db.cookies) && db.ledger == old(db.ledger)
    ensures Table(db.entries, db.nextId) == SeedAll(Table(old(db.entries), old(db.nextId)), records, assets, now)
  {
    ghost var start := Table(db.entries, db.nextId);
    var k := 0;
    while k < |records|
      invariant 0 <= k <= |records|
      invariant db.Valid()
      invariant db.likes == old(db.likes) && db.cookies == old(db.cookies) && db.ledger == old(db.ledger)
      invariant Table(db.entries, db.nextId) == SeedAll(start, records[..k], assets, now)
    {
      SeedOne(db, records[k], assets, now);
      ghost var prefix := records[..k + 1];
      assert prefix[..k] == records[..k] && prefix[k] == records[k];
      SeedAllLast(start, prefix, assets, now);
      k := k + 1;
    }
    assert records[..k] == records;
  }

  /** The seeding loop over `records`, then the like migration `m`. */
  method SeedThenMigrate(db: Store, records: seq<SeedRecord>, m: Migration, assets: string -> Option<Bytes>,
                         now: nat, draws: Draws) returns (report: Report)
    requires db.Valid() && WellRanged(m) && RollsInRange(draws)
    modifies db
    ensures db.Valid()
    ensures Table(db.entries, db.nextId) == SeedAll(Table(old(db.entries), old(db.nextId)), records, assets, now)
    ensures forall rec :: rec in records ==> GetEntryByUrl(db.entries, rec.url).Some?
    ensures db.cookies == old(db.cookies) && old(db.likes) <= db.likes
    ensures db.ledger == old(db.ledger) + {m.name}
    ensures report == AlreadyApplied <==> m.name in old(db.ledger)
    ensures m.name !in old(db.ledger) && records != [] ==> report.Applied? && |report.added| == |db.entries|
    ensures forall k :: 0 <= k < |db.entries| ==>
              GetLikeCount(db.likes, db.entries[k].id) == GetLikeCount(old(db.likes), db.entries[k].id) + AddedTo(report, k)
    ensures report.Applied? ==> |report.added| == |db.entries| && forall k :: 0 <= k < |db.entries| ==> report.added[k] <= LikesToAdd(m, draws, k)
    ensures report.Applied? && FreshDraws(m, draws, db.entries, old(db.likes)) ==>
              forall k :: 0 <= k < |db.entries| ==> report.added[k] == LikesToAdd(m, draws, k)
  {
    SeedEntriesInto(db, records, assets, now);
    SeedCovers(Table(old(db.entries), old(db.nextId)), records, assets, now);
    report := RunLikeMigration(db, m, draws);
  }

  /** `seed()`: the seeding loop, then the `add-random-likes-v2` migration. */
  method Seed(db: Store, assets: string -> Option<Bytes>, now: nat, draws: Draws) returns (report: Report)
    requires db.Valid() && RollsInRange(draws)
    modifies db
    ensures db.Valid()
    ensures Table(db.entries, db.nextId) == SeedAll(Table(old(db.entries), old(db.nextId)), SeedEntries, assets, now)
    ensures forall rec :: rec in SeedEntries ==> GetEntryByUrl(db.entries, rec.url).Some?
    ensures db.cookies == old(db.cookies) && old(db.likes) <= db.likes
    ensures db.ledger == old(db.ledger) + {SeedRandomLikes.name}
    ensures report == AlreadyApplied <==> SeedRandomLikes.name in old(db.ledger)
    ensures SeedRandomLikes.name !in old(db.ledger) ==> report.Applied? && |report.added| == |db.entries|
    ensures forall k :: 0 <= k < |db.entries| ==>
              GetLikeCount(db.likes, db.entries[k].id) == GetLikeCount(old(db.likes), db.entries[k].id) + AddedTo(report, k)
    ensures report.Applied? ==> |report.added| == |db.entries| && forall k :: 0 <= k < |db.entries| ==> report.added[k] <= 97
    ensures report.Applied? && FreshDraws(SeedRandomLikes, draws, db.entries, old(db.likes)) ==>
              forall k :: 0 <= k < |db.entries| ==> 12 <= report.added[k] <= 97
  {
    report := SeedThenMigrate(db, SeedEntries, SeedRandomLikes, assets, now, draws);
  }
}
