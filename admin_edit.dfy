/** src/admin-edit.ts: edits an entry from the command line, without an ownership check. */
module AdminEdit {
  import opened Common
  import opened Db
  import opened Cli

  /** Whether any update was supplied, as `Object.keys(updates).length` counts them: `--name`
      and `--newUrl` count although `updateEntry` ignores both. */
  predicate AnyUpdate(a: map<string, string>) {
    Arg(a, "name") != "" || Arg(a, "newUrl") != "" || Arg(a, "description") != "" || Arg(a, "thumbnail") != ""
  }

  /** The fields handed to `updateEntry` once the thumbnail has been read. */
  function EditUpdates(a: map<string, string>, cols: (Option<Bytes>, Option<string>)): Updates {
    Updates(if Arg(a, "description") != "" then Some(Arg(a, "description")) else None, cols.0, cols.1)
  }

  /** `main()`: returns the entry's name for the success message. Every error leaves the
      database as it was. */
  method Run(db: Store, argv: seq<string>, readFile: string -> Option<Bytes>, now: nat)
    returns (r: Result<string, CliError>)
    requires db.Valid()
    modifies db
    ensures db.Valid()
    ensures db.likes == old(db.likes) && db.cookies == old(db.cookies) && db.ledger == old(db.ledger)
    ensures db.nextId == old(db.nextId)
    ensures r.Err? ==> db.entries == old(db.entries)
    ensures r == Err(Usage) <==> Arg(ArgMap(argv), "url") == ""
    ensures var url := Arg(ArgMap(argv), "url");
      url != "" && old(GetEntryByUrl(db.entries, url)).None? ==> r == Err(EntryNotFound(url))
    ensures var a := ArgMap(argv);
      r == Err(NoUpdates) <==> Arg(a, "url") != "" && old(GetEntryByUrl(db.entries, Arg(a, "url"))).Some? && !AnyUpdate(a)
    ensures var a := ArgMap(argv);
      r.Ok? <==> Arg(a, "url") != "" && old(GetEntryByUrl(db.entries, Arg(a, "url"))).Some? && AnyUpdate(a)
                 && ThumbnailColumns(Arg(a, "thumbnail"), readFile).Ok?
    ensures var a := ArgMap(argv);
      Arg(a, "url") != "" && old(GetEntryByUrl(db.entries, Arg(a, "url"))).Some?
      && ThumbnailColumns(Arg(a, "thumbnail"), readFile).Err? ==>
        r == Err(ThumbnailColumns(Arg(a, "thumbnail"), readFile).error)
    ensures var a := ArgMap(argv);
      r.Ok? ==>
        var cols := ThumbnailColumns(Arg(a, "thumbnail"), readFile).value;
        r.value == old(GetEntryByUrl(db.entries, Arg(a, "url"))).value.name
        && db.entries == UpdateRows(old(db.entries), Arg(a, "url"), EditUpdates(a, cols), now)
  {
    var args := ParseArgs(argv);
    var url, name, newUrl, description, thumbnail :=
      Arg(args, "url"), Arg(args, "name"), Arg(args, "newUrl"), Arg(args, "description"), Arg(args, "thumbnail");
    if url == "" {
      return Err(Usage);
    }
    var entry := GetEntryByUrl(db.entries, url);
    if entry.None? {
      return Err(EntryNotFound(url));
    }
    // the keys of `updates`, four of which the database layer knows nothing about
    var keys := 0;
    if name != "" { keys := keys + 1; }
    if newUrl != "" { keys := keys + 1; }
    var newDescription: Option<string> := None;
    if description != "" {
      newDescription := Some(description);
      keys := keys + 1;
    }
    var newThumbnail: Option<Bytes> := None;
    var newMime: Option<string> := None;
    if thumbnail != "" {
      var read := ReadThumbnail(thumbnail, readFile);
      if read.Err? {
        return Err(read.error);
      }
      newThumbnail := Some(read.value.0);
      newMime := Some(read.value.1);
      keys := keys + 2;
    }
    if keys == 0 {
      return Err(NoUpdates);
    }
    var success := db.UpdateEntry(url, Updates(newDescription, newThumbnail, newMime), now);
    // the row was found above, so the update matches it
    assert success;
    r := Ok(entry.value.name);
  }

  /** `--name` and `--newUrl` are accepted and reported as updates, yet the row keeps its name
      and its url: only the description and the thumbnail columns can change. */
  lemma RenameIgnored(entries: seq<Entry>, a: map<string, string>, cols: (Option<Bytes>, Option<string>), now: nat)
    requires GetEntryByUrl(entries, Arg(a, "url")).Some?
    ensures var url := Arg(a, "url");
      var before := GetEntryByUrl(entries, url).value;
      var after := GetEntryByUrl(UpdateRows(entries, url, EditUpdates(a, cols), now), url);
      after.Some? && after.value.name == before.name && after.value.url == url
      && after.value.owner == before.owner && after.value.id == before.id
  {
    LookupUpdated(entries, Arg(a, "url"), EditUpdates(a, cols), now, Arg(a, "url"));
  }
}
