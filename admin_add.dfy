/** src/admin-add.ts: adds an entry from the command line, owned by a fixed admin account. */
module AdminAdd {
  import opened Common
  import opened Db
  import opened Cli

  /** The placeholder owner of entries added from the command line. */
  const AdminAccount := "admin-cli"

  /** The arguments the script cannot do without. */
  predicate HasRequired(a: map<string, string>) {
    Arg(a, "url") != "" && Arg(a, "name") != "" && Arg(a, "description") != ""
  }

  /** `main()`: `argv` is `process.argv.slice(2)`, `readFile` the file system and `now` the
      clock. Every error leaves the database as it was. */
  method Run(db: Store, argv: seq<string>, readFile: string -> Option<Bytes>, now: nat)
    returns (r: Result<nat, CliError>)
    requires db.Valid()
    modifies db
    ensures db.Valid()
    ensures db.likes == old(db.likes) && db.cookies == old(db.cookies) && db.ledger == old(db.ledger)
    ensures r.Err? ==> db.entries == old(db.entries) && db.nextId == old(db.nextId)
    ensures r == Err(Usage) <==> !HasRequired(ArgMap(argv))
    ensures HasRequired(ArgMap(argv)) && old(GetEntryByUrl(db.entries, Arg(ArgMap(argv), "url"))).Some? ==>
              r == Err(AlreadyExists(Arg(ArgMap(argv), "url")))
    ensures var a := ArgMap(argv);
      r.Ok? <==> HasRequired(a) && old(GetEntryByUrl(db.entries, Arg(a, "url"))).None?
                 && ThumbnailColumns(Arg(a, "thumbnail"), readFile).Ok?
    ensures var a := ArgMap(argv);
      HasRequired(a) && old(GetEntryByUrl(db.entries, Arg(a, "url"))).None?
      && ThumbnailColumns(Arg(a, "thumbnail"), readFile).Err? ==>
        r == Err(ThumbnailColumns(Arg(a, "thumbnail"), readFile).error)
    ensures var a := ArgMap(argv);
      r.Ok? ==>
        var cols := ThumbnailColumns(Arg(a, "thumbnail"), readFile).value;
        r.value == old(db.nextId) && db.nextId == old(db.nextId) + 1
        && db.entries == old(db.entries) + [Entry(r.value, Arg(a, "url"), Arg(a, "name"), Arg(a, "description"),
                                                  cols.0, cols.1, AdminAccount, now, now)]
  {
    var args := ParseArgs(argv);
    var url, name, description, thumbnail :=
      Arg(args, "url"), Arg(args, "name"), Arg(args, "description"), Arg(args, "thumbnail");
    if url == "" || name == "" || description == "" {
      return Err(Usage);
    }
    var existing := GetEntryByUrl(db.entries, url);
    if existing.Some? {
      return Err(AlreadyExists(url));
    }
    var thumbnailBuffer: Option<Bytes> := None;
    var thumbnailMime: Option<string> := None;
    if thumbnail != "" {
      var read := ReadThumbnail(thumbnail, readFile);
      if read.Err? {
        return Err(read.error);
      }
      thumbnailBuffer := Some(read.value.0);
      thumbnailMime := Some(read.value.1);
    }
    var added := db.AddEntry(url, name, description, thumbnailBuffer, thumbnailMime, AdminAccount, now);
    // the url was absent a moment ago, so the insert is not rejected
    assert added.Ok?;
    r := Ok(added.value);
  }
}
