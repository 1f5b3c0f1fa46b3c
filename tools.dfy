/** The MCP tools of src/tools.ts: an authentication cookie for the caller's ATXP account, adding
    an entry owned by the caller, and editing an entry the caller owns. The caller's account
    (`atxpAccountId()`), base64 decoding and zod's URL check come in as parameters. */
module Tools {
  import opened Common
  import opened Db
  import Cli

  /** `validMimes` of the add and edit tools. */
  const ValidMimes: seq<string> := ["image/png", "image/jpeg", "image/gif", "image/webp"]

  const NameMaxLength := 100
  const DescriptionMaxLength := 500

  /** The errors the tools throw, one per `throw new Error(...)` reachable in the model, plus the
      rejection of the arguments by the zod schema before the handler runs. */
  datatype ToolError =
    | InvalidParams
    | AuthenticationRequired
    | UrlTaken(url: string)
    | InvalidMime
    | EntryNotFound(url: string)
    | NotOwner
    | CookieRejected

  function Message(e: ToolError): string {
    match e
    case InvalidParams => "Invalid arguments"
    case AuthenticationRequired => "Authentication required"
    case UrlTaken(url) => "Entry with URL " + url + " already exists"
    case InvalidMime => "Invalid thumbnail MIME type. Must be one of: image/png, image/jpeg, image/gif, image/webp"
    case EntryNotFound(url) => "Entry with URL " + url + " not found"
    case NotOwner => "You are not the owner of this entry"
    case CookieRejected => "UNIQUE constraint failed: auth_cookies.cookie_value"
  }

  /** `if (!accountId)`: an absent or empty account is not authenticated. */
  predicate Authenticated(account: Option<string>) {
    account.Some? && account.value != ""
  }

  // ---------------------------------------------------------------- clawdirect_cookie

  /** `clawdirect_cookie`: `token` is the random cookie value `createAuthCookie` draws. The
      cookie handed out authenticates as the caller. */
  method CookieTool(db: Store, account: Option<string>, token: string) returns (r: Result<string, ToolError>)
    requires db.Valid()
    modifies db
    ensures db.Valid()
    ensures db.entries == old(db.entries) && db.nextId == old(db.nextId)
    ensures db.likes == old(db.likes) && db.ledger == old(db.ledger)
    ensures !Authenticated(account) ==> r == Err(AuthenticationRequired) && db.cookies == old(db.cookies)
    ensures Authenticated(account) && token in old(db.cookies) ==>
              r == Err(CookieRejected) && db.cookies == old(db.cookies)
    ensures Authenticated(account) && token !in old(db.cookies) ==>
              r == Ok(token) && db.cookies == old(db.cookies)[token := account.value]
    ensures r.Ok? ==> GetAccountFromCookie(db.cookies, r.value) == account
  {
    if !(account.Some? && account.value != "") {
      return Err(AuthenticationRequired);
    }
    var cookie := db.CreateAuthCookie(account.value, token);
    if cookie.Err? {
      return Err(CookieRejected);
    }
    r := Ok(cookie.value);
  }

  // ---------------------------------------------------------------- clawdirect_add

  datatype AddParams = AddParams(url: string, name: string, description: string, thumbnail: string,
                                 thumbnailMime: string)

  /** `AddEntryParams`; `isUrl` is zod's `.url()` check. */
  predicate AddParamsValid(p: AddParams, isUrl: string -> bool) {
    isUrl(p.url) && 1 <= |p.name| <= NameMaxLength && 1 <= |p.description| <= DescriptionMaxLength
  }

  /** An empty MIME type is no MIME type (`thumbnailMime || null`); any other must be valid. */
  predicate MimeAccepted(mime: string) {
    mime == "" || mime in ValidMimes
  }

  /** The row `clawdirect_add` writes for the caller. */
  function AddedRow(id: nat, p: AddParams, owner: string, decode: string -> Bytes, now: nat): Entry {
    Entry(id, p.url, p.name, p.description,
          if p.thumbnail != "" then Some(decode(p.thumbnail)) else None,
          if p.thumbnailMime != "" then Some(p.thumbnailMime) else None,
          owner, now, now)
  }

  /** `clawdirect_add`. Every error leaves the database as it was. */
  method AddTool(db: Store, p: AddParams, isUrl: string -> bool, account: Option<string>,
                 decode: string -> Bytes, now: nat) returns (r: Result<nat, ToolError>)
    requires db.Valid()
    modifies db
    ensures db.Valid()
    ensures db.likes == old(db.likes) && db.cookies == old(db.cookies) && db.ledger == old(db.ledger)
    ensures r.Err? ==> db.entries == old(db.entries) && db.nextId == old(db.nextId)
    ensures !AddParamsValid(p, isUrl) ==> r == Err(InvalidParams)
    ensures AddParamsValid(p, isUrl) && !Authenticated(account) ==> r == Err(AuthenticationRequired)
    ensures AddParamsValid(p, isUrl) && Authenticated(account) && old(GetEntryByUrl(db.entries, p.url)).Some? ==>
              r == Err(UrlTaken(p.url))
    ensures (AddParamsValid(p, isUrl) && Authenticated(account) && old(GetEntryByUrl(db.entries, p.url)).None?
             && !MimeAccepted(p.thumbnailMime)) ==> r == Err(InvalidMime)
    ensures r.Ok? <==> AddParamsValid(p, isUrl) && Authenticated(account)
                       && old(GetEntryByUrl(db.entries, p.url)).None? && MimeAccepted(p.thumbnailMime)
    ensures r.Ok? ==> r.value == old(db.nextId) && db.nextId == old(db.nextId) + 1
                      && db.entries == old(db.entries) + [AddedRow(r.value, p, account.value, decode, now)]
  {
    if !(isUrl(p.url) && 1 <= |p.name| <= NameMaxLength && 1 <= |p.description| <= DescriptionMaxLength) {
      return Err(InvalidParams);
    }
    if !(account.Some? && account.value != "") {
      return Err(AuthenticationRequired);
    }
    var existing := GetEntryByUrl(db.entries, p.url);
    if existing.Some? {
      return Err(UrlTaken(p.url));
    }
    var thumbnailBuffer: Option<Bytes> := None;
    if p.thumbnail != "" {
      thumbnailBuffer := Some(decode(p.thumbnail));
    }
    if p.thumbnailMime != "" && p.thumbnailMime !in ValidMimes {
      return Err(InvalidMime);
    }
    var mime := if p.thumbnailMime != "" then Some(p.thumbnailMime) else None;
    var added := db.AddEntry(p.url, p.name, p.description, thumbnailBuffer, mime, account.value, now);
    // the url was absent a moment ago, so the insert is not rejected
    assert added.Ok?;
    r := Ok(added.value);
  }

  // ---------------------------------------------------------------- clawdirect_edit

  datatype EditParams = EditParams(url: string, description: Option<string>, thumbnail: Option<string>,
                                   thumbnailMime: Option<string>)

  /** `EditEntryParams`. */
  predicate EditParamsValid(p: EditParams, isUrl: string -> bool) {
    isUrl(p.url) && (p.description.Some? ==> 1 <= |p.description.value| <= DescriptionMaxLength)
  }

  /** The fields `clawdirect_edit` hands to `updateEntry`: each one the caller supplied. */
  function EditUpdates(p: EditParams, decode: string -> Bytes): Updates {
    Updates(p.description, if p.thumbnail.Some? then Some(decode(p.thumbnail.value)) else None, p.thumbnailMime)
  }

  /** A supplied MIME type must be valid, the empty one included. */
  predicate EditMimeAccepted(p: EditParams) {
    p.thumbnailMime.None? || p.thumbnailMime.value in ValidMimes
  }

  /** `clawdirect_edit`: only the owner may edit, and there is no administrator bypass. Returns
      the entry's name for the success message; every error leaves the database as it was. */
  method EditTool(db: Store, p: EditParams, isUrl: string -> bool, account: Option<string>,
                  decode: string -> Bytes, now: nat) returns (r: Result<string, ToolError>)
    requires db.Valid()
    modifies db
    ensures db.Valid()
    ensures db.likes == old(db.likes) && db.cookies == old(db.cookies) && db.ledger == old(db.ledger)
    ensures db.nextId == old(db.nextId)
    ensures r.Err? ==> db.entries == old(db.entries)
    ensures !EditParamsValid(p, isUrl) ==> r == Err(InvalidParams)
    ensures EditParamsValid(p, isUrl) && !Authenticated(account) ==> r == Err(AuthenticationRequired)
    ensures EditParamsValid(p, isUrl) && Authenticated(account) && old(GetEntryByUrl(db.entries, p.url)).None? ==>
              r == Err(EntryNotFound(p.url))
    ensures (EditParamsValid(p, isUrl) && Authenticated(account) && old(GetEntryByUrl(db.entries, p.url)).Some?
             && old(GetEntryByUrl(db.entries, p.url)).value.owner != account.value) ==> r == Err(NotOwner)
    ensures (EditParamsValid(p, isUrl) && Authenticated(account) && old(GetEntryByUrl(db.entries, p.url)).Some?
             && old(GetEntryByUrl(db.entries, p.url)).value.owner == account.value && !EditMimeAccepted(p)) ==>
              r == Err(InvalidMime)
    ensures r.Ok? <==> EditParamsValid(p, isUrl) && Authenticated(account)
                       && old(GetEntryByUrl(db.entries, p.url)).Some?
                       && old(GetEntryByUrl(db.entries, p.url)).value.owner == account.value
                       && EditMimeAccepted(p)
    ensures r.Ok? ==> r.value == old(GetEntryByUrl(db.entries, p.url)).value.name
                      && db.entries == UpdateRows(old(db.entries), p.url, EditUpdates(p, decode), now)
  {
    if !(isUrl(p.url) && (p.description.Some? ==> 1 <= |p.description.value| <= DescriptionMaxLength)) {
      return Err(InvalidParams);
    }
    if !(account.Some? && account.value != "") {
      return Err(AuthenticationRequired);
    }
    var entry := GetEntryByUrl(db.entries, p.url);
    if entry.None? {
      return Err(EntryNotFound(p.url));
    }
    if entry.value.owner != account.value {
      return Err(NotOwner);
    }
    var description: Option<string> := None;
    if p.description.Some? {
      description := p.description;
    }
    var thumbnail: Option<Bytes> := None;
    if p.thumbnail.Some? {
      thumbnail := Some(decode(p.thumbnail.value));
    }
    var mime: Option<string> := None;
    if p.thumbnailMime.Some? {
      if p.thumbnailMime.value !in ValidMimes {
        return Err(InvalidMime);
      }
      mime := p.thumbnailMime;
    }
    var success := db.UpdateEntry(p.url, Updates(description, thumbnail, mime), now);
    // the row was found above, so the update matches it
    assert success;
    r := Ok(entry.value.name);
  }

  /** After a successful edit the row still belongs to its owner, keeps its id, url and name, and
      its MIME type is one of the valid ones whenever the edit supplied one. */
  lemma EditKeepsOwnership(entries: seq<Entry>, p: EditParams, decode: string -> Bytes, now: nat)
    requires GetEntryByUrl(entries, p.url).Some? && EditMimeAccepted(p)
    ensures var before := GetEntryByUrl(entries, p.url).value;
      var after := GetEntryByUrl(UpdateRows(entries, p.url, EditUpdates(p, decode), now), p.url);
      after.Some? && after.value.owner == before.owner && after.value.id == before.id
      && after.value.name == before.name
      && (p.thumbnailMime.Some? ==> after.value.thumbnailMime.value in ValidMimes)
  {
    LookupUpdated(entries, p.url, EditUpdates(p, decode), now, p.url);
  }

  /** Every MIME type the admin scripts derive from a file extension is one the tools accept. */
  lemma AdminMimesAccepted(ext: string)
    requires Cli.MimeForExtension(ext).Some?
    ensures Cli.MimeForExtension(ext).value in ValidMimes
  {
  }
}
