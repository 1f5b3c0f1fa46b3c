/** The HTTP routes of src/api.ts: the ranked listing, liking an entry with an authentication
    cookie, and serving thumbnails. A request is reduced to the route parameter and the Cookie
    header; a response to its status and the fields the route sets. */
module Api {
  import opened Common
  import opened Text
  import opened Db

  /** An Express 5 route parameter: absent, a single value, or repeated values. */
  datatype Param = Missing | One(value: string) | Many(values: seq<string>)

  /** `getStringParam`: the first of repeated values (none when there are none). */
  function GetStringParam(p: Param): (r: Option<string>)
    ensures r.None? <==> p.Missing? || (p.Many? && p.values == [])
    ensures r.Some? ==> (p.One? && r.value == p.value) || (p.Many? && r.value == p.values[0])
  {
    match p
    case Missing => None
    case One(v) => Some(v)
    case Many(vs) => if |vs| > 0 then Some(vs[0]) else None
  }

  /** `if (!idParam)`, then `parseInt(idParam)` with `isNaN`: the route's entry id, or which of the
      two 400 answers the parameter earns. */
  datatype IdParse = NoId | BadId | Id(id: int)

  function ParseIdParam(p: Param): (r: IdParse)
    ensures r.NoId? <==> GetStringParam(p).None? || GetStringParam(p).value == ""
    ensures r.BadId? <==> !r.NoId? && ParseInt(GetStringParam(p).value).None?
    ensures r.Id? ==> ParseInt(GetStringParam(p).value) == Some(r.id)
  {
    match GetStringParam(p)
    case None => NoId
    case Some(s) =>
      if s == "" then NoId
      else match ParseInt(s)
        case None => BadId
        case Some(n) => Id(n)
  }

  /** The path segment `/thumbnails/<id>` and `/api/like/<id>` carry for an entry names it again. */
  lemma IdParamRoundTrip(id: nat)
    ensures ParseIdParam(One(NatToString(id))) == Id(id)
  {
    var s := NatToString(id);
    ParseIntOfDecimal(id);
    assert GetStringParam(One(s)) == Some(s) && s != "";
  }

  // ---------------------------------------------------------------- cookies

  const CookieName := "clawdirect_cookie"
  const CookiePrefix := CookieName + "="

  /** `cookieHeader.split(';').map(c => c.trim())`. */
  function CookieParts(header: string): (parts: seq<string>)
    ensures |parts| == |Split(header, ';')|
    ensures forall i :: 0 <= i < |parts| ==> parts[i] == Trim(Split(header, ';')[i])
  {
    var pieces := Split(header, ';');
    seq(|pieces|, i requires 0 <= i < |pieces| => Trim(pieces[i]))
  }

  predicate IsSessionCookie(part: string) {
    StartsWith(part, CookiePrefix)
  }

  /** The value of the first part that names the session cookie. */
  function FirstCookie(parts: seq<string>): (r: Option<string>)
    ensures r.Some? <==> exists i :: 0 <= i < |parts| && IsSessionCookie(parts[i])
    ensures r.Some? ==> exists i :: 0 <= i < |parts| && IsSessionCookie(parts[i])
                                    && r.value == parts[i][|CookiePrefix|..]
                                    && forall j :: 0 <= j < i ==> !IsSessionCookie(parts[j])
  {
    if parts == [] then None
    else if IsSessionCookie(parts[0]) then
      Some(parts[0][|CookiePrefix|..])
    else
      var r := FirstCookie(parts[1..]);
      assert forall i :: 0 <= i < |parts[1..]| ==> parts[1..][i] == parts[i + 1];
      if r.Some? then
        var i :| 0 <= i < |parts[1..]| && IsSessionCookie(parts[1..][i]) && r.value == parts[1..][i][|CookiePrefix|..]
                 && forall j :: 0 <= j < i ==> !IsSessionCookie(parts[1..][j]);
        assert forall j :: 0 <= j < i + 1 ==> !IsSessionCookie(parts[j]) by {
          forall j | 0 <= j < i + 1 ensures !IsSessionCookie(parts[j]) {
            if j > 0 { assert parts[j] == parts[1..][j - 1]; }
          }
        }
        r
      else
        r
  }

  /** The session cookie a Cookie header carries; no header, or an empty one, carries none. */
  function CookieValue(header: Option<string>): Option<string> {
    if header.None? || header.value == "" then None else FirstCookie(CookieParts(header.value))
  }

  /** The session cookie of a header is the rest of the first `;`-separated piece that, once
      trimmed, starts with `clawdirect_cookie=`; a header without such a piece carries none,
      and so do a missing and an empty header. */
  lemma CookieValueOfPieces(header: string)
    ensures var pieces := Split(header, ';');
      header != "" ==>
        (CookieValue(Some(header)).Some? <==> exists i :: 0 <= i < |pieces| && IsSessionCookie(Trim(pieces[i])))
    ensures var pieces := Split(header, ';');
      CookieValue(Some(header)).Some? ==>
        exists i :: 0 <= i < |pieces| && IsSessionCookie(Trim(pieces[i]))
                    && CookieValue(Some(header)).value == Trim(pieces[i])[|CookiePrefix|..]
                    && forall j :: 0 <= j < i ==> !IsSessionCookie(Trim(pieces[j]))
    ensures CookieValue(None).None? && CookieValue(Some("")).None?
  {
    var parts := CookieParts(header);
    assert forall i :: 0 <= i < |parts| ==> parts[i] == Trim(Split(header, ';')[i]);
  }

  /** The cookie extraction of the like route: no header, or an empty one, gives no cookie. */
  method ExtractCookie(header: Option<string>) returns (cookieValue: Option<string>)
    ensures cookieValue == CookieValue(header)
  {
    cookieValue := None;
    if header.Some? && header.value != "" {
      var cookies := CookieParts(header.value);
      cookieValue := ScanCookies(cookies);
    }
  }

  /** The loop over the header's parts that stops at the first one naming the session cookie. */
  method ScanCookies(cookies: seq<string>) returns (cookieValue: Option<string>)
    ensures cookieValue == FirstCookie(cookies)
  {
    cookieValue := None;
    var i := 0;
    while i < |cookies|
      invariant 0 <= i <= |cookies|
      invariant cookieValue.None?
      invariant forall j :: 0 <= j < i ==> !IsSessionCookie(cookies[j])
    {
      if StartsWith(cookies[i], CookiePrefix) {
        cookieValue := Some(cookies[i][|CookiePrefix|..]);
        break;
      }
      i := i + 1;
    }
    FirstCookieAt(cookies, i);
  }

  /** When no part before `i` names the session cookie, FirstCookie answers from part `i` on. */
  lemma FirstCookieAt(parts: seq<string>, i: nat)
    requires i <= |parts|
    requires forall j :: 0 <= j < i ==> !IsSessionCookie(parts[j])
    ensures i == |parts| ==> FirstCookie(parts) == None
    ensures i < |parts| && IsSessionCookie(parts[i]) ==> FirstCookie(parts) == Some(parts[i][|CookiePrefix|..])
  {
    if i < |parts| && IsSessionCookie(parts[i]) {
      var r := FirstCookie(parts);
      assert IsSessionCookie(parts[i]);
      var k :| 0 <= k < |parts| && IsSessionCookie(parts[k]) && r.value == parts[k][|CookiePrefix|..]
               && forall j :: 0 <= j < k ==> !IsSessionCookie(parts[j]);
      assert k == i;
    }
  }

  /** A part with no separator splits off the front of the header. */
  lemma {:induction false} SplitFirst(a: string, b: string, sep: char)
    requires sep !in a
    ensures Split(a + [sep] + b, sep) == [a] + Split(b, sep)
  {
    var parts := [a] + Split(b, sep);
    assert parts[1..] == Split(b, sep);
    assert Join(parts, sep) == a + [sep] + b;
    forall i | 0 <= i < |parts| ensures sep !in parts[i] {
      if i > 0 { assert parts[i] == Split(b, sep)[i - 1]; }
    }
    SplitUnique(parts, a + [sep] + b, sep);
  }

  lemma SplitNone(a: string, sep: char)
    requires sep !in a
    ensures Split(a, sep) == [a]
  {
    SplitUnique([a], a, sep);
  }

  lemma TrimNoop(s: string)
    requires s != [] && !IsWhitespace(s[0]) && !IsWhitespace(s[|s| - 1])
    ensures Trim(s) == s
  {
    assert TrimStart(s) == s;
    assert TrimEnd(s) == s;
  }

  /** A header that starts with the session cookie, as the browser sends it once the value the
      cookie tool returned is set, gives that value back, whatever other cookies follow. */
  lemma {:induction false} CookieValueOfHeader(token: string, rest: Option<string>)
    requires ';' !in token
    requires token == [] || !IsWhitespace(token[|token| - 1])
    ensures CookieValue(Some(CookiePrefix + token + (if rest.Some? then ";" + rest.value else ""))) == Some(token)
  {
    var first := CookiePrefix + token;
    var header := first + (if rest.Some? then ";" + rest.value else "");
    NoSeparator(token, first);
    if rest.Some? {
      assert header == first + [';'] + rest.value;
      SplitFirst(first, rest.value, ';');
      assert Split(header, ';')[0] == first;
    } else {
      assert header == first;
      SplitNone(first, ';');
    }
    assert |header| >= |CookiePrefix|;
    SessionPart(token, first);
    FirstPart(header, first);
    HeaderFirstPart(header, first, token);
  }

  lemma NoSeparator(token: string, first: string)
    requires ';' !in token && first == CookiePrefix + token
    ensures ';' !in first
  {
    assert forall k :: 0 <= k < |CookiePrefix| ==> first[k] == CookiePrefix[k];
    assert forall k :: |CookiePrefix| <= k < |first| ==> first[k] == token[k - |CookiePrefix|];
  }

  /** A header whose first part is a session cookie part carries that part's value. */
  lemma HeaderFirstPart(header: string, first: string, token: string)
    requires header != "" && CookieParts(header)[0] == first
    requires IsSessionCookie(first) && first[|CookiePrefix|..] == token
    ensures CookieValue(Some(header)) == Some(token)
  {
  }

  lemma FirstPart(header: string, first: string)
    requires Split(header, ';')[0] == first && Trim(first) == first
    ensures CookieParts(header)[0] == first
  {
  }

  lemma SessionPart(token: string, first: string)
    requires ';' !in token
    requires token == [] || !IsWhitespace(token[|token| - 1])
    requires first == CookiePrefix + token
    ensures Trim(first) == first && IsSessionCookie(first) && first[|CookiePrefix|..] == token
  {
    assert first[0] == 'c';
    NoSeparator(token, first);
    if token == [] {
      assert first[|first| - 1] == '=';
    } else {
      assert first[|first| - 1] == token[|token| - 1];
    }
    TrimNoop(first);
    assert first[..|CookiePrefix|] == CookiePrefix;
  }

  // ---------------------------------------------------------------- POST /api/like/:id

  /** The answers of the like route, in the order it checks. */
  datatype LikeResponse =
    | MissingEntryId                          // 400 'Missing entry ID'
    | InvalidEntryId                          // 400 'Invalid entry ID'
    | UnknownEntry                            // 404 'Entry not found'
    | AgentsOnly                              // 401, no session cookie
    | InvalidCookie                           // 401, the cookie names no account
    | Liked(alreadyLiked: bool, totalLikes: nat)

  function Status(r: LikeResponse): nat {
    match r
    case MissingEntryId => 400
    case InvalidEntryId => 400
    case UnknownEntry => 404
    case AgentsOnly => 401
    case InvalidCookie => 401
    case Liked(_, _) => 200
  }

  /** The like route. Only a request that names an existing entry and carries a cookie the
      store knows reaches the likes table; the like is recorded once per account, and the count
      returned is the entry's count after the request. */
  method HandleLike(db: Store, idParam: Param, cookieHeader: Option<string>) returns (resp: LikeResponse)
    requires db.Valid()
    modifies db
    ensures db.Valid()
    ensures db.entries == old(db.entries) && db.nextId == old(db.nextId)
    ensures db.cookies == old(db.cookies) && db.ledger == old(db.ledger)
    ensures !resp.Liked? ==> db.likes == old(db.likes)
    ensures ParseIdParam(idParam).NoId? ==> resp == MissingEntryId
    ensures ParseIdParam(idParam).BadId? ==> resp == InvalidEntryId
    ensures ParseIdParam(idParam).Id? && !HasEntry(db.entries, ParseIdParam(idParam).id) ==> resp == UnknownEntry
    ensures (ParseIdParam(idParam).Id? && HasEntry(db.entries, ParseIdParam(idParam).id)
             && (CookieValue(cookieHeader).None? || CookieValue(cookieHeader).value == "")) ==> resp == AgentsOnly
    ensures (ParseIdParam(idParam).Id? && HasEntry(db.entries, ParseIdParam(idParam).id)
             && CookieValue(cookieHeader).Some? && CookieValue(cookieHeader).value != ""
             && GetAccountFromCookie(db.cookies, CookieValue(cookieHeader).value).None?) ==> resp == InvalidCookie
    ensures resp.Liked? <==> ParseIdParam(idParam).Id? && HasEntry(db.entries, ParseIdParam(idParam).id)
                             && CookieValue(cookieHeader).Some? && CookieValue(cookieHeader).value != ""
                             && GetAccountFromCookie(db.cookies, CookieValue(cookieHeader).value).Some?
    ensures resp.Liked? ==>
              var id := ParseIdParam(idParam).id;
              var account := GetAccountFromCookie(db.cookies, CookieValue(cookieHeader).value).value;
              && resp.alreadyLiked == HasLiked(old(db.likes), id, account)
              && db.likes == old(db.likes) + {Like(id, account)}
              && resp.totalLikes == GetLikeCount(db.likes, id)
              && resp.totalLikes == GetLikeCount(old(db.likes), id) + (if resp.alreadyLiked then 0 else 1)
  {
    var parsed := ParseIdParam(idParam);
    if parsed.NoId? {
      return MissingEntryId;
    }
    if parsed.BadId? {
      return InvalidEntryId;
    }
    var entryId := parsed.id;
    var entry := GetEntryById(db.entries, entryId);
    if entry.None? {
      return UnknownEntry;
    }
    var cookieValue := ExtractCookie(cookieHeader);
    if cookieValue.None? || cookieValue.value == "" {
      return AgentsOnly;
    }
    var atxpAccount := GetAccountFromCookie(db.cookies, cookieValue.value);
    if atxpAccount.None? {
      return InvalidCookie;
    }
    resp := RecordLike(db, entryId, atxpAccount.value);
  }

  /** The last steps of the like route, once the entry and the account are known. */
  method RecordLike(db: Store, entryId: int, account: string) returns (resp: LikeResponse)
    requires db.Valid() && HasEntry(db.entries, entryId)
    modifies db
    ensures db.Valid()
    ensures db.entries == old(db.entries) && db.nextId == old(db.nextId)
    ensures db.cookies == old(db.cookies) && db.ledger == old(db.ledger)
    ensures resp.Liked?
    ensures resp.alreadyLiked == HasLiked(old(db.likes), entryId, account)
    ensures db.likes == old(db.likes) + {Like(entryId, account)}
    ensures resp.totalLikes == GetLikeCount(db.likes, entryId)
    ensures resp.totalLikes == GetLikeCount(old(db.likes), entryId) + (if resp.alreadyLiked then 0 else 1)
  {
    if HasLiked(db.likes, entryId, account) {
      assert db.likes == db.likes + {Like(entryId, account)};
      return Liked(true, GetLikeCount(db.likes, entryId));
    }
    var added := db.AddLike(entryId, account);
    resp := Liked(false, GetLikeCount(db.likes, entryId));
  }

  // ---------------------------------------------------------------- GET /thumbnails/:id

  /** The answers of the thumbnail route. */
  datatype ThumbnailResponse =
    | MissingThumbnailId                      // 400 'Missing entry ID'
    | InvalidThumbnailId                      // 400 'Invalid entry ID'
    | ThumbnailNotFound                       // 404, Cache-Control: no-cache
    | Image(contentType: Option<string>, data: Bytes)

  const MaxAge := 86400

  /** The Cache-Control header the route sets, if any. */
  function CacheControl(r: ThumbnailResponse): Option<string> {
    match r
    case ThumbnailNotFound => Some("no-cache")
    case Image(_, _) => Some("public, max-age=" + NatToString(MaxAge))
    case _ => None
  }

  /** The thumbnail route: an image only for an existing entry with a non-empty stored
      thumbnail, served with the entry's own MIME type. */
  function HandleThumbnail(entries: seq<Entry>, idParam: Param): (r: ThumbnailResponse)
    ensures ParseIdParam(idParam).NoId? <==> r.MissingThumbnailId?
    ensures ParseIdParam(idParam).BadId? <==> r.InvalidThumbnailId?
    ensures r.Image? <==> ParseIdParam(idParam).Id? && HasEntry(entries, ParseIdParam(idParam).id)
                          && GetEntryById(entries, ParseIdParam(idParam).id).value.thumbnail.Some?
                          && |GetEntryById(entries, ParseIdParam(idParam).id).value.thumbnail.value| > 0
    ensures r.Image? ==> var e := GetEntryById(entries, ParseIdParam(idParam).id).value;
                         r.data == e.thumbnail.value && r.contentType == e.thumbnailMime
  {
    match ParseIdParam(idParam)
    case NoId => MissingThumbnailId
    case BadId => InvalidThumbnailId
    case Id(entryId) =>
      match GetThumbnail(entries, entryId)
      case None => ThumbnailNotFound
      case Some(t) => if |t.data| == 0 then ThumbnailNotFound else Image(t.mime, t.data)
  }

  lemma EntryById(entries: seq<Entry>, e: Entry)
    requires IdsIncreasing(entries) && e in entries
    ensures GetEntryById(entries, e.id) == Some(e)
  {
    HasEntryIn(entries, e);
    var f := GetEntryById(entries, e.id).value;
    var i :| 0 <= i < |entries| && entries[i] == e;
    var j :| 0 <= j < |entries| && entries[j] == f;
    assert i == j;
  }

  /** The `thumbnailUrl` the listing shows for an entry with a MIME type and a non-empty
      thumbnail leads back to that entry's image: its path segment is the entry's id, and the
      route serves exactly the stored bytes with the stored MIME type. */
  lemma ListedThumbnailServed(entries: seq<Entry>, e: Entry)
    requires IdsIncreasing(entries) && e in entries
    requires ThumbnailUrl(e).Some? && e.thumbnail.Some? && |e.thumbnail.value| > 0
    ensures StartsWith(ThumbnailUrl(e).value, ThumbnailPath + NatToString(e.id) + "?")
    ensures HandleThumbnail(entries, One(NatToString(e.id))) == Image(e.thumbnailMime, e.thumbnail.value)
  {
    var prefix := ThumbnailPath + NatToString(e.id) + "?";
    var u := ThumbnailUrl(e).value;
    assert (ThumbnailPath + NatToString(e.id) + "?v=")[..|prefix|] == prefix;
    assert u[..|prefix|] == prefix;
    IdParamRoundTrip(e.id);
    EntryById(entries, e);
  }

  /** A session cookie handed out by the cookie tool and sent back first in the Cookie header
      authenticates the like as the account it was issued to. */
  lemma IssuedCookieAuthenticates(cookies: map<string, string>, token: string, account: string,
                                  rest: Option<string>)
    requires account != "" && ';' !in token
    requires token != [] && !IsWhitespace(token[|token| - 1])
    ensures var header := CookiePrefix + token + (if rest.Some? then ";" + rest.value else "");
            CookieValue(Some(header)) == Some(token)
            && GetAccountFromCookie(cookies[token := account], CookieValue(Some(header)).value) == Some(account)
  {
    CookieValueOfHeader(token, rest);
  }
}
