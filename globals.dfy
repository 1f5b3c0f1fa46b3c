/** The configuration of src/globals.ts, read from environment variables that come in as
    parameters (`None` for an unset variable). */
module Globals {
  import opened Common
  import opened Text

  const DefaultPort := 3001

  datatype ConfigError = FundingDestinationNotSet

  /** `FUNDING_DESTINATION_ATXP`: loading the configuration fails when it is unset or empty. */
  function FundingDestination(env: Option<string>): (r: Result<string, ConfigError>)
    ensures r.Err? <==> env.None? || env.value == ""
    ensures r.Ok? ==> r.value == env.value
  {
    if env.Some? && env.value != "" then Ok(env.value) else Err(FundingDestinationNotSet)
  }

  /** `.filter(Boolean)` on strings: keeps the non-empty ones, in order. */
  function NonEmpty(parts: seq<string>): (r: seq<string>)
    ensures forall s :: s in r <==> s in parts && s != ""
  {
    if parts == [] then []
    else
      assert forall s :: s in parts <==> s == parts[0] || s in parts[1..];
      (if parts[0] == "" then [] else [parts[0]]) + NonEmpty(parts[1..])
  }

  /** The filter keeps order: what it keeps of a concatenation is what it keeps of each part,
      one after the other. */
  lemma {:induction false} NonEmptyConcat(a: seq<string>, b: seq<string>)
    ensures NonEmpty(a + b) == NonEmpty(a) + NonEmpty(b)
  {
    if a == [] {
      assert a + b == b;
    } else {
      assert (a + b)[0] == a[0] && (a + b)[1..] == a[1..] + b;
      NonEmptyConcat(a[1..], b);
    }
  }

  /** Of one string the filter keeps the string itself, unless it is empty. */
  lemma NonEmptySingle(x: string)
    ensures NonEmpty([x]) == if x == "" then [] else [x]
  {
    assert [x][1..] == [];
  }

  function TrimAll(parts: seq<string>): seq<string> {
    seq(|parts|, i requires 0 <= i < |parts| => Trim(parts[i]))
  }

  /** An account id as the list holds it: non-empty, without a comma, and already trimmed. */
  predicate IsListedAccount(s: string) {
    s != "" && ',' !in s && Trim(s) == s
  }

  /** `ADMIN_ACCOUNTS`: the comma-separated ids, trimmed, with the empty ones dropped. */
  function AdminAccounts(env: Option<string>): (r: seq<string>)
    ensures forall i :: 0 <= i < |r| ==> IsListedAccount(r[i])
  {
    var parts := Split(env.GetOr(""), ',');
    var trimmed := TrimAll(parts);
    forall i | 0 <= i < |trimmed| ensures ',' !in trimmed[i] && Trim(trimmed[i]) == trimmed[i] {
      TrimIdempotent(parts[i]);
    }
    var r := NonEmpty(trimmed);
    assert forall i :: 0 <= i < |r| ==> r[i] in trimmed;
    r
  }

  /** For any comma-free segments written comma-separated, the administrators are the
      segments trimmed, with the empty ones dropped, in their order. */
  lemma AdminAccountsOfSegments(segments: seq<string>)
    requires forall i :: 0 <= i < |segments| ==> ',' !in segments[i]
    ensures AdminAccounts(Some(Join(segments, ','))) == NonEmpty(TrimAll(segments))
  {
    var text := Join(segments, ',');
    AdminAccountsUnfold(text);
    if segments == [] {
      assert Split("", ',') == [""];
      assert TrimAll([""]) == [""];
    } else {
      SplitUnique(segments, text, ',');
    }
  }

  lemma AdminAccountsUnfold(text: string)
    ensures AdminAccounts(Some(text)) == NonEmpty(TrimAll(Split(text, ',')))
  {
  }

  /** A list of ids written comma-separated reads back as the same list; an unset variable and
      an empty one both give no administrators. */
  lemma {:induction false} AdminAccountsRoundTrip(accounts: seq<string>)
    requires forall i :: 0 <= i < |accounts| ==> IsListedAccount(accounts[i])
    ensures AdminAccounts(Some(Join(accounts, ','))) == accounts
    ensures AdminAccounts(None) == []
  {
    assert Split("", ',') == [""];
    assert TrimAll([""]) == [""];
    if accounts != [] {
      SplitUnique(accounts, Join(accounts, ','), ',');
      assert TrimAll(accounts) == accounts;
      NonEmptyKeeps(accounts);
    }
  }

  lemma {:induction false} NonEmptyKeeps(parts: seq<string>)
    requires forall i :: 0 <= i < |parts| ==> parts[i] != ""
    ensures NonEmpty(parts) == parts
  {
    if parts != [] {
      assert forall i :: 0 <= i < |parts[1..]| ==> parts[1..][i] == parts[i + 1];
      NonEmptyKeeps(parts[1..]);
      assert parts == [parts[0]] + parts[1..];
    }
  }

  /** `PORT`: 3001 when unset or empty, otherwise `parseInt` of it (`None` stands for NaN). */
  function Port(env: Option<string>): Option<int> {
    if env.Some? && env.value != "" then ParseInt(env.value) else Some(DefaultPort)
  }

  /** A port written in decimal is the port used; without one the server listens on 3001. */
  lemma PortOf(n: nat)
    ensures Port(Some(NatToString(n))) == Some(n)
    ensures Port(None) == Some(DefaultPort) && Port(Some("")) == Some(DefaultPort)
  {
    ParseIntRendering(n, []);
    assert NatToString(n) + [] == NatToString(n);
  }
}
