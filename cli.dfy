/** What the two admin scripts, src/admin-add.ts and src/admin-edit.ts, share: the `--key value`
    argument parser (the same function is written out in both files), the reading of a
    thumbnail file and its MIME type from the file extension. */
module Cli {
  import opened Common
  import opened Text

  const FlagPrefix := "--"

  predicate IsFlag(a: string) {
    StartsWith(a, FlagPrefix)
  }

  /** The flag at position i is followed by an argument it takes as its value: one that is
      present, non-empty (`value &&`) and not itself a flag. */
  predicate TakesValue(args: seq<string>, i: nat)
    requires i < |args|
  {
    IsFlag(args[i]) && i + 1 < |args| && args[i + 1] != "" && !IsFlag(args[i + 1])
  }

  /** The flag `"--" + key` spelled out. */
  lemma FlagSpelling(a: string)
    requires IsFlag(a)
    ensures a == FlagPrefix + a[2..]
  {
  }

  /** The options `parseArgs` collects from `args[i..]`; a key given twice keeps its last value.
      Every option comes from a flag in the arguments followed by its value, and no value is
      empty or looks like a flag. */
  function ArgsFrom(args: seq<string>, i: nat): (m: map<string, string>)
    requires i <= |args|
    ensures forall k :: k in m ==> m[k] != "" && !IsFlag(m[k])
    ensures forall k :: k in m ==>
              exists p :: i <= p < |args| - 1 && args[p] == FlagPrefix + k && args[p + 1] == m[k]
    decreases |args| - i
  {
    if i == |args| then map[]
    else if TakesValue(args, i) then
      var rest := ArgsFrom(args, i + 2);
      FlagSpelling(args[i]);
      map[args[i][2..] := args[i + 1]] + rest
    else ArgsFrom(args, i + 1)
  }

  function ArgMap(args: seq<string>): map<string, string> {
    ArgsFrom(args, 0)
  }

  /** `parseArgs`. */
  method ParseArgs(args: seq<string>) returns (result: map<string, string>)
    ensures result == ArgMap(args)
  {
    result := map[];
    var i := 0;
    while i < |args|
      invariant 0 <= i <= |args|
      invariant ArgMap(args) == result + ArgsFrom(args, i)
      decreases |args| - i
    {
      if StartsWith(args[i], FlagPrefix) && i + 1 < |args| && args[i + 1] != ""
         && !StartsWith(args[i + 1], FlagPrefix) {
        var key := args[i][2..];
        var value := args[i + 1];
        TakeValue(args, i);
        UnionAfterUpdate(result, key, value, ArgsFrom(args, i + 2));
        result := result[key := value];
        i := i + 2;
      } else {
        SkipArg(args, i);
        i := i + 1;
      }
    }
    assert ArgsFrom(args, i) == map[];
  }

  lemma TakeValue(args: seq<string>, i: nat)
    requires i < |args| && TakesValue(args, i)
    ensures ArgsFrom(args, i) == map[args[i][2..] := args[i + 1]] + ArgsFrom(args, i + 2)
  {
  }

  lemma SkipArg(args: seq<string>, i: nat)
    requires i < |args| && !TakesValue(args, i)
    ensures ArgsFrom(args, i) == ArgsFrom(args, i + 1)
  {
  }

  lemma UnionAfterUpdate(m: map<string, string>, k: string, v: string, rest: map<string, string>)
    ensures m + (map[k := v] + rest) == m[k := v] + rest
  {
  }

  /** A command line written as flag/value pairs. */
  function Flatten(pairs: seq<(string, string)>): seq<string> {
    if pairs == [] then [] else [FlagPrefix + pairs[0].0, pairs[0].1] + Flatten(pairs[1..])
  }

  /** The options of a pair list: each key with the value of its last pair. */
  function PairsMap(pairs: seq<(string, string)>): map<string, string> {
    if pairs == [] then map[] else map[pairs[0].0 := pairs[0].1] + PairsMap(pairs[1..])
  }

  predicate ProperValues(pairs: seq<(string, string)>) {
    forall j :: 0 <= j < |pairs| ==> pairs[j].1 != "" && !IsFlag(pairs[j].1)
  }

  /** The options of `args[i..]` depend on those arguments only. */
  lemma {:induction false} ArgsFromSuffix(args: seq<string>, i: nat)
    requires i <= |args|
    ensures ArgsFrom(args, i) == ArgMap(args[i..])
    decreases |args| - i
  {
    var s := args[i..];
    if i < |args| {
      if TakesValue(args, i) {
        assert s[2..] == args[i + 2..];
        ArgsFromSuffix(args, i + 2);
        ArgsFromSuffix(s, 2);
      } else {
        assert s[1..] == args[i + 1..];
        ArgsFromSuffix(args, i + 1);
        ArgsFromSuffix(s, 1);
      }
    }
  }

  /** A command line of flag/value pairs with proper values is parsed into exactly its pairs. */
  lemma {:induction false} ParsePairs(pairs: seq<(string, string)>)
    requires ProperValues(pairs)
    ensures ArgMap(Flatten(pairs)) == PairsMap(pairs)
  {
    if pairs != [] {
      var args := Flatten(pairs);
      assert IsFlag(args[0]) by {
        assert args[0][..2] == FlagPrefix;
      }
      assert TakesValue(args, 0);
      assert args[0][2..] == pairs[0].0;
      assert forall j :: 0 <= j < |pairs[1..]| ==> pairs[1..][j] == pairs[j + 1];
      ParsePairs(pairs[1..]);
      assert args[2..] == Flatten(pairs[1..]);
      ArgsFromSuffix(args, 2);
    }
  }

  /** The flag at position p is the last one that gives its key a value. */
  predicate LastForKey(args: seq<string>, p: nat)
    requires p < |args| && IsFlag(args[p])
  {
    forall q :: p < q < |args| && TakesValue(args, q) ==> args[q][2..] != args[p][2..]
  }

  /** The converse of `ArgsFrom`'s promise: every flag from position i on that is followed by a
      value puts its key in the options. A value is never itself a flag, so no flag is skipped
      as the value of the one before. */
  lemma {:induction false} ArgsFromComplete(args: seq<string>, i: nat)
    requires i <= |args|
    ensures forall p :: i <= p < |args| && TakesValue(args, p) ==> args[p][2..] in ArgsFrom(args, i)
    decreases |args| - i
  {
    if i < |args| {
      if TakesValue(args, i) {
        ArgsFromComplete(args, i + 2);
        TakeValue(args, i);
      } else {
        ArgsFromComplete(args, i + 1);
        SkipArg(args, i);
      }
    }
  }

  /** From position i on, each key keeps the value of the last flag that gives it one. */
  predicate LastWinsFrom(args: seq<string>, i: nat)
    requires i <= |args|
  {
    forall p :: i <= p < |args| && TakesValue(args, p) && LastForKey(args, p) ==>
      args[p][2..] in ArgsFrom(args, i) && ArgsFrom(args, i)[args[p][2..]] == args[p + 1]
  }

  /** A key keeps the value of the last flag from position i on that gives it one. */
  lemma ArgsFromLastWins(args: seq<string>, i: nat)
    requires i <= |args|
    ensures LastWinsFrom(args, i)
  {
    forall p | i <= p < |args| && TakesValue(args, p) && LastForKey(args, p)
      ensures args[p][2..] in ArgsFrom(args, i) && ArgsFrom(args, i)[args[p][2..]] == args[p + 1]
    {
      LastWinsAt(args, i, p);
    }
  }

  /** The last flag at or after position i that gives a key a value decides the key's value. */
  lemma {:induction false} LastWinsAt(args: seq<string>, i: nat, p: nat)
    requires i <= p < |args| && TakesValue(args, p) && LastForKey(args, p)
    ensures args[p][2..] in ArgsFrom(args, i) && ArgsFrom(args, i)[args[p][2..]] == args[p + 1]
    decreases p - i
  {
    if i == p {
      TakeValue(args, i);
      FirstKeyLast(args, i);
    } else if TakesValue(args, i) {
      // args[p] is a flag and args[i + 1] is not, so p is at least i + 2
      LastWinsAt(args, i + 2, p);
      TakeValue(args, i);
    } else {
      LastWinsAt(args, i + 1, p);
      SkipArg(args, i);
    }
  }

  /** The key of the last flag that gives it a value is not set again further on. */
  lemma FirstKeyLast(args: seq<string>, i: nat)
    requires i < |args| && TakesValue(args, i) && LastForKey(args, i)
    ensures args[i][2..] !in ArgsFrom(args, i + 2)
  {
    ArgsFromKeys(args, i + 2);
  }

  /** Every key in the options is that of a flag followed by a value. */
  lemma {:induction false} ArgsFromKeys(args: seq<string>, i: nat)
    requires i <= |args|
    ensures forall k :: k in ArgsFrom(args, i) ==> exists q :: i <= q < |args| && TakesValue(args, q) && args[q][2..] == k
    decreases |args| - i
  {
    if i < |args| {
      if TakesValue(args, i) {
        ArgsFromKeys(args, i + 2);
        TakeValue(args, i);
      } else {
        ArgsFromKeys(args, i + 1);
        SkipArg(args, i);
      }
    }
  }

  /** A flag not followed by a value, whose spelling occurs nowhere else, gives no option. */
  lemma FlagWithoutValue(args: seq<string>, p: nat)
    requires p < |args| && IsFlag(args[p]) && !TakesValue(args, p)
    requires forall q :: 0 <= q < |args| && q != p ==> args[q] != args[p]
    ensures args[p][2..] !in ArgMap(args)
  {
    FlagSpelling(args[p]);
  }

  // ---------------------------------------------------------------- file extensions

  /** Position of the last `c` in `s`, or -1. */
  function LastIndexOf(s: string, c: char): (k: int)
    ensures -1 <= k < |s|
    ensures k >= 0 ==> s[k] == c && forall j :: k < j < |s| ==> s[j] != c
    ensures k < 0 ==> forall j :: 0 <= j < |s| ==> s[j] != c
  {
    if s == [] then -1
    else if s[|s| - 1] == c then |s| - 1
    else LastIndexOf(s[..|s| - 1], c)
  }

  /** `p` without its trailing slashes. */
  function TrimTrailingSlashes(p: string): (r: string)
    ensures |r| <= |p| && r == p[..|r|]
    ensures r == [] || r[|r| - 1] != '/'
    ensures forall k :: |r| <= k < |p| ==> p[k] == '/'
  {
    if p == [] || p[|p| - 1] != '/' then p else TrimTrailingSlashes(p[..|p| - 1])
  }

  /** The last path component, trailing slashes ignored. */
  function Basename(p: string): (b: string)
    ensures '/' !in b
  {
    var t := TrimTrailingSlashes(p);
    t[LastIndexOf(t, '/') + 1..]
  }

  /** `path.extname` on POSIX: the last component's text from its last dot, unless that dot
      opens the component (`.gif`) or there is none, and `..` has no extension. */
  function Extname(p: string): (e: string)
    ensures e == "" || (e[0] == '.' && forall k :: 1 <= k < |e| ==> e[k] != '.' && e[k] != '/')
    ensures e != "" ==> |e| < |Basename(p)| && Basename(p)[|Basename(p)| - |e|..] == e
  {
    var b := Basename(p);
    var d := LastIndexOf(b, '.');
    if b == ".." || d <= 0 then "" else b[d..]
  }

  /** Characters appended after the last `c` do not move it. */
  lemma {:induction false} LastIndexAfter(a: string, b: string, c: char)
    requires c !in b
    ensures LastIndexOf(a + b, c) == LastIndexOf(a, c)
    decreases |b|
  {
    if b == [] {
      assert a + b == a;
    } else {
      var n := |b| - 1;
      var ab := a + b;
      assert ab[..|ab| - 1] == a + b[..n];
      assert b[n] in b;
      assert ab[|ab| - 1] == b[n] != c;
      assert LastIndexOf(ab, c) == LastIndexOf(ab[..|ab| - 1], c);
      assert c !in b[..n] by {
        assert forall x :: x in b[..n] ==> x in b;
      }
      LastIndexAfter(a, b[..n], c);
    }
  }

  /** A directory part is empty or ends in a slash. */
  predicate IsDirPart(dir: string) {
    dir == [] || dir[|dir| - 1] == '/'
  }

  /** The last component of a path is what follows its directory part. */
  lemma BasenameOfFile(dir: string, name: string)
    requires IsDirPart(dir)
    requires name != [] && '/' !in name && name[|name| - 1] != '/'
    ensures Basename(dir + name) == name
  {
    var p := dir + name;
    assert p[|p| - 1] == name[|name| - 1];
    assert TrimTrailingSlashes(p) == p;
    LastIndexAfter(dir, name, '/');
    if dir != [] {
      assert LastIndexOf(dir, '/') == |dir| - 1;
    }
    assert p[|dir|..] == name;
  }

  /** The text after the last dot of `stem.x`, when `x` has no dot. */
  lemma LastDot(stem: string, x: string)
    requires '.' !in x
    ensures LastIndexOf(stem + "." + x, '.') == |stem|
  {
    LastIndexAfter(stem + ".", x, '.');
    assert (stem + ".")[|stem + "."| - 1] == '.';
    assert stem + "." + x == (stem + ".") + x;
  }

  lemma NoSlashIn(stem: string, x: string)
    requires '/' !in stem && '/' !in x
    ensures '/' !in stem + "." + x
  {
    var name := stem + "." + x;
    forall k | 0 <= k < |name| ensures name[k] != '/' {
      if k < |stem| { assert name[k] == stem[k]; }
      else if k > |stem| { assert name[k] == x[k - |stem| - 1]; }
    }
  }

  /** A last component `stem.x` has the extension `.x`. */
  lemma ExtnameOfBasename(p: string, stem: string, x: string)
    requires stem != [] && x != [] && '.' !in x
    requires Basename(p) == stem + "." + x
    ensures Extname(p) == "." + x
  {
    var name := stem + "." + x;
    LastDot(stem, x);
    assert name == stem + ("." + x);
    assert name[|stem|..] == "." + x;
    assert |name| > 2;
  }

  /** A file name `stem.x` after any directory part has the extension `.x`. */
  lemma ExtnameOfFile(dir: string, stem: string, x: string)
    requires IsDirPart(dir)
    requires stem != [] && '/' !in stem
    requires x != [] && '/' !in x && '.' !in x
    ensures Extname(dir + stem + "." + x) == "." + x
  {
    var name := stem + "." + x;
    var p := dir + stem + "." + x;
    NoSlashIn(stem, x);
    assert name[|name| - 1] == x[|x| - 1];
    assert p == dir + name;
    BasenameOfFile(dir, name);
    ExtnameOfBasename(p, stem, x);
  }

  /** A file name that starts with its only dot has no extension. */
  lemma ExtnameOfDotFile(dir: string, x: string)
    requires IsDirPart(dir)
    requires x != [] && '/' !in x && '.' !in x
    ensures Extname(dir + "." + x) == ""
  {
    var name := "." + x;
    var p := dir + "." + x;
    NoSlashIn([], x);
    assert [] + "." + x == name;
    assert name[|name| - 1] == x[|x| - 1];
    assert p == dir + name;
    BasenameOfFile(dir, name);
    ExtnameOfDotBasename(p, x);
  }

  /** A last component `.x` has no extension. */
  lemma ExtnameOfDotBasename(p: string, x: string)
    requires '.' !in x && Basename(p) == "." + x
    ensures Extname(p) == ""
  {
    LastDot([], x);
    assert [] + "." + x == "." + x;
  }

  /** Trailing slashes do not change the extension. */
  lemma ExtnameTrailingSlash(p: string)
    ensures Extname(p + "/") == Extname(p)
  {
    BasenameTrailingSlash(p);
  }

  lemma BasenameTrailingSlash(p: string)
    ensures Basename(p + "/") == Basename(p)
  {
    TrimAppendedSlash(p);
  }

  lemma TrimAppendedSlash(p: string)
    ensures TrimTrailingSlashes(p + "/") == TrimTrailingSlashes(p)
  {
    var q := p + "/";
    assert q[|q| - 1] == '/' && q[..|q| - 1] == p;
  }

  /** The `mimeMap` of both scripts. */
  function MimeForExtension(ext: string): (m: Option<string>)
    ensures m.Some? <==> ext in [".png", ".jpg", ".jpeg", ".gif", ".webp"]
    ensures m.Some? ==> m.value in ["image/png", "image/jpeg", "image/gif", "image/webp"]
    ensures ext == ".png" ==> m == Some("image/png")
    ensures ext == ".jpg" || ext == ".jpeg" ==> m == Some("image/jpeg")
    ensures ext == ".gif" ==> m == Some("image/gif")
    ensures ext == ".webp" ==> m == Some("image/webp")
  {
    if ext == ".png" then Some("image/png")
    else if ext == ".jpg" || ext == ".jpeg" then Some("image/jpeg")
    else if ext == ".gif" then Some("image/gif")
    else if ext == ".webp" then Some("image/webp")
    else None
  }

  /** `path.extname(thumbnail).toLowerCase()`. */
  function ExtensionOf(path: string): string {
    ToLowerAscii(Extname(path))
  }

  /** The extension is matched without regard to the case of its ASCII letters. */
  lemma ExtensionIgnoresCase(dir: string, stem: string, x: string)
    requires IsDirPart(dir)
    requires stem != [] && '/' !in stem
    requires x != [] && '/' !in x && '.' !in x
    ensures ExtensionOf(dir + stem + "." + x) == "." + ToLowerAscii(x)
  {
    ExtnameOfFile(dir, stem, x);
    assert ToLowerAscii("." + x) == [LowerChar('.')] + ToLowerAscii(x);
  }

  // ---------------------------------------------------------------- outcomes

  /** The `process.exit(1)` paths of the scripts, after their messages. */
  datatype CliError =
    | Usage
    | AlreadyExists(url: string)
    | EntryNotFound(url: string)
    | ThumbnailNotFound(path: string)
    | UnsupportedFormat(ext: string)
    | NoUpdates

  /** `const { key } = args` read for truthiness: a missing key reads as "". */
  function Arg(a: map<string, string>, key: string): string {
    if key in a then a[key] else ""
  }

  /** The thumbnail step: the file must exist (`fs.existsSync`), its bytes are read, and its
      extension must be one `mimeMap` knows. `readFile` stands for the file system. */
  function ReadThumbnail(path: string, readFile: string -> Option<Bytes>): (r: Result<(Bytes, string), CliError>)
    ensures readFile(path).None? ==> r == Err(ThumbnailNotFound(path))
    ensures readFile(path).Some? && MimeForExtension(ExtensionOf(path)).None? ==>
              r == Err(UnsupportedFormat(ExtensionOf(path)))
    ensures r.Ok? ==> r.value.0 == readFile(path).value
                      && Some(r.value.1) == MimeForExtension(ExtensionOf(path))
  {
    match readFile(path)
    case None => Err(ThumbnailNotFound(path))
    case Some(data) =>
      match MimeForExtension(ExtensionOf(path))
      case None => Err(UnsupportedFormat(ExtensionOf(path)))
      case Some(mime) => Ok((data, mime))
  }

  /** The thumbnail columns a script writes for `--thumbnail path`: none when no path is given,
      otherwise the file's bytes and the type its extension names. */
  function ThumbnailColumns(path: string, readFile: string -> Option<Bytes>): Result<(Option<Bytes>, Option<string>), CliError> {
    if path == "" then Ok((None, None))
    else match ReadThumbnail(path, readFile)
      case Err(e) => Err(e)
      case Ok((data, mime)) => Ok((Some(data), Some(mime)))
  }
}
