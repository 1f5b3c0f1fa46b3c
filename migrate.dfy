/** The migration runner of src/migrate.ts: named one-shot transformations that add likes
    from synthetic accounts to every entry, each recorded in the ledger once it completes. */
module Migrate {
  import opened Common
  import opened Db

  /** One like-adding migration: its ledger name and the range `randomInt` draws from. */
  datatype Migration = Migration(name: string, minLikes: nat, maxLikes: nat)

  const AddRandomLikes := Migration("add-random-likes", 12, 97)
  const AddMoreLikesV1 := Migration("add-more-likes-v1", 12, 343)
  const AddMoreLikesV2 := Migration("add-more-likes-v2", 12, 343)
  const AddMoreLikesV3 := Migration("add-more-likes-v3", 12, 343)
  const AddMoreLikesV4 := Migration("add-more-likes-v4", 12, 343)

  /** The order in which `migrate()` runs them. */
  const Schedule: seq<Migration> := [AddRandomLikes, AddMoreLikesV1, AddMoreLikesV2, AddMoreLikesV3, AddMoreLikesV4]

  const ScheduleNames: set<string> := NamesOf(Schedule)

  /** `randomInt(min, max)` = `Math.floor(Math.random() * (max - min + 1)) + min`, with the
      `Math.random()` reading `r` in [0, 1) as a real number. */
  function RandomInt(min: int, max: int, r: real): (n: int)
    requires min <= max
    requires 0.0 <= r < 1.0
    ensures min <= n <= max
  {
    var span := (max - min + 1) as real;
    assert 0.0 <= r * span < span by {
      assert r * span <= 1.0 * span;
      assert r * span != span;
    }
    (r * span).Floor + min
  }

  /** `generateFakeAccount()` for the random hex suffix `hex`. */
  function FakeAccount(hex: string): string {
    "seed-agent-" + hex
  }

  /** Distinct suffixes give distinct accounts. */
  lemma FakeAccountInjective(a: string, b: string)
    requires a != b
    ensures FakeAccount(a) != FakeAccount(b)
  {
    var p := "seed-agent-";
    assert FakeAccount(a)[|p|..] == a;
    assert FakeAccount(b)[|p|..] == b;
  }

  /** The randomness one run consumes: `roll(k)` is the `Math.random()` reading for the k-th
      entry, `hex(k, i)` the suffix of the i-th synthetic account made for it. */
  datatype Draws = Draws(roll: nat -> real, hex: (nat, nat) -> string)

  ghost predicate RollsInRange(d: Draws) {
    forall k: nat :: 0.0 <= d.roll(k) < 1.0
  }

  predicate WellRanged(m: Migration) {
    m.minLikes <= m.maxLikes
  }

  /** `likesToAdd` for the k-th entry. */
  function LikesToAdd(m: Migration, d: Draws, k: nat): nat
    requires WellRanged(m) && RollsInRange(d)
  {
    RandomInt(m.minLikes, m.maxLikes, d.roll(k))
  }

  /** Every like-adding migration draws between 12 and 97 or between 12 and 343 likes. */
  lemma ScheduleBounds(d: Draws, k: nat)
    requires RollsInRange(d)
    ensures 12 <= LikesToAdd(AddRandomLikes, d, k) <= 97
    ensures forall m :: m in Schedule[1..] ==> 12 <= LikesToAdd(m, d, k) <= 343
  {
  }

  /** The synthetic accounts drawn for each entry are pairwise distinct and have not liked
      that entry yet: then every `addLike` of the run succeeds. */
  ghost predicate FreshDraws(m: Migration, d: Draws, entries: seq<Entry>, likes: set<Like>)
    requires WellRanged(m) && RollsInRange(d)
  {
    (forall k, i, i' :: 0 <= k < |entries| && 0 <= i < i' < LikesToAdd(m, d, k) ==> d.hex(k, i) != d.hex(k, i'))
    && (forall k, i :: 0 <= k < |entries| && 0 <= i < LikesToAdd(m, d, k) ==>
          Like(entries[k].id, FakeAccount(d.hex(k, i))) !in likes)
  }

  /** What one run did: skipped, found nothing to do, or added `added[k]` likes to the k-th
      entry, `totalLikesAdded` in all. */
  datatype Report = AlreadyApplied | NoEntries | Applied(added: seq<nat>, totalLikesAdded: nat)

  function Sum(xs: seq<nat>): nat {
    if xs == [] then 0 else Sum(xs[..|xs| - 1]) + xs[|xs| - 1]
  }

  /** The likes a run gave the k-th entry: none unless it was applied. */
  function AddedTo(r: Report, k: nat): nat {
    if r.Applied? && k < |r.added| then r.added[k] else 0
  }

  /** The likes a sequence of runs gave the k-th entry, in all. */
  function Gained(reports: seq<Report>, k: nat): nat {
    if reports == [] then 0 else Gained(reports[..|reports| - 1], k) + AddedTo(reports[|reports| - 1], k)
  }

  /** The inner loop of a like migration: `likesToAdd` calls of `addLike` for the k-th entry,
      each from a new synthetic account. Only that entry's likes change. */
  method LikeEntry(db: Store, m: Migration, d: Draws, k: nat, ghost allFresh: bool) returns (added: nat)
    requires db.Valid() && WellRanged(m) && RollsInRange(d) && k < |db.entries|
    requires allFresh ==> forall i, i' :: 0 <= i < i' < LikesToAdd(m, d, k) ==> d.hex(k, i) != d.hex(k, i')
    requires allFresh ==> Pending(m, d, db.entries, db.likes, k)
    modifies db
    ensures db.Valid()
    ensures db.entries == old(db.entries) && db.nextId == old(db.nextId)
    ensures db.cookies == old(db.cookies) && db.ledger == old(db.ledger)
    ensures old(db.likes) <= db.likes
    ensures forall l :: l in db.likes && l !in old(db.likes) ==> l.entryId == db.entries[k].id
    ensures added <= LikesToAdd(m, d, k)
    ensures allFresh ==> added == LikesToAdd(m, d, k)
    ensures GetLikeCount(db.likes, db.entries[k].id) == GetLikeCount(old(db.likes), db.entries[k].id) + added
    ensures forall id :: id != db.entries[k].id ==> GetLikeCount(db.likes, id) == GetLikeCount(old(db.likes), id)
  {
    var likesToAdd := LikesToAdd(m, d, k);
    var id := db.entries[k].id;
    assert HasEntry(db.entries, id);
    added := 0;
    var i := 0;
    while i < likesToAdd
      invariant 0 <= i <= likesToAdd && added <= i
      invariant db.Valid() && db.entries == old(db.entries) && db.ledger == old(db.ledger)
      invariant db.nextId == old(db.nextId) && db.cookies == old(db.cookies)
      invariant old(db.likes) <= db.likes
      invariant forall l :: l in db.likes && l !in old(db.likes) ==> l.entryId == id
      invariant GetLikeCount(db.likes, id) == GetLikeCount(old(db.likes), id) + added
      invariant forall id' :: id' != id ==> GetLikeCount(db.likes, id') == GetLikeCount(old(db.likes), id')
      invariant allFresh ==> added == i
      invariant allFresh ==> forall i' :: i <= i' < likesToAdd ==> Like(id, FakeAccount(d.hex(k, i'))) !in db.likes
    {
      var ok := db.AddLike(id, FakeAccount(d.hex(k, i)));
      if ok {
        added := added + 1;
      }
      if allFresh {
        forall i' | i + 1 <= i' < likesToAdd ensures Like(id, FakeAccount(d.hex(k, i'))) !in db.likes {
          FakeAccountInjective(d.hex(k, i), d.hex(k, i'));
        }
      }
      i := i + 1;
    }
  }

  /** After the first `|per|` entries of a run: the k-th of them has gained `per[k]` likes, the
      others none. */
  ghost predicate Tally(start: set<Like>, likes: set<Like>, entries: seq<Entry>, per: seq<nat>)
    requires |per| <= |entries|
  {
    (forall j :: 0 <= j < |per| ==> GetLikeCount(likes, entries[j].id) == GetLikeCount(start, entries[j].id) + per[j])
    && forall j :: |per| <= j < |entries| ==> GetLikeCount(likes, entries[j].id) == GetLikeCount(start, entries[j].id)
  }

  lemma TallyStep(start: set<Like>, mid: set<Like>, likes: set<Like>, entries: seq<Entry>, per: seq<nat>, added: nat)
    requires |per| < |entries| && IdsIncreasing(entries) && Tally(start, mid, entries, per)
    requires GetLikeCount(likes, entries[|per|].id) == GetLikeCount(mid, entries[|per|].id) + added
    requires forall id :: id != entries[|per|].id ==> GetLikeCount(likes, id) == GetLikeCount(mid, id)
    ensures Tally(start, likes, entries, per + [added])
  {
    var k := |per|;
    var next := per + [added];
    forall j | 0 <= j < |next|
      ensures GetLikeCount(likes, entries[j].id) == GetLikeCount(start, entries[j].id) + next[j]
    {
      if j < k {
        assert entries[j].id < entries[k].id;
      }
    }
    forall j | |next| <= j < |entries|
      ensures GetLikeCount(likes, entries[j].id) == GetLikeCount(start, entries[j].id)
    {
      assert entries[k].id < entries[j].id;
    }
  }

  /** The likes the first `|per|` entries of a run gained: at most the drawn number, and exactly
      it when the draws are fresh. */
  ghost predicate Drawn(m: Migration, d: Draws, per: seq<nat>, allFresh: bool)
    requires WellRanged(m) && RollsInRange(d)
  {
    forall j :: 0 <= j < |per| ==> per[j] <= LikesToAdd(m, d, j) && (allFresh ==> per[j] == LikesToAdd(m, d, j))
  }

  lemma DrawnStep(m: Migration, d: Draws, per: seq<nat>, allFresh: bool, added: nat)
    requires WellRanged(m) && RollsInRange(d) && Drawn(m, d, per, allFresh)
    requires added <= LikesToAdd(m, d, |per|) && (allFresh ==> added == LikesToAdd(m, d, |per|))
    ensures Drawn(m, d, per + [added], allFresh)
  {
    var next := per + [added];
    assert forall j :: 0 <= j < |per| ==> next[j] == per[j];
  }

  /** None of the synthetic likes still to be added for the entries from the k-th on exists. */
  ghost predicate Pending(m: Migration, d: Draws, entries: seq<Entry>, likes: set<Like>, k: nat)
    requires WellRanged(m) && RollsInRange(d)
  {
    forall j, i :: k <= j < |entries| && 0 <= i < LikesToAdd(m, d, j) ==>
      Like(entries[j].id, FakeAccount(d.hex(j, i))) !in likes
  }

  lemma PendingStep(m: Migration, d: Draws, entries: seq<Entry>, before: set<Like>, likes: set<Like>, k: nat)
    requires WellRanged(m) && RollsInRange(d) && k < |entries| && IdsIncreasing(entries)
    requires Pending(m, d, entries, before, k)
    requires forall l :: l in likes && l !in before ==> l.entryId == entries[k].id
    ensures Pending(m, d, entries, likes, k + 1)
  {
    forall j, i | k + 1 <= j < |entries| && 0 <= i < LikesToAdd(m, d, j)
      ensures Like(entries[j].id, FakeAccount(d.hex(j, i))) !in likes
    {
      assert entries[k].id < entries[j].id;
      assert Like(entries[j].id, FakeAccount(d.hex(j, i))) !in before;
    }
  }

  /** The routine behind `migrateRandomLikes`, `migrateMoreLikes` and `migrateMoreLikesV2`..`V4`
      (and seed.ts's `migrateRandomLikes`): skip when the name is recorded; otherwise add
      `likesToAdd` synthetic likes to every entry, then record the name. */
  method RunLikeMigration(db: Store, m: Migration, d: Draws) returns (report: Report)
    requires db.Valid() && WellRanged(m) && RollsInRange(d)
    modifies db
    ensures db.Valid()
    ensures db.entries == old(db.entries) && db.nextId == old(db.nextId) && db.cookies == old(db.cookies)
    ensures old(db.likes) <= db.likes
    ensures report == AlreadyApplied <==> m.name in old(db.ledger)
    ensures m.name in old(db.ledger) ==> db.likes == old(db.likes) && db.ledger == old(db.ledger)
    ensures m.name !in old(db.ledger) ==> db.ledger == old(db.ledger) + {m.name}
    ensures m.name !in old(db.ledger) && old(db.entries) == [] ==> report == NoEntries && db.likes == old(db.likes)
    ensures m.name !in old(db.ledger) && old(db.entries) != [] ==> report.Applied?
    ensures forall k :: 0 <= k < |db.entries| ==>
              GetLikeCount(db.likes, db.entries[k].id) == GetLikeCount(old(db.likes), db.entries[k].id) + AddedTo(report, k)
    ensures report.Applied? ==>
              |report.added| == |db.entries| && report.totalLikesAdded == Sum(report.added)
              && forall k :: 0 <= k < |db.entries| ==>
                   report.added[k] <= LikesToAdd(m, d, k)
                   && GetLikeCount(db.likes, db.entries[k].id) == GetLikeCount(old(db.likes), db.entries[k].id) + report.added[k]
    ensures report.Applied? && FreshDraws(m, d, old(db.entries), old(db.likes)) ==>
              forall k :: 0 <= k < |db.entries| ==> report.added[k] == LikesToAdd(m, d, k)
  {
    if m.name in db.ledger {
      return AlreadyApplied;
    }
    var entries := db.entries;
    if |entries| == 0 {
      db.MarkMigrationComplete(m.name);
      return NoEntries;
    }
    ghost var allFresh := FreshDraws(m, d, entries, db.likes);
    var totalLikesAdded := 0;
    var addedPer: seq<nat> := [];
    var k := 0;
    while k < |entries|
      invariant 0 <= k <= |entries|
      invariant db.Valid() && db.entries == entries && db.ledger == old(db.ledger)
      invariant db.nextId == old(db.nextId) && db.cookies == old(db.cookies)
      invariant old(db.likes) <= db.likes
      invariant |addedPer| == k && totalLikesAdded == Sum(addedPer)
      invariant Drawn(m, d, addedPer, allFresh)
      invariant Tally(old(db.likes), db.likes, entries, addedPer)
      invariant allFresh ==> Pending(m, d, entries, db.likes, k)
    {
      ghost var before := db.likes;
      var added := LikeEntry(db, m, d, k, allFresh);
      if allFresh {
        PendingStep(m, d, entries, before, db.likes, k);
      }
      TallyStep(old(db.likes), before, db.likes, entries, addedPer, added);
      DrawnStep(m, d, addedPer, allFresh, added);
      totalLikesAdded := totalLikesAdded + added;
      addedPer := addedPer + [added];
      k := k + 1;
    }
    db.MarkMigrationComplete(m.name);
    report := Applied(addedPer, totalLikesAdded);
  }

  /** The five ledger names are pairwise distinct, so each migration's skip decision depends
      only on the ledger it started from. */
  lemma ScheduleNamesDistinct()
    ensures forall i, j :: 0 <= i < j < |Schedule| ==> Schedule[i].name != Schedule[j].name
  {
    forall i, j | 0 <= i < j < |Schedule| ensures Schedule[i].name != Schedule[j].name {
      if i == 0 {
        assert Schedule[i].name[4] != Schedule[j].name[4];
      } else {
        assert Schedule[i].name[16] != Schedule[j].name[16];
      }
    }
  }

  /** The ledger names of a run of migrations. */
  function NamesOf(ms: seq<Migration>): set<string> {
    set m | m in ms :: m.name
  }

  /** What the i-th report of a run over `entries` that started from `ledger` says: skipped
      exactly when the name was recorded; otherwise nothing to do on an empty table, and on a
      non-empty one applied, with at most the drawn number of likes for each entry. */
  ghost predicate Reported(m: Migration, d: Draws, ledger: set<string>, entries: seq<Entry>, r: Report)
    requires WellRanged(m) && RollsInRange(d)
  {
    (r == AlreadyApplied <==> m.name in ledger)
    && (m.name !in ledger && entries == [] ==> r == NoEntries)
    && (m.name !in ledger && entries != [] ==>
          r.Applied? && |r.added| == |entries| && forall k :: 0 <= k < |entries| ==> r.added[k] <= LikesToAdd(m, d, k))
  }

  /** The i-th migration of a run that started from `ledger`: the earlier ones recorded only
      their own names, so it is skipped exactly when `ledger` already held its name, and
      otherwise it adds its likes. */
  method RunNext(db: Store, ms: seq<Migration>, i: nat, d: Draws, ghost ledger: set<string>) returns (r: Report)
    requires db.Valid() && i < |ms| && WellRanged(ms[i]) && RollsInRange(d)
    requires forall j :: 0 <= j < i ==> ms[j].name != ms[i].name
    requires db.ledger == ledger + NamesOf(ms[..i])
    modifies db
    ensures db.Valid()
    ensures db.entries == old(db.entries) && db.nextId == old(db.nextId) && db.cookies == old(db.cookies)
    ensures old(db.likes) <= db.likes
    ensures db.ledger == ledger + NamesOf(ms[..i + 1])
    ensures Reported(ms[i], d, ledger, db.entries, r)
    ensures ms[i].name in ledger ==> db.likes == old(db.likes)
    ensures forall k :: 0 <= k < |db.entries| ==>
              GetLikeCount(db.likes, db.entries[k].id) == GetLikeCount(old(db.likes), db.entries[k].id) + AddedTo(r, k)
  {
    var m := ms[i];
    assert m.name !in NamesOf(ms[..i]) by {
      assert forall j :: 0 <= j < i ==> ms[..i][j].name != m.name;
    }
    assert NamesOf(ms[..i + 1]) == NamesOf(ms[..i]) + {m.name} by {
      assert ms[..i + 1] == ms[..i] + [m];
    }
    r := RunLikeMigration(db, m, d);
  }

  /** The like counts after the first `|reports|` runs: each entry has gained what the reports
      say, and each report says what `Reported` demands. */
  ghost predicate RunSoFar(ms: seq<Migration>, draws: seq<Draws>, ledger: set<string>, entries: seq<Entry>,
                           start: set<Like>, likes: set<Like>, reports: seq<Report>)
    requires |reports| <= |ms| == |draws|
    requires forall i :: 0 <= i < |ms| ==> WellRanged(ms[i]) && RollsInRange(draws[i])
  {
    (forall j :: 0 <= j < |reports| ==> Reported(ms[j], draws[j], ledger, entries, reports[j]))
    && forall k :: 0 <= k < |entries| ==>
         GetLikeCount(likes, entries[k].id) == GetLikeCount(start, entries[k].id) + Gained(reports, k)
  }

  lemma RunSoFarStep(ms: seq<Migration>, draws: seq<Draws>, ledger: set<string>, entries: seq<Entry>,
                     start: set<Like>, mid: set<Like>, likes: set<Like>, reports: seq<Report>, r: Report)
    requires |reports| < |ms| == |draws|
    requires forall i :: 0 <= i < |ms| ==> WellRanged(ms[i]) && RollsInRange(draws[i])
    requires RunSoFar(ms, draws, ledger, entries, start, mid, reports)
    requires Reported(ms[|reports|], draws[|reports|], ledger, entries, r)
    requires forall k :: 0 <= k < |entries| ==>
               GetLikeCount(likes, entries[k].id) == GetLikeCount(mid, entries[k].id) + AddedTo(r, k)
    ensures RunSoFar(ms, draws, ledger, entries, start, likes, reports + [r])
  {
    var next := reports + [r];
    assert next[..|reports|] == reports;
    assert forall j :: 0 <= j < |reports| ==> next[j] == reports[j];
  }

  /** Runs `ms` one after another; the names are distinct, so each skip decision depends only
      on the ledger the whole run started from. Each entry gains exactly the likes the reports
      list for it. */
  method RunInOrder(db: Store, ms: seq<Migration>, draws: seq<Draws>) returns (reports: seq<Report>)
    requires db.Valid()
    requires forall i, j :: 0 <= i < j < |ms| ==> ms[i].name != ms[j].name
    requires |draws| == |ms| && forall i :: 0 <= i < |ms| ==> WellRanged(ms[i]) && RollsInRange(draws[i])
    modifies db
    ensures db.Valid()
    ensures db.entries == old(db.entries) && db.nextId == old(db.nextId) && db.cookies == old(db.cookies)
    ensures old(db.likes) <= db.likes
    ensures db.ledger == old(db.ledger) + NamesOf(ms)
    ensures |reports| == |ms|
    ensures RunSoFar(ms, draws, old(db.ledger), db.entries, old(db.likes), db.likes, reports)
    ensures NamesOf(ms) <= old(db.ledger) ==> db.likes == old(db.likes)
  {
    reports := [];
    var i := 0;
    while i < |ms|
      invariant 0 <= i <= |ms|
      invariant db.Valid()
      invariant db.entries == old(db.entries) && db.nextId == old(db.nextId) && db.cookies == old(db.cookies)
      invariant old(db.likes) <= db.likes
      invariant db.ledger == old(db.ledger) + NamesOf(ms[..i])
      invariant |reports| == i
      invariant RunSoFar(ms, draws, old(db.ledger), db.entries, old(db.likes), db.likes, reports)
      invariant NamesOf(ms) <= old(db.ledger) ==> db.likes == old(db.likes)
    {
      ghost var before := db.likes;
      var r := RunNext(db, ms, i, draws[i], old(db.ledger));
      RunSoFarStep(ms, draws, old(db.ledger), db.entries, old(db.likes), before, db.likes, reports, r);
      reports := reports + [r];
      i := i + 1;
    }
    assert ms[..i] == ms;
  }

  lemma ScheduleWellRanged()
    ensures forall i :: 0 <= i < |Schedule| ==> WellRanged(Schedule[i])
  {
  }

  /** `migrate()`: `migrateRandomLikes`, `migrateMoreLikes` and `migrateMoreLikesV2`..`V4`, in
      the order of `Schedule`. Each pending migration on a non-empty table is applied, and each
      entry gains exactly the likes the reports list for it. */
  method RunMigrations(db: Store, draws: seq<Draws>) returns (reports: seq<Report>)
    requires db.Valid()
    requires |draws| == |Schedule| && forall i :: 0 <= i < |draws| ==> RollsInRange(draws[i])
    modifies db
    ensures db.Valid()
    ensures db.entries == old(db.entries) && db.nextId == old(db.nextId) && db.cookies == old(db.cookies)
    ensures old(db.likes) <= db.likes
    ensures db.ledger == old(db.ledger) + ScheduleNames
    ensures |reports| == |Schedule|
    ensures forall i :: 0 <= i < |Schedule| ==> (reports[i] == AlreadyApplied <==> Schedule[i].name in old(db.ledger))
    ensures forall i :: 0 <= i < |Schedule| && Schedule[i].name !in old(db.ledger) && db.entries != [] ==>
              reports[i].Applied? && |reports[i].added| == |db.entries|
    ensures forall k :: 0 <= k < |db.entries| ==>
              GetLikeCount(db.likes, db.entries[k].id) == GetLikeCount(old(db.likes), db.entries[k].id) + Gained(reports, k)
    ensures ScheduleNames <= old(db.ledger) ==> db.likes == old(db.likes)
    ensures forall i :: 0 <= i < |Schedule| ==> WellRanged(Schedule[i])
    ensures RunSoFar(Schedule, draws, old(db.ledger), db.entries, old(db.likes), db.likes, reports)
  {
    ScheduleNamesDistinct();
    ScheduleWellRanged();
    reports := RunInOrder(db, Schedule, draws);
  }

  /** Starting the process twice: the second `migrate()` skips every migration and leaves the
      entries, the likes and the ledger as the first left them. `firstReports` and `afterFirst`
      are the first run's reports and the likes it leaves. */
  method MigrateTwice(db: Store, first: seq<Draws>, second: seq<Draws>)
    returns (again: seq<Report>, ghost firstReports: seq<Report>, ghost afterFirst: set<Like>)
    requires db.Valid()
    requires |first| == |Schedule| && forall i :: 0 <= i < |first| ==> RollsInRange(first[i])
    requires |second| == |Schedule| && forall i :: 0 <= i < |second| ==> RollsInRange(second[i])
    modifies db
    ensures db.Valid()
    ensures db.entries == old(db.entries) && db.ledger == old(db.ledger) + ScheduleNames
    ensures |firstReports| == |Schedule|
    ensures RunSoFar(Schedule, first, old(db.ledger), db.entries, old(db.likes), afterFirst, firstReports)
    ensures old(db.likes) <= afterFirst && db.likes == afterFirst
    ensures |again| == |Schedule| && forall i :: 0 <= i < |again| ==> again[i] == AlreadyApplied
  {
    firstReports := RunMigrations(db, first);
    afterFirst := db.likes;
    again := RunMigrations(db, second);
  }
}
