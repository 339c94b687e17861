/**
 * The corpus accumulator (`parse_dir`): a walk over directory batches, each
 * file of which is either skipped or contributes its hosts, with a limit on
 * contributing files that only ends the current directory's loop.
 */
module Corpus {
  import opened Util
  import opened Paths
  import opened Ruleset
  import opened Emit

  /** A file listed by the walk: its name (no directory part) and its parsed content. */
  datatype Entry = Entry(name: string, doc: Document)

  /** One step of the walk: a directory path and the files listed in it. */
  datatype Batch = Batch(root: string, files: seq<Entry>)

  /** The accumulator: `targets`, `skipped_files`, `good_files` and `count`. */
  datatype Tally = Tally(targets: seq<string>, skipped: seq<string>, goodFiles: nat, count: nat)

  /** The accumulator before the walk; `count` starts at 1. */
  const Start: Tally := Tally([], [], 0, 1)

  /** What `get_targets` returns for one listed file. */
  function Found(root: string, e: Entry): Option<seq<string>>
  {
    Extract(Join(root, e.name), e.doc)
  }

  /** A file contributes when its extraction is neither None nor empty. */
  predicate Contributes(root: string, e: Entry)
  {
    Found(root, e).Some? && Found(root, e).value != []
  }

  /** The body of the inner loop, without the limit test. */
  function Visit(t: Tally, root: string, e: Entry): Tally
  {
    if Contributes(root, e) then
      Tally(t.targets + Found(root, e).value, t.skipped, t.goodFiles + 1, t.count + 1)
    else
      Tally(t.targets, t.skipped + [e.name], t.goodFiles, t.count + 1)
  }

  /** The `break` test, run after each file. */
  predicate LimitReached(limit: int, good: nat)
  {
    limit != -1 && good >= limit
  }

  /** The inner loop over one directory's files. */
  function RunBatch(t: Tally, root: string, files: seq<Entry>, limit: int): Tally
    decreases |files|
  {
    if files == [] then t
    else
      var t' := Visit(t, root, files[0]);
      if LimitReached(limit, t'.goodFiles) then t' else RunBatch(t', root, files[1..], limit)
  }

  /** The outer loop over the walk's batches. */
  function RunWalk(t: Tally, walk: seq<Batch>, limit: int): Tally
    decreases |walk|
  {
    if walk == [] then t else RunWalk(RunBatch(t, walk[0].root, walk[0].files, limit), walk[1..], limit)
  }

  /**
   * `parse_dir`: the nested loops over the walk, then `generate_json` on
   * what they collected.
   */
  method ParseDir(walk: seq<Batch>, limit: int) returns (tally: Tally, out: Emission)
    ensures tally == RunWalk(Start, walk, limit)
    ensures out == Emitted(Some(tally.targets), tally.skipped, tally.goodFiles)
  {
    var targets: seq<string> := [];
    var skippedFiles: seq<string> := [];
    var goodFiles: nat := 0;
    var count: nat := 1;
    var b := 0;
    while b < |walk|
      invariant 0 <= b <= |walk|
      invariant RunWalk(Tally(targets, skippedFiles, goodFiles, count), walk[b..], limit) == RunWalk(Start, walk, limit)
    {
      var root := walk[b].root;
      var files := walk[b].files;
      ghost var before := Tally(targets, skippedFiles, goodFiles, count);
      var i := 0;
      while i < |files|
        invariant 0 <= i <= |files|
        invariant RunBatch(Tally(targets, skippedFiles, goodFiles, count), root, files[i..], limit)
                  == RunBatch(before, root, files, limit)
      {
        ghost var here := Tally(targets, skippedFiles, goodFiles, count);
        var newTargets := GetTargets(Join(root, files[i].name), files[i].doc);
        if newTargets.None? || newTargets.value == [] {
          skippedFiles := skippedFiles + [files[i].name];
        } else {
          targets := targets + newTargets.value;
          goodFiles := goodFiles + 1;
        }
        count := count + 1;
        assert Tally(targets, skippedFiles, goodFiles, count) == Visit(here, root, files[i]);
        if limit != -1 && goodFiles >= limit {
          assert RunBatch(here, root, files[i..], limit) == Tally(targets, skippedFiles, goodFiles, count);
          break;
        }
        assert files[i..][1..] == files[i + 1..];
        i := i + 1;
      }
      assert RunBatch(before, root, files, limit) == Tally(targets, skippedFiles, goodFiles, count);
      assert walk[b..][1..] == walk[b + 1..];
      b := b + 1;
    }
    tally := Tally(targets, skippedFiles, goodFiles, count);
    out := GenerateJson(Some(targets), skippedFiles, goodFiles);
  }

  // ---------------------------------------------------------------------
  // Accounting: every visited file lands in exactly one bucket.

  /** One directory: each visited file adds one to `count` and to exactly one of the two buckets; nothing collected before is changed. */
  lemma {:induction false} BatchAccounting(t: Tally, root: string, files: seq<Entry>, limit: int)
    ensures var r := RunBatch(t, root, files, limit);
      r.count - t.count == (|r.skipped| - |t.skipped|) + (r.goodFiles - t.goodFiles)
      && t.goodFiles <= r.goodFiles && t.count <= r.count
      && t.targets <= r.targets && t.skipped <= r.skipped
    decreases |files|
  {
    if files != [] {
      var t' := Visit(t, root, files[0]);
      if !LimitReached(limit, t'.goodFiles) {
        BatchAccounting(t', root, files[1..], limit);
      }
    }
  }

  /** The whole walk: the same accounting, batch after batch. */
  lemma {:induction false} WalkAccounting(t: Tally, walk: seq<Batch>, limit: int)
    ensures var r := RunWalk(t, walk, limit);
      r.count - t.count == (|r.skipped| - |t.skipped|) + (r.goodFiles - t.goodFiles)
      && t.goodFiles <= r.goodFiles && t.count <= r.count
      && t.targets <= r.targets && t.skipped <= r.skipped
    decreases |walk|
  {
    if walk != [] {
      BatchAccounting(t, walk[0].root, walk[0].files, limit);
      WalkAccounting(RunBatch(t, walk[0].root, walk[0].files, limit), walk[1..], limit);
    }
  }

  /** From the initial accumulator: skipped files plus contributing files is the number visited, `count - 1`. */
  lemma EveryFileCountedOnce(walk: seq<Batch>, limit: int)
    ensures var r := RunWalk(Start, walk, limit);
      |r.skipped| + r.goodFiles == r.count - 1
  {
    WalkAccounting(Start, walk, limit);
  }

  // ---------------------------------------------------------------------
  // Reference definitions over the files, without any accumulator.

  /** The hosts a file contributes (none when it is skipped). */
  function Contribution(root: string, e: Entry): seq<string>
  {
    if Contributes(root, e) then Found(root, e).value else []
  }

  /** The name a file adds to the skipped list (none when it contributes). */
  function SkipEntry(root: string, e: Entry): seq<string>
  {
    if Contributes(root, e) then [] else [e.name]
  }

  function GoodEntry(root: string, e: Entry): nat
  {
    if Contributes(root, e) then 1 else 0
  }

  /** Visiting a file adds its contribution, its skip entry, its good mark and one to the count. */
  lemma VisitShape(t: Tally, root: string, e: Entry)
    ensures Visit(t, root, e)
            == Tally(t.targets + Contribution(root, e), t.skipped + SkipEntry(root, e),
                     t.goodFiles + GoodEntry(root, e), t.count + 1)
  {
    if Contributes(root, e) {
      assert t.skipped + SkipEntry(root, e) == t.skipped;
    } else {
      assert t.targets + Contribution(root, e) == t.targets;
    }
  }

  function BatchHosts(root: string, files: seq<Entry>): seq<string>
    decreases |files|
  {
    if files == [] then [] else Contribution(root, files[0]) + BatchHosts(root, files[1..])
  }

  function BatchSkipped(root: string, files: seq<Entry>): seq<string>
    decreases |files|
  {
    if files == [] then [] else SkipEntry(root, files[0]) + BatchSkipped(root, files[1..])
  }

  function BatchGood(root: string, files: seq<Entry>): nat
    decreases |files|
  {
    if files == [] then 0 else GoodEntry(root, files[0]) + BatchGood(root, files[1..])
  }

  function WalkHosts(walk: seq<Batch>): seq<string>
    decreases |walk|
  {
    if walk == [] then [] else BatchHosts(walk[0].root, walk[0].files) + WalkHosts(walk[1..])
  }

  function WalkSkipped(walk: seq<Batch>): seq<string>
    decreases |walk|
  {
    if walk == [] then [] else BatchSkipped(walk[0].root, walk[0].files) + WalkSkipped(walk[1..])
  }

  function WalkGood(walk: seq<Batch>): nat
    decreases |walk|
  {
    if walk == [] then 0 else BatchGood(walk[0].root, walk[0].files) + WalkGood(walk[1..])
  }

  function FileCount(walk: seq<Batch>): nat
    decreases |walk|
  {
    if walk == [] then 0 else |walk[0].files| + FileCount(walk[1..])
  }

  function NonEmptyBatches(walk: seq<Batch>): nat
    decreases |walk|
  {
    if walk == [] then 0 else (if walk[0].files == [] then 0 else 1) + NonEmptyBatches(walk[1..])
  }

  /** With limit -1 one directory is read to the end, and the buckets are the reference ones. */
  lemma {:induction false} UnlimitedBatch(t: Tally, root: string, files: seq<Entry>)
    ensures RunBatch(t, root, files, -1)
            == Tally(t.targets + BatchHosts(root, files), t.skipped + BatchSkipped(root, files),
                     t.goodFiles + BatchGood(root, files), t.count + |files|)
    decreases |files|
  {
    if files == [] {
      assert t.targets + [] == t.targets && t.skipped + [] == t.skipped;
    } else {
      var e := files[0];
      var t' := Visit(t, root, e);
      VisitShape(t, root, e);
      UnlimitedBatch(t', root, files[1..]);
      TallyStep(t, Contribution(root, e), SkipEntry(root, e), GoodEntry(root, e), 1,
                BatchHosts(root, files[1..]), BatchSkipped(root, files[1..]), BatchGood(root, files[1..]), |files[1..]|);
    }
  }

  /** Adding two increments one after the other is adding their concatenation. */
  lemma TallyStep(t: Tally, hosts: seq<string>, names: seq<string>, good: nat, n: nat,
                  hosts': seq<string>, names': seq<string>, good': nat, n': nat)
    ensures var mid := Tally(t.targets + hosts, t.skipped + names, t.goodFiles + good, t.count + n);
      Tally(mid.targets + hosts', mid.skipped + names', mid.goodFiles + good', mid.count + n')
      == Tally(t.targets + (hosts + hosts'), t.skipped + (names + names'), t.goodFiles + (good + good'), t.count + (n + n'))
  {
    assert t.targets + hosts + hosts' == t.targets + (hosts + hosts');
    assert t.skipped + names + names' == t.skipped + (names + names');
  }

  /**
   * With limit -1 every file of every batch is visited: the targets are all
   * contributions in walk order, the skipped names all other files in walk
   * order, and `count` grows by the number of files.
   */
  lemma {:induction false} UnlimitedWalk(t: Tally, walk: seq<Batch>)
    ensures RunWalk(t, walk, -1)
            == Tally(t.targets + WalkHosts(walk), t.skipped + WalkSkipped(walk),
                     t.goodFiles + WalkGood(walk), t.count + FileCount(walk))
    decreases |walk|
  {
    if walk == [] {
      assert t.targets + [] == t.targets && t.skipped + [] == t.skipped;
    } else {
      var b := walk[0];
      UnlimitedBatch(t, b.root, b.files);
      var t' := RunBatch(t, b.root, b.files, -1);
      UnlimitedWalk(t', walk[1..]);
      TallyStep(t, BatchHosts(b.root, b.files), BatchSkipped(b.root, b.files), BatchGood(b.root, b.files), |b.files|,
                WalkHosts(walk[1..]), WalkSkipped(walk[1..]), WalkGood(walk[1..]), FileCount(walk[1..]));
    }
  }

  // ---------------------------------------------------------------------
  // The limit.

  /** `1` for each file that contributes, `0` for each file that is skipped, in listing order. */
  function GoodMarks(root: string, files: seq<Entry>): seq<nat>
  {
    seq(|files|, i requires 0 <= i < |files| => GoodEntry(root, files[i]))
  }

  function Sum(m: seq<nat>): nat
    decreases |m|
  {
    if m == [] then 0 else m[0] + Sum(m[1..])
  }

  /**
   * A loop entered with `good` contributing files, over files marked `m`,
   * stops after its `k`-th file: it visits at least one file when there is
   * any, the limit is not reached after any earlier file, and it is reached
   * after the `k`-th unless the files ran out.
   */
  predicate StopsWithin(good: nat, m: seq<nat>, limit: int, k: nat)
  {
    k <= |m| && (m != [] ==> k >= 1)
    && (forall j :: 1 <= j < k ==> !LimitReached(limit, good + Sum(m[..j])))
    && (k < |m| ==> LimitReached(limit, good + Sum(m[..k])))
  }

  /** The stop point of one directory's loop, entered with `good` contributing files. */
  predicate StopsAt(good: nat, root: string, files: seq<Entry>, limit: int, k: nat)
  {
    StopsWithin(good, GoodMarks(root, files), limit, k)
  }

  /** The marks count the contributing files: those among the first `j` files are the sum of the first `j` marks. */
  lemma {:induction false} BatchGoodMarks(root: string, files: seq<Entry>, j: nat)
    requires j <= |files|
    ensures BatchGood(root, files[..j]) == Sum(GoodMarks(root, files)[..j])
    decreases j
  {
    if j > 0 {
      BatchGoodMarks(root, files[1..], j - 1);
      assert files[..j][1..] == files[1..][..j - 1];
      var m := GoodMarks(root, files);
      assert m[..j][0] == GoodEntry(root, files[0]);
      assert m[..j][1..] == GoodMarks(root, files[1..])[..j - 1];
    }
  }

  lemma GoodMarksTail(root: string, files: seq<Entry>)
    requires files != []
    ensures GoodMarks(root, files)[0] == GoodEntry(root, files[0])
    ensures GoodMarks(root, files)[1..] == GoodMarks(root, files[1..])
  {
    var m := GoodMarks(root, files);
    var m' := GoodMarks(root, files[1..]);
    forall i | 0 <= i < |m'|
      ensures m[1..][i] == m'[i]
    {
      assert files[1..][i] == files[i + 1];
    }
  }

  lemma SumPrefix(m: seq<nat>, j: nat)
    requires 1 <= j <= |m|
    ensures Sum(m[..j]) == m[0] + Sum(m[1..][..j - 1])
  {
    assert m[..j][1..] == m[1..][..j - 1];
  }

  /** A loop whose first file reaches the limit stops after it. */
  lemma StopsWithinFirst(good: nat, m: seq<nat>, limit: int)
    requires m != [] && LimitReached(limit, good + m[0])
    ensures StopsWithin(good, m, limit, 1)
  {
    SumPrefix(m, 1);
    assert m[1..][..0] == [];
  }

  /** A loop whose first file does not reach the limit stops one file later than the loop over the rest. */
  lemma StopsWithinLater(good: nat, m: seq<nat>, limit: int, k: nat)
    requires m != [] && !LimitReached(limit, good + m[0])
    requires StopsWithin(good + m[0], m[1..], limit, k)
    ensures StopsWithin(good, m, limit, k + 1)
  {
    forall j | 1 <= j < k + 1
      ensures !LimitReached(limit, good + Sum(m[..j]))
    {
      SumPrefix(m, j);
      if j == 1 {
        assert m[1..][..0] == [];
      }
    }
    if k + 1 < |m| {
      SumPrefix(m, k + 1);
    }
  }

  /** Running a prefix `files[..k + 1]` without limit is visiting the first file, then running `files[1..][..k]`. */
  lemma UnlimitedPrefixStep(t: Tally, root: string, files: seq<Entry>, k: nat)
    requires k < |files|
    ensures RunBatch(t, root, files[..k + 1], -1) == RunBatch(Visit(t, root, files[0]), root, files[1..][..k], -1)
  {
    assert files[..k + 1][0] == files[0] && files[..k + 1][1..] == files[1..][..k];
  }

  /**
   * Whatever the limit, one directory's loop visits the prefix of its files
   * that ends at the first file after which the limit is reached (all files
   * when it never is), and collects exactly what an unlimited loop over that
   * prefix collects.
   */
  lemma {:induction false} BatchVisitsPrefix(t: Tally, root: string, files: seq<Entry>, limit: int)
    ensures exists k: nat :: StopsAt(t.goodFiles, root, files, limit, k)
                             && RunBatch(t, root, files, limit) == RunBatch(t, root, files[..k], -1)
    decreases |files|
  {
    if files == [] {
      assert StopsAt(t.goodFiles, root, files, limit, 0);
      assert RunBatch(t, root, files, limit) == RunBatch(t, root, files[..0], -1);
    } else {
      var t' := Visit(t, root, files[0]);
      VisitShape(t, root, files[0]);
      GoodMarksTail(root, files);
      if LimitReached(limit, t'.goodFiles) {
        StopsWithinFirst(t.goodFiles, GoodMarks(root, files), limit);
        UnlimitedPrefixStep(t, root, files, 0);
        assert RunBatch(t, root, files, limit) == RunBatch(t, root, files[..1], -1);
      } else {
        BatchVisitsPrefix(t', root, files[1..], limit);
        var k: nat :| StopsAt(t'.goodFiles, root, files[1..], limit, k)
                      && RunBatch(t', root, files[1..], limit) == RunBatch(t', root, files[1..][..k], -1);
        StopsWithinLater(t.goodFiles, GoodMarks(root, files), limit, k);
        UnlimitedPrefixStep(t, root, files, k);
        assert RunBatch(t, root, files, limit) == RunBatch(t, root, files[..k + 1], -1);
      }
    }
  }

  /**
   * Entered below a positive limit, one directory ends with its contributing
   * files added when they stay below the limit, and with exactly the limit
   * otherwise.
   */
  lemma {:induction false} BatchGoodExact(t: Tally, root: string, files: seq<Entry>, limit: int)
    requires limit >= 1 && t.goodFiles < limit
    ensures RunBatch(t, root, files, limit).goodFiles
            == if t.goodFiles + BatchGood(root, files) < limit then t.goodFiles + BatchGood(root, files) else limit
    decreases |files|
  {
    if files != [] {
      var t' := Visit(t, root, files[0]);
      VisitShape(t, root, files[0]);
      if !LimitReached(limit, t'.goodFiles) {
        BatchGoodExact(t', root, files[1..], limit);
      }
    }
  }

  /** `visited` lists, batch by batch, a prefix of each directory's files, non-empty where the directory is. */
  predicate VisitedPrefixes(walk: seq<Batch>, visited: seq<Batch>)
  {
    |visited| == |walk|
    && forall i :: 0 <= i < |walk| ==>
         visited[i].root == walk[i].root && visited[i].files <= walk[i].files
         && (walk[i].files != [] ==> visited[i].files != [])
  }

  /**
   * Each directory's visited prefix in `visited` ends where that directory's
   * loop stops, entered with `good` plus the files that contributed in the
   * prefixes visited before it.
   */
  predicate WalkStops(good: nat, walk: seq<Batch>, visited: seq<Batch>, limit: int)
    decreases |walk|
  {
    |visited| == |walk|
    && (walk != [] ==>
          StopsAt(good, walk[0].root, walk[0].files, limit, |visited[0].files|)
          && WalkStops(good + BatchGood(visited[0].root, visited[0].files), walk[1..], visited[1..], limit))
  }

  /** Putting a prefix of one more batch in front keeps `VisitedPrefixes`. */
  lemma VisitedCons(b: Batch, k: nat, walk': seq<Batch>, rest: seq<Batch>)
    requires k <= |b.files| && (b.files != [] ==> k >= 1)
    requires VisitedPrefixes(walk', rest)
    ensures VisitedPrefixes([b] + walk', [Batch(b.root, b.files[..k])] + rest)
  {
    var walk := [b] + walk';
    var visited := [Batch(b.root, b.files[..k])] + rest;
    forall i | 0 <= i < |walk|
      ensures visited[i].root == walk[i].root && visited[i].files <= walk[i].files
              && (walk[i].files != [] ==> visited[i].files != [])
    {
      if i > 0 {
        assert visited[i] == rest[i - 1] && walk[i] == walk'[i - 1];
      }
    }
  }

  /**
   * Whatever the limit, the walk collects exactly what an unlimited walk
   * over a prefix of every directory collects, and the prefix of each
   * directory ends where that directory's loop stops, given the files that
   * contributed in the directories before it. With UnlimitedWalk, each
   * visited file lands in exactly one bucket, in walk order.
   */
  lemma {:induction false} WalkVisitsPrefixes(t: Tally, walk: seq<Batch>, limit: int)
    ensures exists visited: seq<Batch> :: VisitedPrefixes(walk, visited) && RunWalk(t, walk, limit) == RunWalk(t, visited, -1)
                                          && WalkStops(t.goodFiles, walk, visited, limit)
    decreases |walk|
  {
    if walk == [] {
      assert VisitedPrefixes(walk, []) && RunWalk(t, walk, limit) == RunWalk(t, [], -1);
    } else {
      var b := walk[0];
      BatchVisitsPrefix(t, b.root, b.files, limit);
      var k: nat :| StopsAt(t.goodFiles, b.root, b.files, limit, k)
                    && RunBatch(t, b.root, b.files, limit) == RunBatch(t, b.root, b.files[..k], -1);
      var t' := RunBatch(t, b.root, b.files, limit);
      UnlimitedBatch(t, b.root, b.files[..k]);
      assert t'.goodFiles == t.goodFiles + BatchGood(b.root, b.files[..k]);
      WalkVisitsPrefixes(t', walk[1..], limit);
      var rest: seq<Batch> :| VisitedPrefixes(walk[1..], rest) && RunWalk(t', walk[1..], limit) == RunWalk(t', rest, -1)
                              && WalkStops(t'.goodFiles, walk[1..], rest, limit);
      VisitedCons(b, k, walk[1..], rest);
      assert [b] + walk[1..] == walk;
      var visited := [Batch(b.root, b.files[..k])] + rest;
      assert visited[1..] == rest;
      assert WalkStops(t.goodFiles, walk, visited, limit);
      assert RunWalk(t, walk, limit) == RunWalk(t, visited, -1);
    }
  }

  /** The first file of every directory, and nothing else. */
  function FirstFiles(walk: seq<Batch>): seq<Batch>
    decreases |walk|
  {
    if walk == [] then []
    else [Batch(walk[0].root, if walk[0].files == [] then [] else [walk[0].files[0]])] + FirstFiles(walk[1..])
  }

  /** A limit of 0, or any negative other than -1, means "the first file of each directory". */
  lemma {:induction false} NonPositiveLimitReadsFirstFiles(t: Tally, walk: seq<Batch>, limit: int)
    requires limit <= 0 && limit != -1
    ensures RunWalk(t, walk, limit) == RunWalk(t, FirstFiles(walk), -1)
    decreases |walk|
  {
    if walk != [] {
      var b := walk[0];
      var firsts := if b.files == [] then [] else [b.files[0]];
      var t' := RunBatch(t, b.root, b.files, limit);
      assert t' == RunBatch(t, b.root, firsts, -1) by {
        if b.files != [] {
          assert firsts[1..] == [];
        }
      }
      NonPositiveLimitReadsFirstFiles(t', walk[1..], limit);
      assert FirstFiles(walk)[1..] == FirstFiles(walk[1..]);
    }
  }

  /** Every non-empty directory has at least one file visited, and no more files are visited than listed. */
  lemma {:induction false} VisitedCountBounds(t: Tally, walk: seq<Batch>, limit: int)
    ensures t.count + NonEmptyBatches(walk) <= RunWalk(t, walk, limit).count <= t.count + FileCount(walk)
    decreases |walk|
  {
    if walk != [] {
      var b := walk[0];
      BatchVisitsPrefix(t, b.root, b.files, limit);
      var k: nat :| StopsAt(t.goodFiles, b.root, b.files, limit, k)
               && RunBatch(t, b.root, b.files, limit) == RunBatch(t, b.root, b.files[..k], -1);
      UnlimitedBatch(t, b.root, b.files[..k]);
      VisitedCountBounds(RunBatch(t, b.root, b.files, limit), walk[1..], limit);
    }
  }

  function Max(a: int, b: int): int
  {
    if a >= b then a else b
  }

  /**
   * Within one directory the loop stops once the limit is reached: starting
   * below a positive limit it ends at most at the limit, and starting at or
   * above it, one more contributing file at most.
   */
  lemma {:induction false} BatchGoodBound(t: Tally, root: string, files: seq<Entry>, limit: int)
    requires limit >= 1
    ensures RunBatch(t, root, files, limit).goodFiles <= Max(t.goodFiles + 1, limit)
    decreases |files|
  {
    if files != [] {
      var t' := Visit(t, root, files[0]);
      if !LimitReached(limit, t'.goodFiles) {
        BatchGoodBound(t', root, files[1..], limit);
      }
    }
  }

  /** Across directories a positive limit can be passed by at most one file per directory. */
  lemma {:induction false} WalkGoodBound(t: Tally, walk: seq<Batch>, limit: int)
    requires limit >= 1
    ensures RunWalk(t, walk, limit).goodFiles <= Max(t.goodFiles, limit - 1) + |walk|
    decreases |walk|
  {
    if walk != [] {
      var b := walk[0];
      BatchGoodBound(t, b.root, b.files, limit);
      WalkGoodBound(RunBatch(t, b.root, b.files, limit), walk[1..], limit);
    }
  }

  /** A single directory honours a positive limit exactly; a walk of n directories can reach limit - 1 + n. */
  lemma LimitFromStart(walk: seq<Batch>, limit: int)
    requires limit >= 1
    ensures RunWalk(Start, walk, limit).goodFiles <= limit - 1 + |walk|
    ensures |walk| <= 1 ==> RunWalk(Start, walk, limit).goodFiles <= limit
  {
    WalkGoodBound(Start, walk, limit);
  }

  /** The bound is reached: two directories whose first files contribute give two contributing files under limit 1. */
  lemma LimitOvershoot(b1: Batch, b2: Batch)
    requires b1.files != [] && Contributes(b1.root, b1.files[0])
    requires b2.files != [] && Contributes(b2.root, b2.files[0])
    ensures RunWalk(Start, [b1, b2], 1).goodFiles == 2
  {
    var t1 := RunBatch(Start, b1.root, b1.files, 1);
    assert t1.goodFiles == 1 by {
      VisitShape(Start, b1.root, b1.files[0]);
    }
    var t2 := RunBatch(t1, b2.root, b2.files, 1);
    assert t2.goodFiles == 2 by {
      VisitShape(t1, b2.root, b2.files[0]);
    }
    assert [b1, b2][1..] == [b2];
    assert RunWalk(t1, [b2], 1) == RunWalk(t2, [], 1);
  }
}
