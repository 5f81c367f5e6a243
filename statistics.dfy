/** `calculate_statistics` (wordle_stats.py, lines 75-104): one bucket per (player, year) counting
    games, wins, losses, the histogram of winning attempt counts and their sum. */
module Statistics {
  import opened Lexical
  import opened Mentions
  import opened Extraction

  /** `stats[player][year]`; the histogram holds only the attempt counts that occurred. */
  datatype Bucket = Bucket(total: nat, wins: nat, losses: nat, attemptsDist: map<nat, nat>, totalAttempts: nat)

  /** The nested defaultdict flattened to one map keyed by (player, year). */
  type Key = (string, int)

  const NewBucket: Bucket := Bucket(0, 0, 0, map[], 0)

  function KeyOf(r: Record): Key {
    (r.player, r.year)
  }

  /** A histogram entry, 0 when absent (`defaultdict(int)`). */
  function Count(dist: map<nat, nat>, d: nat): nat {
    if d in dist then dist[d] else 0
  }

  /** The bucket under key k, created empty when missing. */
  function BucketAt(stats: map<Key, Bucket>, k: Key): Bucket {
    if k in stats then stats[k] else NewBucket
  }

  /** One game added to a bucket: the updates of lines 94-102. */
  function Tally(b: Bucket, a: AttemptToken): Bucket {
    if a == 'X' then b.(total := b.total + 1, losses := b.losses + 1)
    else
      var n := DigitValue(a);
      b.(total := b.total + 1, wins := b.wins + 1,
         attemptsDist := b.attemptsDist[n := Count(b.attemptsDist, n) + 1],
         totalAttempts := b.totalAttempts + n)
  }

  function AddRecord(stats: map<Key, Bucket>, r: Record): map<Key, Bucket> {
    stats[KeyOf(r) := Tally(BucketAt(stats, KeyOf(r)), r.attempts)]
  }

  /** The buckets after the records of rs, in order. */
  function StatsOf(rs: seq<Record>): map<Key, Bucket> {
    if rs == [] then map[] else AddRecord(StatsOf(rs[..|rs| - 1]), rs[|rs| - 1])
  }

  /** The loop of lines 89-102, updating the bucket of each record field by field. */
  method CalculateStatistics(results: seq<Record>) returns (stats: map<Key, Bucket>)
    ensures stats == StatsOf(results)
  {
    stats := map[];
    for i := 0 to |results|
      invariant stats == StatsOf(results[..i])
    {
      var result := results[i];
      assert results[..i + 1][..i] == results[..i];
      var key := (result.player, result.year);
      var bucket := if key in stats then stats[key] else NewBucket;
      bucket := bucket.(total := bucket.total + 1);
      if result.attempts == 'X' {
        bucket := bucket.(losses := bucket.losses + 1);
      } else {
        bucket := bucket.(wins := bucket.wins + 1);
        var attemptsNum := DigitValue(result.attempts);
        var seen := if attemptsNum in bucket.attemptsDist then bucket.attemptsDist[attemptsNum] else 0;
        bucket := bucket.(attemptsDist := bucket.attemptsDist[attemptsNum := seen + 1]);
        bucket := bucket.(totalAttempts := bucket.totalAttempts + attemptsNum);
      }
      stats := stats[key := bucket];
    }
    assert results[..|results|] == results;
  }

  // ----- What every bucket satisfies -----

  /** The histogram summed over the attempt counts d, d+1, ..., 9 a digit can give. */
  function DistSum(dist: map<nat, nat>, d: nat): nat
    decreases 10 - d
  {
    if d > 9 then 0 else Count(dist, d) + DistSum(dist, d + 1)
  }

  /** The bucket invariant: every game is a win or a loss, and the histogram covers attempt counts
      0 to 9 and counts exactly the wins. */
  predicate Coherent(b: Bucket) {
    && b.total == b.wins + b.losses
    && (forall d :: d in b.attemptsDist ==> d <= 9 && b.attemptsDist[d] >= 1)
    && DistSum(b.attemptsDist, 0) == b.wins
  }

  lemma {:induction false} EmptySum(d: nat)
    ensures DistSum(map[], d) == 0
    decreases 10 - d
  {
    if d <= 9 {
      EmptySum(d + 1);
    }
  }

  lemma {:induction false} BumpSum(dist: map<nat, nat>, n: nat, d: nat)
    requires n <= 9
    ensures DistSum(dist[n := Count(dist, n) + 1], d) == DistSum(dist, d) + (if d <= n then 1 else 0)
    decreases 10 - d
  {
    if d <= 9 {
      BumpSum(dist, n, d + 1);
    }
  }

  /** A win with n attempts: the histogram entry for n is bumped and the counts stay in step. */
  lemma WinCoherent(b: Bucket, n: nat)
    requires Coherent(b) && n <= 9
    ensures var bumped := b.attemptsDist[n := Count(b.attemptsDist, n) + 1];
      Coherent(Bucket(b.total + 1, b.wins + 1, b.losses, bumped, b.totalAttempts + n))
  {
    BumpSum(b.attemptsDist, n, 0);
  }

  /** Adding a game keeps the invariant. */
  lemma TallyCoherent(b: Bucket, a: AttemptToken)
    requires Coherent(b)
    ensures Coherent(Tally(b, a)) && Tally(b, a).total == b.total + 1
  {
    if a != 'X' {
      var n := DigitValue(a);
      WinCoherent(b, n);
      assert Tally(b, a) == Bucket(b.total + 1, b.wins + 1, b.losses, b.attemptsDist[n := Count(b.attemptsDist, n) + 1], b.totalAttempts + n);
    }
  }

  /** Filing r touches the bucket of its own key and no other. */
  lemma AddRecordAt(stats: map<Key, Bucket>, r: Record, k: Key)
    ensures k in AddRecord(stats, r) <==> k == KeyOf(r) || k in stats
    ensures k == KeyOf(r) ==> AddRecord(stats, r)[k] == Tally(BucketAt(stats, k), r.attempts)
    ensures k != KeyOf(r) && k in stats ==> AddRecord(stats, r)[k] == stats[k]
  {
  }

  /** The bucket a record goes to, fresh or not, is coherent when the existing one is. */
  lemma BucketAtCoherent(stats: map<Key, Bucket>, k: Key)
    requires k in stats ==> Coherent(stats[k])
    ensures Coherent(BucketAt(stats, k))
  {
    EmptySum(0);
  }

  /** Filing one record (lines 91-102) keeps the bucket under k coherent and non-empty. */
  lemma AddRecordCoherent(stats: map<Key, Bucket>, r: Record, k: Key)
    requires k in stats ==> Coherent(stats[k]) && stats[k].total >= 1
    ensures k in AddRecord(stats, r) ==> Coherent(AddRecord(stats, r)[k]) && AddRecord(stats, r)[k].total >= 1
  {
    AddRecordAt(stats, r, k);
    if KeyOf(r) == k {
      BucketAtCoherent(stats, k);
      TallyCoherent(BucketAt(stats, k), r.attempts);
    }
  }

  /** Every bucket of every run is coherent and holds at least one game, so the zero guard on the
      win rate at line 398 never fires. */
  lemma {:induction false} StatsCoherent(rs: seq<Record>, k: Key)
    ensures k in StatsOf(rs) ==> Coherent(StatsOf(rs)[k]) && StatsOf(rs)[k].total >= 1
  {
    if rs != [] {
      var init := rs[..|rs| - 1];
      var r := rs[|rs| - 1];
      StatsCoherent(init, k);
      AddRecordCoherent(StatsOf(init), r, k);
    }
  }

  // ----- The attempts total as a weighted histogram -----

  /** The histogram over d, d+1, ..., 9, each count weighted by its number of attempts. */
  function DistWeighted(dist: map<nat, nat>, d: nat): nat
    decreases 10 - d
  {
    if d > 9 then 0 else d * Count(dist, d) + DistWeighted(dist, d + 1)
  }

  /** The attempts total equals the histogram weighted by attempt counts. */
  predicate Weighted(b: Bucket) {
    DistWeighted(b.attemptsDist, 0) == b.totalAttempts
  }

  lemma {:induction false} EmptyWeighted(d: nat)
    ensures DistWeighted(map[], d) == 0
    decreases 10 - d
  {
    if d <= 9 {
      EmptyWeighted(d + 1);
    }
  }

  lemma {:induction false} BumpWeighted(dist: map<nat, nat>, n: nat, d: nat)
    requires n <= 9
    ensures DistWeighted(dist[n := Count(dist, n) + 1], d) == DistWeighted(dist, d) + (if d <= n then n else 0)
    decreases 10 - d
  {
    if d <= 9 {
      BumpWeighted(dist, n, d + 1);
      var c := Count(dist, d);
      if d == n {
        assert Count(dist[n := c + 1], d) == c + 1;
        assert d * (c + 1) == d * c + d;
      } else {
        assert Count(dist[n := Count(dist, n) + 1], d) == c;
      }
    }
  }

  /** A win with n attempts adds n to both sides. */
  lemma WinWeighted(b: Bucket, n: nat)
    requires Weighted(b) && n <= 9
    ensures var bumped := b.attemptsDist[n := Count(b.attemptsDist, n) + 1];
      Weighted(Bucket(b.total + 1, b.wins + 1, b.losses, bumped, b.totalAttempts + n))
  {
    BumpWeighted(b.attemptsDist, n, 0);
  }

  /** Adding a game keeps the attempts total equal to the weighted histogram. */
  lemma TallyWeighted(b: Bucket, a: AttemptToken)
    requires Weighted(b)
    ensures Weighted(Tally(b, a))
  {
    if a == 'X' {
      assert Tally(b, a) == Bucket(b.total + 1, b.wins, b.losses + 1, b.attemptsDist, b.totalAttempts);
    } else {
      var n := DigitValue(a);
      WinWeighted(b, n);
      assert Tally(b, a) == Bucket(b.total + 1, b.wins + 1, b.losses, b.attemptsDist[n := Count(b.attemptsDist, n) + 1], b.totalAttempts + n);
    }
  }

  lemma AddRecordWeighted(stats: map<Key, Bucket>, r: Record, k: Key)
    requires k in stats ==> Weighted(stats[k])
    ensures k in AddRecord(stats, r) ==> Weighted(AddRecord(stats, r)[k])
  {
    AddRecordAt(stats, r, k);
    if KeyOf(r) == k {
      EmptyWeighted(0);
      TallyWeighted(BucketAt(stats, k), r.attempts);
    }
  }

  /** In every bucket the attempts total is the sum of k times the histogram entry for k. */
  lemma {:induction false} StatsWeighted(rs: seq<Record>, k: Key)
    ensures k in StatsOf(rs) ==> Weighted(StatsOf(rs)[k])
  {
    if rs != [] {
      StatsWeighted(rs[..|rs| - 1], k);
      AddRecordWeighted(StatsOf(rs[..|rs| - 1]), rs[|rs| - 1], k);
    }
  }

  // ----- What the buckets count -----

  function CountKey(rs: seq<Record>, k: Key): nat {
    if rs == [] then 0 else CountKey(rs[..|rs| - 1], k) + (if KeyOf(rs[|rs| - 1]) == k then 1 else 0)
  }

  function CountLosses(rs: seq<Record>, k: Key): nat {
    if rs == [] then 0
    else CountLosses(rs[..|rs| - 1], k) + (if KeyOf(rs[|rs| - 1]) == k && rs[|rs| - 1].attempts == 'X' then 1 else 0)
  }

  function CountAttempts(rs: seq<Record>, k: Key, a: AttemptToken): nat {
    if rs == [] then 0
    else CountAttempts(rs[..|rs| - 1], k, a) + (if KeyOf(rs[|rs| - 1]) == k && rs[|rs| - 1].attempts == a then 1 else 0)
  }

  /** The attempts of the winning records under k, added up. */
  function WinAttempts(rs: seq<Record>, k: Key): nat {
    if rs == [] then 0
    else
      var r := rs[|rs| - 1];
      WinAttempts(rs[..|rs| - 1], k) + (if KeyOf(r) == k && r.attempts != 'X' then DigitValue(r.attempts) else 0)
  }

  /** A bucket exists exactly for the (player, year) pairs of some record; it counts that pair's
      records, its losses are its "X" records, and its histogram entry for d counts its records
      with the digit d. */
  lemma {:induction false} StatsCounts(rs: seq<Record>, k: Key)
    ensures k in StatsOf(rs) <==> CountKey(rs, k) > 0
    ensures k in StatsOf(rs) ==> StatsOf(rs)[k].total == CountKey(rs, k)
    ensures k in StatsOf(rs) ==> StatsOf(rs)[k].losses == CountLosses(rs, k)
    ensures k in StatsOf(rs) ==> forall d :: 0 <= d <= 9 ==>
      Count(StatsOf(rs)[k].attemptsDist, d) == CountAttempts(rs, k, DigitChar(d))
  {
    if rs != [] {
      var init := rs[..|rs| - 1];
      StatsCounts(init, k);
      var prev := StatsOf(init);
      var r := rs[|rs| - 1];
      if KeyOf(r) == k {
        var b := BucketAt(prev, k);
        assert k !in prev ==> (CountKey(init, k) == 0 && CountLosses(init, k) == 0
          && forall d :: 0 <= d <= 9 ==> CountAttempts(init, k, DigitChar(d)) == 0) by {
          if k !in prev {
            CountsVanish(init, k);
          }
        }
        var after := Tally(b, r.attempts);
        assert StatsOf(rs)[k] == after;
        forall d | 0 <= d <= 9
          ensures Count(after.attemptsDist, d) == CountAttempts(rs, k, DigitChar(d))
        {
          if r.attempts == 'X' || DigitValue(r.attempts) != d {
            assert DigitChar(d) != r.attempts;
          } else {
            assert DigitChar(d) == r.attempts;
          }
        }
      } else {
        assert StatsOf(rs) == prev[KeyOf(r) := Tally(BucketAt(prev, KeyOf(r)), r.attempts)];
      }
    }
  }

  /** The attempts total of a bucket is the sum of the attempts of its winning records, the
      numerator of the average at lines 399-400. */
  lemma {:induction false} StatsAttempts(rs: seq<Record>, k: Key)
    ensures k in StatsOf(rs) ==> StatsOf(rs)[k].totalAttempts == WinAttempts(rs, k)
  {
    if rs != [] {
      var init := rs[..|rs| - 1];
      StatsAttempts(init, k);
      var prev := StatsOf(init);
      var r := rs[|rs| - 1];
      if KeyOf(r) == k {
        if k !in prev {
          StatsCounts(init, k);
          CountsVanish(init, k);
        }
        assert StatsOf(rs)[k] == Tally(BucketAt(prev, k), r.attempts);
      } else {
        assert StatsOf(rs) == prev[KeyOf(r) := Tally(BucketAt(prev, KeyOf(r)), r.attempts)];
      }
    }
  }

  /** With no record under k, none of its counts is positive. */
  lemma {:induction false} CountsVanish(rs: seq<Record>, k: Key)
    requires CountKey(rs, k) == 0
    ensures CountLosses(rs, k) == 0
    ensures forall a: AttemptToken :: CountAttempts(rs, k, a) == 0
    ensures WinAttempts(rs, k) == 0
  {
    if rs != [] {
      CountsVanish(rs[..|rs| - 1], k);
    }
  }

  // ----- Order independence -----

  lemma TallyCommutes(b: Bucket, x: AttemptToken, y: AttemptToken)
    ensures Tally(Tally(b, x), y) == Tally(Tally(b, y), x)
  {
    if x != 'X' && y != 'X' && x != y {
      var m := b.attemptsDist;
      var i: nat, j: nat := DigitValue(x), DigitValue(y);
      assert i != j;
      var ci: nat, cj: nat := Count(m, i) + 1, Count(m, j) + 1;
      var ij: map<nat, nat> := m[i := ci][j := cj];
      var ji: map<nat, nat> := m[j := cj][i := ci];
      assert ij == ji;
    }
  }

  lemma AddRecordCommutes(s: map<Key, Bucket>, x: Record, y: Record)
    ensures AddRecord(AddRecord(s, x), y) == AddRecord(AddRecord(s, y), x)
  {
    if KeyOf(x) == KeyOf(y) {
      TallyCommutes(BucketAt(s, KeyOf(x)), x.attempts, y.attempts);
    }
  }

  /** A record can be moved to the end of the sequence without changing the buckets. */
  lemma {:induction false} MoveToEnd(xs: seq<Record>, x: Record, ys: seq<Record>)
    ensures StatsOf(xs + [x] + ys) == AddRecord(StatsOf(xs + ys), x)
    decreases |ys|
  {
    if ys == [] {
      assert xs + [x] + ys == xs + [x];
      assert (xs + [x])[..|xs|] == xs;
      assert xs + ys == xs;
    } else {
      var init, y := ys[..|ys| - 1], ys[|ys| - 1];
      assert (xs + [x] + ys)[..|xs + [x] + ys| - 1] == xs + [x] + init;
      assert (xs + ys)[..|xs + ys| - 1] == xs + init;
      MoveToEnd(xs, x, init);
      AddRecordCommutes(StatsOf(xs + init), x, y);
    }
  }

  /** Taking the same element out of two permutations of each other leaves permutations. */
  lemma RemoveFromBoth<T>(rs: seq<T>, ps: seq<T>, j: nat)
    requires multiset(rs) == multiset(ps) && rs != [] && j < |ps| && ps[j] == rs[|rs| - 1]
    ensures multiset(rs[..|rs| - 1]) == multiset(ps[..j] + ps[j + 1..])
  {
    var x := rs[|rs| - 1];
    var init, before, after := rs[..|rs| - 1], ps[..j], ps[j + 1..];
    assert rs == init + [x];
    assert multiset(rs) == multiset(init) + multiset{x};
    assert ps == before + [x] + after;
    assert multiset(ps) == multiset(before) + multiset{x} + multiset(after);
    assert multiset(init) == multiset(rs) - multiset{x};
    assert multiset(ps) - multiset{x} == multiset(before) + multiset(after);
    assert multiset(before + after) == multiset(before) + multiset(after);
  }

  /** `calculate_statistics` does not depend on the order of its input: any permutation of the
      records gives the same buckets. */
  lemma {:induction false} StatsOrderIndependent(rs: seq<Record>, ps: seq<Record>)
    requires multiset(rs) == multiset(ps)
    ensures StatsOf(rs) == StatsOf(ps)
    decreases |rs|
  {
    if rs == [] {
      assert |ps| == |multiset(ps)| == 0;
    } else {
      var init, x := rs[..|rs| - 1], rs[|rs| - 1];
      assert x in multiset(rs);
      var j :| 0 <= j < |ps| && ps[j] == x;
      var before, after := ps[..j], ps[j + 1..];
      assert ps == before + [x] + after;
      RemoveFromBoth(rs, ps, j);
      StatsOrderIndependent(init, before + after);
      MoveToEnd(before, x, after);
    }
  }

  // ----- Totals over all buckets -----

  /** The sum of the `total` fields of all buckets. */
  ghost function SumTotals(m: map<Key, Bucket>): nat
    decreases |m|
  {
    if m == map[] then 0
    else
      var k :| k in m;
      assert |m - {k}| < |m| by { assert (m - {k}).Keys == m.Keys - {k}; }
      m[k].total + SumTotals(m - {k})
  }

  lemma {:induction false} SumTotalsRemove(m: map<Key, Bucket>, k: Key)
    requires k in m
    ensures SumTotals(m) == m[k].total + SumTotals(m - {k})
    decreases |m|
  {
    var j :| j in m && SumTotals(m) == m[j].total + SumTotals(m - {j});
    if j != k {
      assert (m - {j}).Keys == m.Keys - {j};
      assert (m - {k}).Keys == m.Keys - {k};
      SumTotalsRemove(m - {j}, k);
      SumTotalsRemove(m - {k}, j);
      assert m - {j} - {k} == m - {k} - {j};
    }
  }

  /** Every record is counted in exactly one bucket: the totals add up to the number of records. */
  lemma {:induction false} TotalsCoverAllRecords(rs: seq<Record>)
    ensures SumTotals(StatsOf(rs)) == |rs|
  {
    if rs != [] {
      var prev := StatsOf(rs[..|rs| - 1]);
      TotalsCoverAllRecords(rs[..|rs| - 1]);
      var r := rs[|rs| - 1];
      var k := KeyOf(r);
      var next := StatsOf(rs);
      SumTotalsRemove(next, k);
      assert next - {k} == prev - {k};
      if k in prev {
        SumTotalsRemove(prev, k);
      } else {
        assert prev - {k} == prev;
      }
    }
  }
}
