/**
 * The job step of the scheduler (scheduler/job.py): `_split_list`, which cuts a batch into
 * chunks of at most `k` addresses, `_get_jobs`, which turns every batch into one job or into
 * numbered chunk jobs, and `_count_jobs`, which totals the assigned and the ignored addresses.
 *
 * `random.shuffle` is a parameter: `shuffle(n, s)` is the order in which the `n`-th call of
 * `random.shuffle` (counting from 0) leaves the list `s`; only its being a permutation is assumed.
 * The dictionary `_get_jobs` returns is the sequence of its entries in insertion order; the ids
 * are proved distinct, so no entry overwrites another.
 */
module Jobs {
  import opened Results
  import opened Text
  import opened Classifier
  import opened Batching

  // ================================================================ _split_list

  /** `_split_list(lst, k)`: the slices `lst[i:i + k]` for `i` in `range(0, len(lst), k)`, the last
      one cut short by Python's slice clamping. A negative `k` makes the `range` empty; `k == 0`
      makes `range` raise `ValueError`, which `_get_jobs` never causes. */
  function SplitList(lst: seq<Email>, k: int): (r: seq<seq<Email>>)
    requires k != 0
    ensures r == [] <==> k < 0 || lst == []
    ensures forall j :: 0 <= j < |r| ==> r[j] != []
    decreases |lst|
  {
    if k < 0 || lst == [] then []
    else if |lst| <= k then [lst]
    else [lst[..k]] + SplitList(lst[k..], k)
  }

  /** The chunks put back together are the list. */
  lemma {:induction false} SplitListConcat(lst: seq<Email>, k: int)
    requires k >= 1
    ensures Flatten(SplitList(lst, k)) == lst
    decreases |lst|
  {
    if lst != [] {
      if |lst| <= k {
        assert Flatten([lst]) == lst + [];
      } else {
        SplitListConcat(lst[k..], k);
        FlattenAppend([lst[..k]], SplitList(lst[k..], k));
        assert Flatten([lst[..k]]) == lst[..k] + [];
        assert lst[..k] + lst[k..] == lst;
      }
    }
  }

  /** There are `ceil(len(lst) / k)` chunks (`Batching.RoundsCeil`); all but the last hold exactly
      `k` addresses and the last holds 1 to `k`. */
  lemma {:induction false} SplitListSizes(lst: seq<Email>, k: int)
    requires k >= 1
    ensures var r := SplitList(lst, k);
      && |r| == Rounds(|lst|, k)
      && (forall j :: 0 <= j < |r| - 1 ==> |r[j]| == k)
      && (r != [] ==> 1 <= |r[|r| - 1]| <= k)
    decreases |lst|
  {
    if |lst| > k {
      SplitListSizes(lst[k..], k);
      var r := SplitList(lst, k);
      var rest := SplitList(lst[k..], k);
      assert r == [lst[..k]] + rest;
      forall j | 0 <= j < |r| - 1 ensures |r[j]| == k {
        if j > 0 {
          assert r[j] == rest[j - 1];
        }
      }
      assert r[|r| - 1] == rest[|rest| - 1];
    }
  }

  /** No chunk is longer than `k`. */
  lemma SplitListShort(lst: seq<Email>, k: int, j: nat)
    requires k >= 1 && j < |SplitList(lst, k)|
    ensures |SplitList(lst, k)[j]| <= k
  {
    SplitListSizes(lst, k);
  }

  /** The example of `_split_list`'s documentation: seven items in threes. */
  lemma SplitListExample()
    ensures SplitList(["1", "2", "3", "4", "5", "6", "7"], 3) == [["1", "2", "3"], ["4", "5", "6"], ["7"]]
  {
    var lst: seq<Email> := ["1", "2", "3", "4", "5", "6", "7"];
    assert lst[..3] == ["1", "2", "3"] && lst[3..] == ["4", "5", "6", "7"];
    var tail := lst[3..];
    assert tail[..3] == ["4", "5", "6"] && tail[3..] == ["7"];
  }

  // ================================================================ job ids

  /** A job's key in the result of `_get_jobs`: `f"{i}"` for a batch kept whole, `f"{i}_{j}"` for
      chunk `j` of batch `i`. */
  datatype JobId = Single(batch: nat) | Part(batch: nat, chunk: nat)

  function IdString(id: JobId): string {
    match id
    case Single(i) => NatToString(i)
    case Part(i, j) => NatToString(i) + "_" + NatToString(j)
  }

  lemma DigitsNoUnderscore(n: nat)
    ensures '_' !in NatToString(n)
  {
    var s := NatToString(n);
    forall k | 0 <= k < |s| ensures s[k] != '_' {
      assert IsAsciiDigit(s[k]);
    }
  }

  /** The index of the first `_` of `s`, or its length when there is none. */
  function FirstUnderscore(s: string): (r: nat)
    ensures r <= |s|
  {
    if s == [] || s[0] == '_' then 0 else 1 + FirstUnderscore(s[1..])
  }

  lemma {:induction false} FirstUnderscoreAfter(x: string, t: string)
    requires '_' !in x
    ensures FirstUnderscore(x + t) == |x| + FirstUnderscore(t)
    decreases |x|
  {
    if x == [] {
      assert x + t == t;
    } else {
      FirstUnderscoreAfter(x[1..], t);
      assert (x + t)[1..] == x[1..] + t;
    }
  }

  /** Reads an id back from its text: up to the first `_` the batch, after it the chunk. */
  function ParseId(s: string): JobId {
    var f := FirstUnderscore(s);
    if f == |s| then Single(ParseNat(s)) else Part(ParseNat(s[..f]), ParseNat(s[f + 1..]))
  }

  /** Every id is read back from its text. */
  lemma ParseIdString(id: JobId)
    ensures ParseId(IdString(id)) == id
  {
    var x := NatToString(id.batch);
    DigitsNoUnderscore(id.batch);
    ParseNatToString(id.batch);
    match id
    case Single(i) =>
      FirstUnderscoreAfter(x, []);
      assert x + [] == x;
    case Part(i, j) =>
      var u := NatToString(j);
      ParseNatToString(j);
      FirstUnderscoreAfter(x, "_" + u);
      assert x + "_" + u == x + ("_" + u);
      var s := IdString(id);
      assert s[..|x|] == x && s[|x| + 1..] == u;
  }

  /** Different ids are written differently, so no entry of the dictionary overwrites another. */
  lemma IdStringInjective(a: JobId, b: JobId)
    requires IdString(a) == IdString(b)
    ensures a == b
  {
    ParseIdString(a);
    ParseIdString(b);
  }

  // ================================================================ _get_jobs

  datatype Job = Job(id: JobId, items: seq<Email>)

  /** The exceptions `_get_jobs` can raise: `ValueError` of `max([])`, and `IndexError` of
      `batches[j]` with the offending index. */
  datatype JobError = MaxOfEmpty | IndexOutOfRange(index: nat)

  /** `shuffle(n, s)`: the order the `n`-th call of `random.shuffle` leaves `s` in. */
  type Shuffle = (nat, seq<Email>) -> seq<Email>

  ghost predicate Permutes(shuffle: Shuffle) {
    forall n, s :: multiset(shuffle(n, s)) == multiset(s)
  }

  /** `max([len(b) for b in batches])`. */
  function MaxLen(batches: seq<seq<Email>>): (r: nat)
    requires batches != []
    ensures forall i :: 0 <= i < |batches| ==> |batches[i]| <= r
    ensures exists i :: 0 <= i < |batches| && |batches[i]| == r
    decreases |batches|
  {
    if |batches| == 1 then |batches[0]|
    else
      var m := MaxLen(batches[1..]);
      assert forall i :: 1 <= i < |batches| ==> batches[i] == batches[1..][i - 1];
      if |batches[0]| > m then |batches[0]| else m
  }

  /** The batches after the chunk loop of batch `i` shuffled `batches[0..m]` in place, with draws
      `n`, `n + 1`, ... */
  function ShuffleFirst(bs: seq<seq<Email>>, m: nat, shuffle: Shuffle, n: nat): (r: seq<seq<Email>>)
    requires m <= |bs|
    ensures |r| == |bs|
    ensures forall j :: 0 <= j < |bs| ==> r[j] == if j < m then shuffle(n + j, bs[j]) else bs[j]
  {
    if m == 0 then bs else ShuffleFirst(bs, m - 1, shuffle, n)[m - 1 := shuffle(n + m - 1, bs[m - 1])]
  }

  /** The first `m` chunk jobs of batch `i`, each holding its chunk as sliced. */
  function ChunkJobs(i: nat, items: seq<seq<Email>>, m: nat): (r: seq<Job>)
    requires m <= |items|
    ensures |r| == m
    ensures forall a :: 0 <= a < m ==> r[a] == Job(Part(i, a), items[a])
  {
    if m == 0 then [] else ChunkJobs(i, items, m - 1) + [Job(Part(i, m - 1), items[m - 1])]
  }

  /** `prefix` followed by the jobs of `r`, or the error of `r`. */
  function Then(prefix: seq<Job>, r: Result<seq<Job>, JobError>): Result<seq<Job>, JobError> {
    match r
    case Ok(jobs) => Ok(prefix + jobs)
    case Err(e) => Err(e)
  }

  /** What one pass of the loop of `_get_jobs` produces: whether it failed, the jobs it added,
      the batches as it leaves them and the number of shuffles drawn so far. */
  datatype Pass = Pass(failed: bool, jobs: seq<Job>, batches: seq<seq<Email>>, draws: nat)

  /** The pass for batch `i`, with `n` shuffles drawn before it. A batch in one chunk becomes one
      shuffled job; a batch in several chunks becomes one job per chunk, as sliced, while the pass
      shuffles `batches[j]` for each chunk index `j` and fails once `j` reaches `len(batches)`. */
  function Step(bs: seq<seq<Email>>, k: int, shuffle: Shuffle, i: nat, n: nat): (r: Pass)
    requires k != 0 && i < |bs|
    ensures !r.failed ==> |r.batches| == |bs|
  {
    var items := SplitList(bs[i], k);
    if |items| == 1 then Pass(false, [Job(Single(i), shuffle(n, items[0]))], bs, n + 1)
    else if |items| > |bs| then Pass(true, [], bs, n)
    else Pass(false, ChunkJobs(i, items, |items|), ShuffleFirst(bs, |items|, shuffle, n), n + |items|)
  }

  /** The loop of `_get_jobs` from batch `i` on, with the batches as earlier passes left them and
      `n` shuffles drawn so far; the `IndexError` discards the jobs built before it. */
  function Assign(bs: seq<seq<Email>>, k: int, shuffle: Shuffle, i: nat, n: nat): Result<seq<Job>, JobError>
    requires k != 0 && i <= |bs|
    decreases |bs| - i
  {
    if i == |bs| then Ok([])
    else
      var pass := Step(bs, k, shuffle, i, n);
      if pass.failed then Err(IndexOutOfRange(|bs|))
      else Then(pass.jobs, Assign(pass.batches, k, shuffle, i + 1, pass.draws))
  }

  /** `_get_jobs`: a `batch_size` of 0 means one chunk per batch, one longer than the longest
      batch, and fails on no batches. */
  function JobsOf(batches: seq<seq<Email>>, batchSize: int, shuffle: Shuffle): Result<seq<Job>, JobError> {
    if batchSize == 0 && batches == [] then Err(MaxOfEmpty)
    else
      var k := if batchSize == 0 then MaxLen(batches) + 1 else batchSize;
      Assign(batches, k, shuffle, 0, 0)
  }

  lemma ThenAssoc(a: seq<Job>, b: seq<Job>, r: Result<seq<Job>, JobError>)
    ensures Then(a, Then(b, r)) == Then(a + b, r)
    ensures Then([], r) == r
  {
    if r.Ok? {
      assert a + (b + r.value) == (a + b) + r.value;
      assert [] + r.value == r.value;
    }
  }

  /** One pass of the loop of `_get_jobs`, with its inner chunk loop. */
  method JobsOfBatch(bs: seq<seq<Email>>, k: int, shuffle: Shuffle, i: nat, n: nat) returns (r: Pass)
    requires k != 0 && i < |bs|
    ensures r == Step(bs, k, shuffle, i, n)
  {
    var items := SplitList(bs[i], k);
    if |items| == 1 {
      return Pass(false, [Job(Single(i), shuffle(n, items[0]))], bs, n + 1);
    }
    var batches, jobs := bs, [];
    for j := 0 to |items|
      invariant j <= |bs| && batches == ShuffleFirst(bs, j, shuffle, n)
      invariant jobs == ChunkJobs(i, items, j)
    {
      if j >= |batches| {
        return Pass(true, [], bs, n);
      }
      batches := batches[j := shuffle(n + j, batches[j])];
      jobs := jobs + [Job(Part(i, j), items[j])];
    }
    return Pass(false, jobs, batches, n + |items|);
  }

  /** `_get_jobs`, with the in-place shuffles on a local copy of the batches. */
  method GetJobs(batches: seq<seq<Email>>, batchSize: int, shuffle: Shuffle) returns (r: Result<seq<Job>, JobError>)
    ensures r == JobsOf(batches, batchSize, shuffle)
  {
    var k := batchSize;
    if k == 0 {
      if batches == [] {
        return Err(MaxOfEmpty);
      }
      k := MaxLen(batches) + 1;
    }
    var bs := batches;
    var res: seq<Job> := [];
    var n: nat := 0;
    ThenAssoc([], [], Assign(bs, k, shuffle, 0, n));
    for i := 0 to |bs|
      invariant |bs| == |batches|
      invariant JobsOf(batches, batchSize, shuffle) == Then(res, Assign(bs, k, shuffle, i, n))
    {
      var pass := JobsOfBatch(bs, k, shuffle, i, n);
      if pass.failed {
        return Err(IndexOutOfRange(|bs|));
      }
      ThenAssoc(res, pass.jobs, Assign(pass.batches, k, shuffle, i + 1, pass.draws));
      res, bs, n := res + pass.jobs, pass.batches, pass.draws;
    }
    assert res + [] == res;
    return Ok(res);
  }

  // ================================================================ properties of _get_jobs

  /** Every chunk is a piece of the list. */
  lemma {:induction false} SplitListIn(lst: seq<Email>, k: int, j: nat)
    requires k != 0 && j < |SplitList(lst, k)|
    ensures multiset(SplitList(lst, k)[j]) <= multiset(lst)
    decreases |lst|
  {
    if |lst| > k {
      assert lst == lst[..k] + lst[k..];
      assert multiset(lst) == multiset(lst[..k]) + multiset(lst[k..]);
      if j > 0 {
        SplitListIn(lst[k..], k, j - 1);
      }
    }
  }

  /** The addresses of the jobs, in order: the values of the dictionary, concatenated. */
  function JobItems(jobs: seq<Job>): seq<Email> {
    if jobs == [] then [] else jobs[0].items + JobItems(jobs[1..])
  }

  lemma {:induction false} JobItemsAppend(a: seq<Job>, b: seq<Job>)
    ensures JobItems(a + b) == JobItems(a) + JobItems(b)
    decreases |a|
  {
    if a == [] {
      assert a + b == b;
    } else {
      JobItemsAppend(a[1..], b);
      assert (a + b)[1..] == a[1..] + b;
    }
  }

  lemma {:induction false} ChunkJobsItems(i: nat, items: seq<seq<Email>>, m: nat)
    requires m <= |items|
    ensures JobItems(ChunkJobs(i, items, m)) == Gather(items, m)
    decreases m
  {
    if m > 0 {
      var job := Job(Part(i, m - 1), items[m - 1]);
      ChunkJobsItems(i, items, m - 1);
      JobItemsAppend(ChunkJobs(i, items, m - 1), [job]);
      assert JobItems([job]) == items[m - 1] + [];
    }
  }

  /** The contents of each batch, in batch order: batches that agree on it are each a
      permutation of the other's batch at the same index. */
  function Bags(bs: seq<seq<Email>>): (r: seq<multiset<Email>>)
    ensures |r| == |bs|
  {
    if bs == [] then [] else [multiset(bs[0])] + Bags(bs[1..])
  }

  lemma {:induction false} BagsAt(bs: seq<seq<Email>>, j: nat)
    requires j < |bs|
    ensures Bags(bs)[j] == multiset(bs[j])
    decreases j
  {
    if j > 0 {
      BagsAt(bs[1..], j - 1);
    }
  }

  lemma {:induction false} BagsUpdate(bs: seq<seq<Email>>, j: nat, x: seq<Email>)
    requires j < |bs| && multiset(x) == multiset(bs[j])
    ensures Bags(bs[j := x]) == Bags(bs)
    decreases j
  {
    if j > 0 {
      BagsUpdate(bs[1..], j - 1, x);
      assert bs[j := x][1..] == bs[1..][j - 1 := x];
    }
  }

  lemma {:induction false} ShuffleFirstBags(bs: seq<seq<Email>>, m: nat, shuffle: Shuffle, n: nat)
    requires Permutes(shuffle) && m <= |bs|
    ensures Bags(ShuffleFirst(bs, m, shuffle, n)) == Bags(bs)
    decreases m
  {
    if m > 0 {
      var before := ShuffleFirst(bs, m - 1, shuffle, n);
      ShuffleFirstBags(bs, m - 1, shuffle, n);
      BagsUpdate(before, m - 1, shuffle(n + m - 1, bs[m - 1]));
    }
  }

  /** A pass keeps every batch a permutation of what it was. */
  lemma StepReorders(bs: seq<seq<Email>>, k: int, shuffle: Shuffle, i: nat, n: nat)
    requires Permutes(shuffle) && k != 0 && i < |bs|
    ensures !Step(bs, k, shuffle, i, n).failed ==> Bags(Step(bs, k, shuffle, i, n).batches) == Bags(bs)
  {
    var items := SplitList(bs[i], k);
    if |items| != 1 && |items| <= |bs| {
      ShuffleFirstBags(bs, |items|, shuffle, n);
    }
  }

  /** Every job of batch `i` holds at most `k` addresses, all from batch `i`. */
  ghost predicate Fits(job: Job, orig: seq<seq<Email>>, k: int) {
    && job.id.batch < |orig|
    && multiset(job.items) <= multiset(orig[job.id.batch])
    && (k > 0 ==> |job.items| <= k)
  }

  lemma StepFits(bs: seq<seq<Email>>, orig: seq<seq<Email>>, k: int, shuffle: Shuffle, i: nat, n: nat)
    requires Permutes(shuffle) && k != 0 && i < |bs| && Bags(bs) == Bags(orig)
    ensures var pass := Step(bs, k, shuffle, i, n);
      && AllFit(pass.jobs, orig, k, i)
      && forall a :: 0 <= a < |pass.jobs| ==> pass.jobs[a].id.batch == i
  {
    var items := SplitList(bs[i], k);
    var pass := Step(bs, k, shuffle, i, n);
    BagsAt(bs, i);
    BagsAt(orig, i);
    forall a | 0 <= a < |pass.jobs| ensures pass.jobs[a].id.batch == i && Fits(pass.jobs[a], orig, k) {
      var c := if |items| == 1 then 0 else a;
      SplitListIn(bs[i], k, c);
      if k > 0 {
        SplitListShort(bs[i], k, c);
      }
    }
  }

  /** Every job comes from batch `lo` or later and fits its batch. */
  ghost predicate AllFit(jobs: seq<Job>, orig: seq<seq<Email>>, k: int, lo: nat) {
    forall a :: 0 <= a < |jobs| ==> lo <= jobs[a].id.batch && Fits(jobs[a], orig, k)
  }

  lemma AllFitAppend(front: seq<Job>, later: seq<Job>, orig: seq<seq<Email>>, k: int, lo: nat)
    requires AllFit(front, orig, k, lo) && AllFit(later, orig, k, lo + 1)
    ensures AllFit(front + later, orig, k, lo)
  {
    var all := front + later;
    forall a | 0 <= a < |all| ensures lo <= all[a].id.batch && Fits(all[a], orig, k) {
      if a >= |front| {
        assert all[a] == later[a - |front|];
      }
    }
  }

  lemma ThenFits(front: seq<Job>, r: Result<seq<Job>, JobError>, orig: seq<seq<Email>>, k: int, lo: nat)
    requires AllFit(front, orig, k, lo) && (r.Ok? ==> AllFit(r.value, orig, k, lo + 1))
    ensures Then(front, r).Ok? ==> AllFit(Then(front, r).value, orig, k, lo)
  {
    if r.Ok? {
      AllFitAppend(front, r.value, orig, k, lo);
    }
  }

  /** Every job of the loop from batch `i` on comes from a batch at `i` or later, holds at most
      `k` addresses and only addresses of its batch. */
  lemma {:induction false} AssignFits(bs: seq<seq<Email>>, orig: seq<seq<Email>>, k: int, shuffle: Shuffle,
                                      i: nat, n: nat)
    requires Permutes(shuffle) && k != 0 && i <= |bs| && Bags(bs) == Bags(orig)
    ensures var r := Assign(bs, k, shuffle, i, n); r.Ok? ==> AllFit(r.value, orig, k, i)
    decreases |bs| - i
  {
    if i < |bs| {
      var pass := Step(bs, k, shuffle, i, n);
      if !pass.failed {
        StepReorders(bs, k, shuffle, i, n);
        StepFits(bs, orig, k, shuffle, i, n);
        AssignFits(pass.batches, orig, k, shuffle, i + 1, pass.draws);
        ThenFits(pass.jobs, Assign(pass.batches, k, shuffle, i + 1, pass.draws), orig, k, i);
      }
    }
  }

  /** No two jobs share an id. */
  ghost predicate DistinctIds(jobs: seq<Job>) {
    forall a, b :: 0 <= a < b < |jobs| ==> jobs[a].id != jobs[b].id
  }

  lemma DistinctIdsAppend(front: seq<Job>, later: seq<Job>, orig: seq<seq<Email>>, k: int, i: nat)
    requires DistinctIds(front) && forall a :: 0 <= a < |front| ==> front[a].id.batch == i
    requires DistinctIds(later) && AllFit(later, orig, k, i + 1)
    ensures DistinctIds(front + later)
  {
    var all := front + later;
    forall a, b | 0 <= a < b < |all| ensures all[a].id != all[b].id {
      if b >= |front| {
        assert all[b] == later[b - |front|];
        if a >= |front| {
          assert all[a] == later[a - |front|];
        }
      }
    }
  }

  lemma StepIdsDistinct(bs: seq<seq<Email>>, k: int, shuffle: Shuffle, i: nat, n: nat)
    requires k != 0 && i < |bs|
    ensures DistinctIds(Step(bs, k, shuffle, i, n).jobs)
  {
  }

  /** The ids of the loop from batch `i` on are distinct. */
  lemma {:induction false} AssignIdsDistinct(bs: seq<seq<Email>>, k: int, shuffle: Shuffle, i: nat, n: nat)
    requires Permutes(shuffle) && k != 0 && i <= |bs|
    ensures var r := Assign(bs, k, shuffle, i, n); r.Ok? ==> DistinctIds(r.value)
    decreases |bs| - i
  {
    if i < |bs| {
      var pass := Step(bs, k, shuffle, i, n);
      if !pass.failed {
        StepFits(bs, bs, k, shuffle, i, n);
        StepReorders(bs, k, shuffle, i, n);
        StepIdsDistinct(bs, k, shuffle, i, n);
        AssignIdsDistinct(pass.batches, k, shuffle, i + 1, pass.draws);
        AssignFits(pass.batches, bs, k, shuffle, i + 1, pass.draws);
        var later := Assign(pass.batches, k, shuffle, i + 1, pass.draws);
        if later.Ok? {
          DistinctIdsAppend(pass.jobs, later.value, bs, k, i);
        }
      }
    }
  }

  /** A pass that does not fail turns batch `i` into jobs holding exactly its addresses. */
  lemma StepConserves(bs: seq<seq<Email>>, k: int, shuffle: Shuffle, i: nat, n: nat)
    requires Permutes(shuffle) && k >= 1 && i < |bs|
    ensures var pass := Step(bs, k, shuffle, i, n);
      !pass.failed ==> multiset(JobItems(pass.jobs)) == multiset(bs[i])
  {
    var items := SplitList(bs[i], k);
    var pass := Step(bs, k, shuffle, i, n);
    if !pass.failed {
      SplitListConcat(bs[i], k);
      if |items| == 1 {
        assert JobItems(pass.jobs) == pass.jobs[0].items + [];
        assert Flatten(items) == items[0] + [];
      } else {
        ChunkJobsItems(i, items, |items|);
        GatherAll(items);
      }
    }
  }

  lemma FlattenCons(bs: seq<seq<Email>>, i: nat)
    requires i < |bs|
    ensures Flatten(bs[i..]) == bs[i] + Flatten(bs[i + 1..])
  {
    assert bs[i..] == [bs[i]] + bs[i + 1..];
    FlattenAppend([bs[i]], bs[i + 1..]);
    assert Flatten([bs[i]]) == bs[i] + [];
  }

  /** With chunks of at least one address, the jobs of the loop from batch `i` on hold exactly the
      addresses of the batches from `i` on. */
  lemma {:induction false} AssignConserves(bs: seq<seq<Email>>, orig: seq<seq<Email>>, k: int, shuffle: Shuffle,
                                           i: nat, n: nat)
    requires Permutes(shuffle) && k >= 1 && i <= |bs| && Bags(bs) == Bags(orig)
    ensures var r := Assign(bs, k, shuffle, i, n);
      r.Ok? ==> multiset(JobItems(r.value)) == multiset(Flatten(orig[i..]))
    decreases |bs| - i
  {
    if i == |bs| {
      assert orig[i..] == [];
    } else {
      var pass := Step(bs, k, shuffle, i, n);
      if !pass.failed {
        StepReorders(bs, k, shuffle, i, n);
        StepConserves(bs, k, shuffle, i, n);
        AssignConserves(pass.batches, orig, k, shuffle, i + 1, pass.draws);
        var later := Assign(pass.batches, k, shuffle, i + 1, pass.draws);
        if later.Ok? {
          JobItemsAppend(pass.jobs, later.value);
          FlattenCons(orig, i);
          BagsAt(bs, i);
          BagsAt(orig, i);
        }
      }
    }
  }

  lemma AllFitAnySize(jobs: seq<Job>, orig: seq<seq<Email>>, k: int, k': int, lo: nat)
    requires AllFit(jobs, orig, k, lo) && k' <= 0
    ensures AllFit(jobs, orig, k', lo)
  {
  }

  lemma AssignSized(batches: seq<seq<Email>>, k: int, shuffle: Shuffle)
    requires Permutes(shuffle) && k != 0
    ensures var r := Assign(batches, k, shuffle, 0, 0);
      r.Ok? ==> AllFit(r.value, batches, k, 0) && DistinctIds(r.value)
  {
    AssignFits(batches, batches, k, shuffle, 0, 0);
    AssignIdsDistinct(batches, k, shuffle, 0, 0);
  }

  /** Every job holds addresses of its own batch only, no more than `batch_size` of them when
      that is positive, and the ids are distinct. */
  lemma JobsSized(batches: seq<seq<Email>>, batchSize: int, shuffle: Shuffle)
    requires Permutes(shuffle)
    ensures var r := JobsOf(batches, batchSize, shuffle);
      r.Ok? ==> AllFit(r.value, batches, batchSize, 0) && DistinctIds(r.value)
  {
    if batchSize != 0 || batches != [] {
      var k := if batchSize == 0 then MaxLen(batches) + 1 else batchSize;
      AssignSized(batches, k, shuffle);
      var r := Assign(batches, k, shuffle, 0, 0);
      if r.Ok? && batchSize == 0 {
        AllFitAnySize(r.value, batches, k, 0, 0);
      }
    }
  }

  /** The dictionary keys `f"{i}"` and `f"{i}_{j}"` of the jobs are distinct: no entry is
      overwritten. */
  lemma JobKeysDistinct(batches: seq<seq<Email>>, batchSize: int, shuffle: Shuffle)
    requires Permutes(shuffle)
    ensures var r := JobsOf(batches, batchSize, shuffle);
      r.Ok? ==> forall a, b :: 0 <= a < b < |r.value| ==> IdString(r.value[a].id) != IdString(r.value[b].id)
  {
    JobsSized(batches, batchSize, shuffle);
    var r := JobsOf(batches, batchSize, shuffle);
    if r.Ok? {
      forall a, b | 0 <= a < b < |r.value| ensures IdString(r.value[a].id) != IdString(r.value[b].id) {
        if IdString(r.value[a].id) == IdString(r.value[b].id) {
          IdStringInjective(r.value[a].id, r.value[b].id);
        }
      }
    }
  }

  /** Unless `batch_size` is negative, the jobs hold exactly the addresses of the batches. */
  lemma JobsConserve(batches: seq<seq<Email>>, batchSize: int, shuffle: Shuffle)
    requires Permutes(shuffle) && batchSize >= 0
    ensures var r := JobsOf(batches, batchSize, shuffle);
      r.Ok? ==> multiset(JobItems(r.value)) == multiset(Flatten(batches))
  {
    if batchSize > 0 || batches != [] {
      var k := if batchSize == 0 then MaxLen(batches) + 1 else batchSize;
      AssignConserves(batches, batches, k, shuffle, 0, 0);
      assert batches[0..] == batches;
    }
  }

  /** A negative `batch_size` makes every `range` empty: no jobs at all. */
  lemma {:induction false} AssignNegative(bs: seq<seq<Email>>, k: int, shuffle: Shuffle, i: nat, n: nat)
    requires k < 0 && i <= |bs|
    ensures Assign(bs, k, shuffle, i, n) == Ok([])
    decreases |bs| - i
  {
    if i < |bs| {
      AssignNegative(bs, k, shuffle, i + 1, n);
      assert Step(bs, k, shuffle, i, n) == Pass(false, [], bs, n);
      var none: seq<Job> := [];
      assert none + none == none;
    }
  }

  /** With every batch shorter than `k`, each batch is one job, shuffled with the draw of its own
      index. */
  lemma {:induction false} AssignWhole(bs: seq<seq<Email>>, k: int, shuffle: Shuffle, i: nat)
    requires k > 0 && i <= |bs| && forall j :: 0 <= j < |bs| ==> 0 < |bs[j]| < k
    ensures var r := Assign(bs, k, shuffle, i, i);
      && r.Ok? && |r.value| == |bs| - i
      && forall a :: 0 <= a < |r.value| ==> r.value[a] == Job(Single(i + a), shuffle(i + a, bs[i + a]))
    decreases |bs| - i
  {
    if i < |bs| {
      AssignWhole(bs, k, shuffle, i + 1);
      assert SplitList(bs[i], k) == [bs[i]];
    }
  }

  /** `batch_size == 0`: `max([])` fails on no batches; otherwise every non-empty batch becomes
      exactly one job `f"{i}"`, a shuffle of the whole batch. */
  lemma JobsUnlimited(batches: seq<seq<Email>>, shuffle: Shuffle)
    ensures batches == [] ==> JobsOf(batches, 0, shuffle) == Err(MaxOfEmpty)
    ensures (batches != [] && forall j :: 0 <= j < |batches| ==> batches[j] != []) ==>
      var r := JobsOf(batches, 0, shuffle);
      && r.Ok? && |r.value| == |batches|
      && forall i :: 0 <= i < |batches| ==> r.value[i] == Job(Single(i), shuffle(i, batches[i]))
  {
    if batches != [] && forall j :: 0 <= j < |batches| ==> batches[j] != [] {
      AssignWhole(batches, MaxLen(batches) + 1, shuffle, 0);
    }
  }

  /** A negative `batch_size` yields no jobs. */
  lemma JobsNegative(batches: seq<seq<Email>>, batchSize: int, shuffle: Shuffle)
    requires batchSize < 0
    ensures JobsOf(batches, batchSize, shuffle) == Ok([])
  {
    AssignNegative(batches, batchSize, shuffle, 0, 0);
  }

  /** Lists of the same length split into the same number of chunks. */
  lemma SplitLen(a: seq<Email>, b: seq<Email>, k: int)
    requires k != 0 && |a| == |b|
    ensures |SplitList(a, k)| == |SplitList(b, k)|
  {
    if k > 0 {
      SplitListSizes(a, k);
      SplitListSizes(b, k);
    }
  }

  /** A pass that does not fail keeps the length of every batch: it only shuffles them. */
  lemma StepKeepsLengths(bs: seq<seq<Email>>, k: int, shuffle: Shuffle, i: nat, n: nat)
    requires Permutes(shuffle) && k != 0 && i < |bs|
    ensures var pass := Step(bs, k, shuffle, i, n);
      !pass.failed ==> forall j :: 0 <= j < |bs| ==> |pass.batches[j]| == |bs[j]|
  {
    var pass := Step(bs, k, shuffle, i, n);
    if !pass.failed {
      StepReorders(bs, k, shuffle, i, n);
      forall j | 0 <= j < |bs|
        ensures |pass.batches[j]| == |bs[j]|
      {
        BagsAt(pass.batches, j);
        BagsAt(bs, j);
        assert |multiset(pass.batches[j])| == |multiset(bs[j])|;
      }
    }
  }

  /** Some batch from `i` on splits into more chunks than there are batches. */
  ghost predicate Overflows(bs: seq<seq<Email>>, k: int, i: nat)
    requires k != 0
  {
    exists j :: i <= j < |bs| && |SplitList(bs[j], k)| > |bs|
  }

  /** Batches whose lengths agree from `i` on overflow alike, and so do `i` and `i + 1` when
      batch `i` does not overflow. */
  lemma OverflowsAfter(bs: seq<seq<Email>>, cs: seq<seq<Email>>, k: int, i: nat)
    requires k != 0 && i < |bs| == |cs| && |SplitList(bs[i], k)| <= |bs|
    requires forall j :: i < j < |bs| ==> |cs[j]| == |bs[j]|
    ensures Overflows(bs, k, i) <==> Overflows(cs, k, i + 1)
  {
    if Overflows(bs, k, i) {
      var j :| i <= j < |bs| && |SplitList(bs[j], k)| > |bs|;
      SplitLen(cs[j], bs[j], k);
    }
    if Overflows(cs, k, i + 1) {
      var j :| i + 1 <= j < |cs| && |SplitList(cs[j], k)| > |cs|;
      SplitLen(cs[j], bs[j], k);
    }
  }

  /** From batch `i` on, the loop of `_get_jobs` raises `IndexError` exactly when some batch from
      `i` on splits into more chunks than there are batches. */
  lemma {:induction false} AssignFails(bs: seq<seq<Email>>, k: int, shuffle: Shuffle, i: nat, n: nat)
    requires Permutes(shuffle) && k != 0 && i <= |bs|
    ensures Assign(bs, k, shuffle, i, n).Err? <==> Overflows(bs, k, i)
    ensures Assign(bs, k, shuffle, i, n).Err? ==> Assign(bs, k, shuffle, i, n).error == IndexOutOfRange(|bs|)
    decreases |bs| - i
  {
    if i < |bs| {
      var pass := Step(bs, k, shuffle, i, n);
      if pass.failed {
        assert |SplitList(bs[i], k)| > |bs|;
        assert Assign(bs, k, shuffle, i, n) == Err(IndexOutOfRange(|bs|));
      } else {
        var rest := Assign(pass.batches, k, shuffle, i + 1, pass.draws);
        assert Assign(bs, k, shuffle, i, n) == Then(pass.jobs, rest);
        AssignFails(pass.batches, k, shuffle, i + 1, pass.draws);
        StepKeepsLengths(bs, k, shuffle, i, n);
        OverflowsAfter(bs, pass.batches, k, i);
      }
    }
  }

  /** `_get_jobs` as written fails exactly on no batches with `batch_size == 0` (`max([])`), or
      with a positive `batch_size` when some batch splits into more chunks than there are batches
      (the `IndexError` of `batches[j]`); every other input yields jobs. */
  lemma JobsFail(batches: seq<seq<Email>>, batchSize: int, shuffle: Shuffle)
    requires Permutes(shuffle)
    ensures JobsOf(batches, batchSize, shuffle).Err? <==>
      || (batchSize == 0 && batches == [])
      || (batchSize > 0 && exists j :: 0 <= j < |batches| && |SplitList(batches[j], batchSize)| > |batches|)
    ensures batchSize > 0 && JobsOf(batches, batchSize, shuffle).Err? ==>
      JobsOf(batches, batchSize, shuffle).error == IndexOutOfRange(|batches|)
  {
    if batchSize > 0 {
      AssignFails(batches, batchSize, shuffle, 0, 0);
    } else if batchSize < 0 {
      JobsNegative(batches, batchSize, shuffle);
    } else if batches != [] {
      var k := MaxLen(batches) + 1;
      AssignFails(batches, k, shuffle, 0, 0);
      forall j | 0 <= j < |batches|
        ensures |SplitList(batches[j], k)| <= 1
      {
        SplitListSizes(batches[j], k);
      }
    }
  }

  // ================================================================ from classify to the jobs

  /** `classify`'s lists hold only addresses of their own key, under distinct keys. */
  lemma ClassifiedKeyed(emails: seq<Email>)
    ensures Keyed(Key, Classified(emails).0, Classified(emails).1)
  {
    var (domains, lists) := Classified(emails);
    forall i, e | 0 <= i < |lists| && e in lists[i] ensures Key(e) == domains[i] {
      ClassifiedLists(emails, e);
    }
  }

  lemma SubCancel(small: multiset<Email>, big: multiset<Email>, x: Email)
    requires small + multiset{x} <= big + multiset{x}
    ensures small <= big
  {
    forall y ensures small[y] <= big[y] {
      assert (small + multiset{x})[y] <= (big + multiset{x})[y];
    }
  }

  /** Taking out the address at `p`. */
  lemma RemoveAt(key: Email -> Domain, b: seq<Email>, p: nat, d: Domain)
    requires p < |b|
    ensures multiset(b) == multiset(b[..p] + b[p + 1..]) + multiset{b[p]}
    ensures CountKey(key, b, d) == CountKey(key, b[..p] + b[p + 1..], d) + (if key(b[p]) == d then 1 else 0)
  {
    var x := b[p];
    assert b == b[..p] + [x] + b[p + 1..];
    CountKeyAppend(key, b[..p] + [x], b[p + 1..], d);
    CountKeyAppend(key, b[..p], [x], d);
    CountKeyAppend(key, b[..p], b[p + 1..], d);
  }

  /** Fewer addresses in all are no more of any one key. */
  lemma {:induction false} CountKeySub(key: Email -> Domain, a: seq<Email>, b: seq<Email>, d: Domain)
    requires multiset(a) <= multiset(b)
    ensures CountKey(key, a, d) <= CountKey(key, b, d)
    decreases |a|
  {
    if a != [] {
      var x := a[0];
      assert x in multiset(b);
      var p :| 0 <= p < |b| && b[p] == x;
      var others := b[..p] + b[p + 1..];
      RemoveAt(key, b, p, d);
      assert a == [x] + a[1..];
      SubCancel(multiset(a[1..]), multiset(others), x);
      CountKeySub(key, a[1..], others, d);
    }
  }

  /** The tolerance property as the scheduler test checks it, on the final jobs: every job holds
      at most `tolerance` addresses of each domain of `classify`'s dictionary. */
  lemma JobsCapped(emails: seq<Email>, tols: seq<int>, batchSize: int, shuffle: Shuffle)
    requires Permutes(shuffle) && Terminates(tols, Classified(emails).1)
    ensures var (domains, lists) := Classified(emails);
      var r := JobsOf(Batches(tols, lists), batchSize, shuffle);
      r.Ok? ==> forall a, i :: 0 <= a < |r.value| && 0 <= i < |domains| ==>
        CountKey(Key, r.value[a].items, domains[i]) <= Cap(tols[i])
  {
    var (domains, lists) := Classified(emails);
    var batches := Batches(tols, lists);
    ClassifiedKeyed(emails);
    BatchesCapped(Key, tols, domains, lists);
    JobsSized(batches, batchSize, shuffle);
    var r := JobsOf(batches, batchSize, shuffle);
    if r.Ok? {
      forall a, i | 0 <= a < |r.value| && 0 <= i < |domains|
        ensures CountKey(Key, r.value[a].items, domains[i]) <= Cap(tols[i])
      {
        var job := r.value[a];
        assert Fits(job, batches, batchSize);
        CountKeySub(Key, job.items, batches[job.id.batch], domains[i]);
      }
    }
  }

  // ================================================================ _count_jobs

  /** The figures `_count_jobs` reports: addresses assigned, jobs, addresses removed by the
      denylist, addresses removed as done, and the two removals together. */
  datatype Counts = Counts(ajn: nat, abn: nat, rcd: nat, rjd: nat, rjn: nat)

  lemma JobItemsSnoc(jobs: seq<Job>, job: Job)
    ensures |JobItems(jobs + [job])| == |JobItems(jobs)| + |job.items|
  {
    JobItemsAppend(jobs, [job]);
    assert JobItems([job]) == job.items + [];
  }

  /** `_count_jobs`: the lengths of the jobs summed one by one make the number of addresses the
      jobs hold. */
  method CountJobs(jobs: seq<Job>, removedCn: seq<Email>, removedDone: seq<Email>) returns (c: Counts)
    ensures c.ajn == |JobItems(jobs)| && c.abn == |jobs|
    ensures c.rcd == |removedCn| && c.rjd == |removedDone| && c.rjn == c.rcd + c.rjd
  {
    c := Counts(0, |jobs|, |removedCn|, |removedDone|, 0);
    for a := 0 to |jobs|
      invariant c == Counts(|JobItems(jobs[..a])|, |jobs|, |removedCn|, |removedDone|, 0)
    {
      JobItemsSnoc(jobs[..a], jobs[a]);
      assert jobs[..a + 1] == jobs[..a] + [jobs[a]];
      c := c.(ajn := c.ajn + |jobs[a].items|);
    }
    assert jobs[..|jobs|] == jobs;
    c := c.(rjn := c.rcd + c.rjd);
  }

  /** Removing every copy of `x` removes `multiset(s)[x]` elements. */
  lemma {:induction false} DropAllSize(s: seq<Email>, x: Email)
    ensures |multiset(s)[x := 0]| == |s| - multiset(s)[x]
    decreases |s|
  {
    if s != [] {
      var init := s[..|s| - 1];
      var y := s[|s| - 1];
      DropAllSize(init, x);
      assert s == init + [y];
      if y == x {
        assert multiset(s)[x := 0] == multiset(init)[x := 0];
      } else {
        assert multiset(s)[x := 0] == multiset(init)[x := 0] + multiset{y};
      }
    }
  }

  /** The counts add up end to end: every address read is either in a job, removed by one of the
      two passes, or an empty string, which `_get_batches` drops. */
  lemma CountsAddUp(emails: seq<Email>, done: seq<Email>, ignoreCn: bool, domainsCn: set<string>,
                    tols: seq<int>, batchSize: int, shuffle: Shuffle)
    requires Permutes(shuffle) && batchSize >= 0
    requires Terminates(tols, Classified(Screen(emails, done, ignoreCn, domainsCn).kept).1)
    ensures var s := Screen(emails, done, ignoreCn, domainsCn);
      var r := JobsOf(Batches(tols, Classified(s.kept).1), batchSize, shuffle);
      r.Ok? ==> |JobItems(r.value)| + |s.cn| + |s.done| + multiset(s.kept)[""] == |emails|
  {
    var s := Screen(emails, done, ignoreCn, domainsCn);
    var lists := Classified(s.kept).1;
    var batches := Batches(tols, lists);
    ScreenConserves(emails, done, ignoreCn, domainsCn);
    ClassifiedConserves(s.kept);
    BatchesConserve(tols, lists);
    JobsConserve(batches, batchSize, shuffle);
    DropAllSize(s.kept, "");
    var r := JobsOf(batches, batchSize, shuffle);
    if r.Ok? {
      assert |multiset(JobItems(r.value))| == |multiset(s.kept)["" := 0]|;
    }
  }

  // ================================================================ the scheduler test

  lemma DrainBoth(a: Email, b: Email)
    requires a != "" && b != ""
    ensures Drain([a, b], 2) == ([], [b, a])
  {
    var none: seq<Email> := [];
    DrainStep([a, b], 2);
    assert [a, b][..1] == [a] && [a, b][1] == b;
    DrainStep([a], 1);
    assert [a][..0] == none && [a][0] == a;
    DrainDone(none, 0);
    assert [b] + ([a] + none) == [b, a];
  }

  lemma DrainLast(a: Email, b: Email)
    requires b != ""
    ensures Drain([a, b], 1) == ([a], [b])
  {
    var none: seq<Email> := [];
    DrainStep([a, b], 1);
    assert [a, b][..1] == [a] && [a, b][1] == b;
    DrainDone([a], 0);
    assert [b] + none == [b];
  }

  lemma DrainOnly(a: Email, room: int)
    requires a != "" && room >= 1
    ensures Drain([a], room) == ([], [a])
  {
    var none: seq<Email> := [];
    DrainStep([a], room);
    assert [a][..0] == none && [a][0] == a;
    DrainDone(none, room - 1);
    assert [a] + none == [a];
  }

  /** The first round of the scheduler test. */
  lemma ScenarioFirstRound(u0: Email, u2: Email, u3: Email, u5: Email)
    requires u0 != "" && u2 != "" && u3 != "" && u5 != ""
    ensures RoundRest([2, 1], [[u0, u2], [u3, u5]]) == [[], [u3]]
    ensures RoundTaken([2, 1], [[u0, u2], [u3, u5]], 2) == [u2, u0, u5]
  {
    var none: seq<Email> := [];
    var tols := [2, 1];
    var lists := [[u0, u2], [u3, u5]];
    DrainBoth(u0, u2);
    DrainLast(u3, u5);
    assert RoundTaken(tols, lists, 1) == none + [u2, u0];
    assert RoundTaken(tols, lists, 2) == [u2, u0] + [u5];
  }

  /** The second round of the scheduler test. */
  lemma ScenarioSecondRound(u3: Email)
    requires u3 != ""
    ensures RoundRest([2, 1], [[], [u3]]) == [[], []]
    ensures RoundTaken([2, 1], [[], [u3]], 2) == [u3]
  {
    var none: seq<Email> := [];
    var tols := [2, 1];
    var lists := [none, [u3]];
    DrainDone(none, 2);
    DrainOnly(u3, 1);
    assert RoundTaken(tols, lists, 1) == none + none;
    assert RoundTaken(tols, lists, 2) == none + [u3];
  }

  /** The rounds of the scheduler test: two addresses of the first domain with tolerance 2 and
      two of the second with tolerance 1 give a batch of both of the first, popped last first,
      and the last of the second, then a batch of the other one of the second. */
  lemma ScenarioBatches(u0: Email, u2: Email, u3: Email, u5: Email)
    requires u0 != "" && u2 != "" && u3 != "" && u5 != ""
    ensures Batches([2, 1], [[u0, u2], [u3, u5]]) == [[u2, u0, u5], [u3]]
  {
    var none: seq<Email> := [];
    var tols := [2, 1];
    var lists := [[u0, u2], [u3, u5]];
    var second := [none, [u3]];
    ScenarioFirstRound(u0, u2, u3, u5);
    ScenarioSecondRound(u3);
    RoundStep(tols, lists);
    RoundStep(tols, second);
    TotalZero([none, none]);
    assert Batches(tols, [none, none]) == [];
  }

  /** A shuffle of one address is that address. */
  lemma ShuffleOne(shuffle: Shuffle, n: nat, x: Email)
    requires Permutes(shuffle)
    ensures shuffle(n, [x]) == [x]
  {
    var s := shuffle(n, [x]);
    assert multiset(s) == multiset([x]);
    assert |s| == |multiset(s)| == 1;
    assert s[0] in multiset(s);
  }

  /** The first batch of the scheduler test in chunks of 2, and the jobs of those chunks. */
  lemma ScenarioFirstChunks(u0: Email, u2: Email, u5: Email)
    ensures SplitList([u2, u0, u5], 2) == [[u2, u0], [u5]]
    ensures ChunkJobs(0, [[u2, u0], [u5]], 2) == [Job(Part(0, 0), [u2, u0]), Job(Part(0, 1), [u5])]
  {
    var b := [u2, u0, u5];
    assert b[..2] == [u2, u0] && b[2..] == [u5];
    var jobs := ChunkJobs(0, [[u2, u0], [u5]], 2);
    assert jobs[0] == Job(Part(0, 0), [u2, u0]) && jobs[1] == Job(Part(0, 1), [u5]);
  }

  /** The pass of the first batch of the scheduler test: two chunks, and the shuffles of
      `batches[0]` and `batches[1]`. */
  lemma ScenarioFirstPass(u0: Email, u2: Email, u3: Email, u5: Email, shuffle: Shuffle)
    requires Permutes(shuffle)
    ensures var pass := Step([[u2, u0, u5], [u3]], 2, shuffle, 0, 0);
      && !pass.failed && pass.draws == 2 && |pass.batches| == 2 && pass.batches[1] == [u3]
      && pass.jobs == [Job(Part(0, 0), [u2, u0]), Job(Part(0, 1), [u5])]
  {
    var bs := [[u2, u0, u5], [u3]];
    var items := [[u2, u0], [u5]];
    ScenarioFirstChunks(u0, u2, u5);
    assert Step(bs, 2, shuffle, 0, 0) == Pass(false, ChunkJobs(0, items, 2), ShuffleFirst(bs, 2, shuffle, 0), 2);
    ShuffleOne(shuffle, 1, u3);
    assert ShuffleFirst(bs, 2, shuffle, 0)[1] == shuffle(1, [u3]);
  }

  /** The pass of the second batch of the scheduler test: one job. */
  lemma ScenarioSecondPass(bs: seq<seq<Email>>, u3: Email, shuffle: Shuffle)
    requires Permutes(shuffle) && |bs| == 2 && bs[1] == [u3]
    ensures Step(bs, 2, shuffle, 1, 2) == Pass(false, [Job(Single(1), [u3])], bs, 3)
  {
    assert SplitList(bs[1], 2) == [[u3]];
    ShuffleOne(shuffle, 2, u3);
  }

  /** The jobs of the scheduler test with `batch_size` 2: the first batch of three in two
      chunks, `0_0` and `0_1`, left in slice order, and the second as the single job `1`. */
  lemma ScenarioJobs(u0: Email, u2: Email, u3: Email, u5: Email, shuffle: Shuffle)
    requires Permutes(shuffle)
    ensures JobsOf([[u2, u0, u5], [u3]], 2, shuffle)
         == Ok([Job(Part(0, 0), [u2, u0]), Job(Part(0, 1), [u5]), Job(Single(1), [u3])])
  {
    var bs := [[u2, u0, u5], [u3]];
    ScenarioFirstPass(u0, u2, u3, u5, shuffle);
    var pass := Step(bs, 2, shuffle, 0, 0);
    ScenarioSecondPass(pass.batches, u3, shuffle);
    var last := Job(Single(1), [u3]);
    var later := Assign(pass.batches, 2, shuffle, 1, 2);
    assert later == Then([last], Assign(pass.batches, 2, shuffle, 2, 3));
    var none: seq<Job> := [];
    assert [last] + none == [last];
    assert later == Ok([last]);
    assert JobsOf(bs, 2, shuffle) == Then(pass.jobs, later);
    assert Then(pass.jobs, later) == Ok(pass.jobs + [last]);
    assert pass.jobs + [last] == [Job(Part(0, 0), [u2, u0]), Job(Part(0, 1), [u5]), last];
  }

  /** The tolerance table of the scheduler test and its two domains in classification order. */
  const TestTolerance: Table := map["default" := 1, "example1.com" := 2]
  const TestDomains: seq<Domain> := ["example1.com", "example2.com"]

  /** Two lower-case domains, the first a key of the table and the second not, get the first's
      own tolerance and the default. */
  lemma TwoTolerances(table: Table, d1: Domain, d2: Domain)
    requires IsLower(d1) && IsLower(d2) && "default" in table && d1 in table && d2 !in table
    ensures Tolerances(table, [d1, d2]) == Ok([table[d1], table["default"]])
  {
    ToleranceOfLowerKey(table, d1);
    ToleranceOfLowerKey(table, d2);
    var r := Tolerances(table, [d1, d2]);
    assert r.Ok? && |r.value| == 2;
    assert r.value[0] == table[d1] && r.value[1] == table["default"];
    assert r.value == [table[d1], table["default"]];
  }

  lemma ScenarioDomainsLower()
    ensures IsLower("example1.com") && IsLower("example2.com")
  {
  }

  lemma ScenarioDomainsDiffer()
    ensures "example2.com" != "example1.com" && "example2.com" != "default"
  {
    assert "example2.com"[7] != "example1.com"[7];
    assert |"example2.com"| != |"default"|;
  }

  /** The tolerance table of the scheduler test, looked up for its two domains. */
  lemma ScenarioTolerances()
    ensures Tolerances(TestTolerance, TestDomains) == Ok([2, 1])
  {
    ScenarioDomainsLower();
    ScenarioDomainsDiffer();
    TwoTolerances(TestTolerance, "example1.com", "example2.com");
  }

  /** The scheduler test end to end, from the classified lists to the jobs: the test's tolerance
      table gives the two domains the tolerances 2 and 1. */
  lemma Scenario(shuffle: Shuffle)
    requires Permutes(shuffle)
    ensures Tolerances(TestTolerance, TestDomains) == Ok([2, 1])
    ensures var u0, u2, u3, u5 := "user0@example1.com", "user2@example1.com",
                                  "user3@example2.com", "user5@example2.com";
      JobsOf(Batches([2, 1], [[u0, u2], [u3, u5]]), 2, shuffle)
        == Ok([Job(Part(0, 0), [u2, u0]), Job(Part(0, 1), [u5]), Job(Single(1), [u3])])
  {
    ScenarioTolerances();
    var u0, u2, u3, u5 := "user0@example1.com", "user2@example1.com",
                          "user3@example2.com", "user5@example2.com";
    assert |u0| > 0 && |u2| > 0 && |u3| > 0 && |u5| > 0;
    ScenarioBatches(u0, u2, u3, u5);
    ScenarioJobs(u0, u2, u3, u5, shuffle);
  }

  // ================================================================ the chunk shuffle

  /** As written, a batch of three addresses in chunks of two shuffles `batches[1]`, which does
      not exist: `IndexError`. */
  lemma ChunkShuffleFails(a: Email, b: Email, c: Email, shuffle: Shuffle)
    ensures JobsOf([[a, b, c]], 2, shuffle) == Err(IndexOutOfRange(1))
  {
    var lst := [a, b, c];
    assert lst[..2] == [a, b] && lst[2..] == [c];
    assert SplitList(lst, 2) == [[a, b], [c]];
  }

  /** The chunk jobs of batch `i` with each chunk shuffled itself, chunk `a` with draw `n + a`. */
  function ShuffledChunks(i: nat, items: seq<seq<Email>>, m: nat, shuffle: Shuffle, n: nat): (r: seq<Job>)
    requires m <= |items|
    ensures |r| == m
    ensures forall a :: 0 <= a < m ==> r[a] == Job(Part(i, a), shuffle(n + a, items[a]))
  {
    if m == 0 then [] else ShuffledChunks(i, items, m - 1, shuffle, n) + [Job(Part(i, m - 1), shuffle(n + m - 1, items[m - 1]))]
  }

  /** The pass for batch `i` as evidently intended, with `n` shuffles drawn before it: the jobs
      it adds and the number of shuffles drawn after it. */
  function IntendedStep(bs: seq<seq<Email>>, k: int, shuffle: Shuffle, i: nat, n: nat): (seq<Job>, nat)
    requires k != 0 && i < |bs|
  {
    var items := SplitList(bs[i], k);
    if |items| == 1 then ([Job(Single(i), shuffle(n, items[0]))], n + 1)
    else (ShuffledChunks(i, items, |items|, shuffle, n), n + |items|)
  }

  /** The loop of `_get_jobs` as evidently intended, shuffling `items[j]`: the batches are never
      touched and nothing can fail. */
  function IntendedAssign(bs: seq<seq<Email>>, k: int, shuffle: Shuffle, i: nat, n: nat): seq<Job>
    requires k != 0 && i <= |bs|
    decreases |bs| - i
  {
    if i == |bs| then []
    else
      var (jobs, draws) := IntendedStep(bs, k, shuffle, i, n);
      jobs + IntendedAssign(bs, k, shuffle, i + 1, draws)
  }

  /** `_get_jobs` as evidently intended: it fails only on `max([])`. */
  function IntendedJobsOf(batches: seq<seq<Email>>, batchSize: int, shuffle: Shuffle): Result<seq<Job>, JobError> {
    if batchSize == 0 && batches == [] then Err(MaxOfEmpty)
    else
      var k := if batchSize == 0 then MaxLen(batches) + 1 else batchSize;
      Ok(IntendedAssign(batches, k, shuffle, 0, 0))
  }

  /** The job is a permutation of the chunk its id names: the whole batch for `f"{i}"`, which is
      then in one chunk, and chunk `j` of batch `i` for `f"{i}_{j}"`. */
  ghost predicate Shuffles(job: Job, batches: seq<seq<Email>>, k: int)
    requires k != 0
  {
    && job.id.batch < |batches|
    && var chunks := SplitList(batches[job.id.batch], k);
      match job.id
      case Single(_) => |chunks| == 1 && multiset(job.items) == multiset(chunks[0])
      case Part(_, j) => |chunks| != 1 && j < |chunks| && multiset(job.items) == multiset(chunks[j])
  }

  /** Every job comes from batch `lo` or later and is a permutation of its chunk. */
  ghost predicate AllShuffle(jobs: seq<Job>, batches: seq<seq<Email>>, k: int, lo: nat)
    requires k != 0
  {
    forall a :: 0 <= a < |jobs| ==> lo <= jobs[a].id.batch && Shuffles(jobs[a], batches, k)
  }

  lemma IntendedStepShuffles(bs: seq<seq<Email>>, k: int, shuffle: Shuffle, i: nat, n: nat)
    requires Permutes(shuffle) && k != 0 && i < |bs|
    ensures AllShuffle(IntendedStep(bs, k, shuffle, i, n).0, bs, k, i)
  {
  }

  lemma AllShuffleAppend(front: seq<Job>, later: seq<Job>, bs: seq<seq<Email>>, k: int, lo: nat)
    requires k != 0 && AllShuffle(front, bs, k, lo) && AllShuffle(later, bs, k, lo + 1)
    ensures AllShuffle(front + later, bs, k, lo)
  {
    var all := front + later;
    forall a | 0 <= a < |all| ensures lo <= all[a].id.batch && Shuffles(all[a], bs, k) {
      if a >= |front| {
        assert all[a] == later[a - |front|];
      }
    }
  }

  lemma {:induction false} IntendedAssignShuffles(bs: seq<seq<Email>>, k: int, shuffle: Shuffle, i: nat, n: nat)
    requires Permutes(shuffle) && k != 0 && i <= |bs|
    ensures AllShuffle(IntendedAssign(bs, k, shuffle, i, n), bs, k, i)
    decreases |bs| - i
  {
    if i < |bs| {
      var (jobs, draws) := IntendedStep(bs, k, shuffle, i, n);
      IntendedStepShuffles(bs, k, shuffle, i, n);
      IntendedAssignShuffles(bs, k, shuffle, i + 1, draws);
      AllShuffleAppend(jobs, IntendedAssign(bs, k, shuffle, i + 1, draws), bs, k, i);
    }
  }

  lemma {:induction false} ShuffledChunksItems(i: nat, items: seq<seq<Email>>, m: nat, shuffle: Shuffle, n: nat)
    requires Permutes(shuffle) && m <= |items|
    ensures multiset(JobItems(ShuffledChunks(i, items, m, shuffle, n))) == multiset(Gather(items, m))
    decreases m
  {
    if m > 0 {
      var job := Job(Part(i, m - 1), shuffle(n + m - 1, items[m - 1]));
      ShuffledChunksItems(i, items, m - 1, shuffle, n);
      JobItemsAppend(ShuffledChunks(i, items, m - 1, shuffle, n), [job]);
      assert JobItems([job]) == job.items + [];
    }
  }

  lemma IntendedStepConserves(bs: seq<seq<Email>>, k: int, shuffle: Shuffle, i: nat, n: nat)
    requires Permutes(shuffle) && k >= 1 && i < |bs|
    ensures multiset(JobItems(IntendedStep(bs, k, shuffle, i, n).0)) == multiset(bs[i])
  {
    var items := SplitList(bs[i], k);
    var jobs := IntendedStep(bs, k, shuffle, i, n).0;
    SplitListConcat(bs[i], k);
    if |items| == 1 {
      assert JobItems(jobs) == jobs[0].items + [];
      assert Flatten(items) == items[0] + [];
    } else {
      ShuffledChunksItems(i, items, |items|, shuffle, n);
      GatherAll(items);
    }
  }

  lemma {:induction false} IntendedAssignConserves(bs: seq<seq<Email>>, k: int, shuffle: Shuffle, i: nat, n: nat)
    requires Permutes(shuffle) && k >= 1 && i <= |bs|
    ensures multiset(JobItems(IntendedAssign(bs, k, shuffle, i, n))) == multiset(Flatten(bs[i..]))
    decreases |bs| - i
  {
    if i == |bs| {
      assert bs[i..] == [];
    } else {
      var (jobs, draws) := IntendedStep(bs, k, shuffle, i, n);
      IntendedStepConserves(bs, k, shuffle, i, n);
      IntendedAssignConserves(bs, k, shuffle, i + 1, draws);
      JobItemsAppend(jobs, IntendedAssign(bs, k, shuffle, i + 1, draws));
      FlattenCons(bs, i);
    }
  }

  /** What the corrected `_get_jobs` promises: it fails exactly on `max([])`; every job is a
      permutation of the chunk its id names; with a positive `batch_size` no job holds more than
      that; and, `batch_size` not negative, the jobs hold exactly the addresses of the batches. */
  lemma IntendedJobsSound(batches: seq<seq<Email>>, batchSize: int, shuffle: Shuffle)
    requires Permutes(shuffle)
    ensures IntendedJobsOf(batches, batchSize, shuffle).Err? <==> batchSize == 0 && batches == []
    ensures var r := IntendedJobsOf(batches, batchSize, shuffle);
      r.Ok? ==>
        var k := if batchSize == 0 then MaxLen(batches) + 1 else batchSize;
        && AllShuffle(r.value, batches, k, 0)
        && (batchSize > 0 ==> forall a :: 0 <= a < |r.value| ==> |r.value[a].items| <= batchSize)
        && (batchSize >= 0 ==> multiset(JobItems(r.value)) == multiset(Flatten(batches)))
  {
    var r := IntendedJobsOf(batches, batchSize, shuffle);
    if r.Ok? {
      var k := if batchSize == 0 then MaxLen(batches) + 1 else batchSize;
      IntendedAssignShuffles(batches, k, shuffle, 0, 0);
      if batchSize > 0 {
        forall a | 0 <= a < |r.value| ensures |r.value[a].items| <= batchSize {
          var job := r.value[a];
          assert 0 <= job.id.batch && Shuffles(job, batches, k);
          var chunks := SplitList(batches[job.id.batch], k);
          var c := if job.id.Single? then 0 else job.id.chunk;
          SplitListShort(batches[job.id.batch], k, c);
          assert |job.items| == |multiset(job.items)| == |multiset(chunks[c])| == |chunks[c]|;
        }
      }
      if batchSize >= 0 {
        IntendedAssignConserves(batches, k, shuffle, 0, 0);
        assert batches[0..] == batches;
      }
    }
  }

  /** On the failing input the corrected version gives the two chunks, each shuffled. */
  lemma ChunkShuffleIntended(a: Email, b: Email, c: Email, shuffle: Shuffle)
    ensures IntendedJobsOf([[a, b, c]], 2, shuffle)
         == Ok([Job(Part(0, 0), shuffle(0, [a, b])), Job(Part(0, 1), shuffle(1, [c]))])
  {
    var lst := [a, b, c];
    assert lst[..2] == [a, b] && lst[2..] == [c];
    assert SplitList(lst, 2) == [[a, b], [c]];
    var none: seq<Job> := [];
    var chunks := ShuffledChunks(0, [[a, b], [c]], 2, shuffle, 0);
    assert chunks == [Job(Part(0, 0), shuffle(0, [a, b])), Job(Part(0, 1), shuffle(1, [c]))];
    assert IntendedStep([lst], 2, shuffle, 0, 0) == (chunks, 2);
    assert IntendedAssign([lst], 2, shuffle, 1, 2) == none;
    assert chunks + none == chunks;
  }

  /** A job of the corrected version holds addresses of the batch its id names. */
  lemma ShufflesIn(job: Job, batches: seq<seq<Email>>, k: int)
    requires k != 0 && Shuffles(job, batches, k)
    ensures job.id.batch < |batches| && multiset(job.items) <= multiset(batches[job.id.batch])
  {
    var c := if job.id.Single? then 0 else job.id.chunk;
    SplitListIn(batches[job.id.batch], k, c);
  }

  /** The corrected version keeps the tolerance property: every job holds at most `tolerance`
      addresses of each domain. */
  lemma IntendedCapped(emails: seq<Email>, tols: seq<int>, batchSize: int, shuffle: Shuffle)
    requires Permutes(shuffle) && Terminates(tols, Classified(emails).1)
    ensures var (domains, lists) := Classified(emails);
      var r := IntendedJobsOf(Batches(tols, lists), batchSize, shuffle);
      r.Ok? ==> forall a, i :: 0 <= a < |r.value| && 0 <= i < |domains| ==>
        CountKey(Key, r.value[a].items, domains[i]) <= Cap(tols[i])
  {
    var (domains, lists) := Classified(emails);
    var batches := Batches(tols, lists);
    var r := IntendedJobsOf(batches, batchSize, shuffle);
    IntendedJobsSound(batches, batchSize, shuffle);
    if r.Ok? {
      var k := if batchSize == 0 then MaxLen(batches) + 1 else batchSize;
      ClassifiedKeyed(emails);
      BatchesCapped(Key, tols, domains, lists);
      forall a, i | 0 <= a < |r.value| && 0 <= i < |domains|
        ensures CountKey(Key, r.value[a].items, domains[i]) <= Cap(tols[i])
      {
        var job := r.value[a];
        ShufflesIn(job, batches, k);
        CountKeySub(Key, job.items, batches[job.id.batch], domains[i]);
      }
    }
  }

  /** The corrected version keeps the counts of the scheduler: every address read is in a job,
      removed, or an empty string. */
  lemma IntendedCountsAddUp(emails: seq<Email>, done: seq<Email>, ignoreCn: bool, domainsCn: set<string>,
                            tols: seq<int>, batchSize: int, shuffle: Shuffle)
    requires Permutes(shuffle) && batchSize >= 0
    requires Terminates(tols, Classified(Screen(emails, done, ignoreCn, domainsCn).kept).1)
    ensures var s := Screen(emails, done, ignoreCn, domainsCn);
      var r := IntendedJobsOf(Batches(tols, Classified(s.kept).1), batchSize, shuffle);
      r.Ok? ==> |JobItems(r.value)| + |s.cn| + |s.done| + multiset(s.kept)[""] == |emails|
  {
    var s := Screen(emails, done, ignoreCn, domainsCn);
    var lists := Classified(s.kept).1;
    var batches := Batches(tols, lists);
    ScreenConserves(emails, done, ignoreCn, domainsCn);
    ClassifiedConserves(s.kept);
    BatchesConserve(tols, lists);
    IntendedJobsSound(batches, batchSize, shuffle);
    DropAllSize(s.kept, "");
    var r := IntendedJobsOf(batches, batchSize, shuffle);
    if r.Ok? {
      assert |multiset(JobItems(r.value))| == |multiset(s.kept)["" := 0]|;
    }
  }
}
