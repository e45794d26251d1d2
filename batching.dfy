/**
 * The batching step of the job scheduler (scheduler/job.py): the per-domain tolerance lookup
 * `_get_tolerance` and `_get_batches`, which drains the classified lists round by round, each
 * round popping up to a domain's tolerance of addresses from the end of every list.
 *
 * The specification works on the tolerances already looked up, one per domain in dictionary
 * order; `GetBatches` looks them up as it goes, as the source does, and is proved equal to it.
 */
module Batching {
  import opened Results
  import opened Text
  import opened Classifier

  /** The `tolerance` setting: domain to the number of addresses of that domain a batch may hold,
      with the fallback under `"default"`. */
  type Table = map<string, int>

  /** The default `tolerance` setting. */
  const DefaultTolerance: Table := map["default" := 1, "gmail.com" := 3]

  /** The `KeyError` a lookup raises, with the key it could not find. */
  datatype LookupError = MissingKey(key: string)

  // ================================================================ _get_tolerance

  /** `_get_tolerance`: the default, unless the lower-cased domain is a key, in which case the
      entry of the domain as given. A missing `"default"` fails first; a domain whose lower-cased
      form is a key but which is not one itself fails next. */
  function GetTolerance(table: Table, domain: Domain): (r: Result<int, LookupError>)
    ensures "default" !in table ==> r == Err(MissingKey("default"))
    ensures "default" in table ==> (r.Err? <==> Lower(domain) in table && domain !in table)
    ensures "default" in table && r.Err? ==> r.error == MissingKey(domain)
  {
    if "default" !in table then Err(MissingKey("default"))
    else if Lower(domain) in table then
      if domain in table then Ok(table[domain]) else Err(MissingKey(domain))
    else Ok(table["default"])
  }

  /** For the lower-case keys `classify` produces the lookup is the plain one: the domain's own
      entry when there is one, else the default, and it fails only without a default. */
  lemma ToleranceOfLowerKey(table: Table, domain: Domain)
    requires IsLower(domain)
    ensures "default" in table ==>
      GetTolerance(table, domain) == Ok(if domain in table then table[domain] else table["default"])
    ensures "default" !in table ==> GetTolerance(table, domain).Err?
  {
    LowerIsLower(domain);
  }

  /** The lookup tests the lower-cased domain, so a domain whose lower-cased form is not a key gets
      the default, even when the domain itself is a key (an upper-case key such as `Gmail.com`). */
  lemma UpperCaseKeyIgnored(table: Table, domain: Domain)
    requires "default" in table && Lower(domain) !in table
    ensures GetTolerance(table, domain) == Ok(table["default"])
  {
  }

  /** As written, a domain in another case than the table's key passes the test on its lower-cased
      form and then fails to index with its own: `KeyError`. */
  lemma MixedCaseDomainFails()
    ensures GetTolerance(map["default" := 1, "gmail.com" := 3], "Gmail.com") == Err(MissingKey("Gmail.com"))
  {
    GmailLower();
    assert "Gmail.com"[0] != "gmail.com"[0];
  }

  lemma GmailLower()
    ensures Lower("Gmail.com") == "gmail.com"
  {
    var r := Lower("Gmail.com");
    assert r[0] == 'g';
    assert forall k :: 1 <= k < 9 ==> r[k] == "Gmail.com"[k];
  }

  /** `_get_tolerance` as evidently intended: the entry of the lower-cased domain. */
  function IntendedTolerance(table: Table, domain: Domain): Result<int, LookupError> {
    if "default" !in table then Err(MissingKey("default"))
    else if Lower(domain) in table then Ok(table[Lower(domain)])
    else Ok(table["default"])
  }

  /** The corrected lookup fails only without a default, ignores the case of the domain, and on
      the lower-case keys `classify` produces agrees with the lookup as written. */
  lemma IntendedToleranceSound(table: Table, domain: Domain)
    ensures IntendedTolerance(table, domain).Err? <==> "default" !in table
    ensures IntendedTolerance(table, domain) == IntendedTolerance(table, Lower(domain))
    ensures IsLower(domain) ==> IntendedTolerance(table, domain) == GetTolerance(table, domain)
  {
    LowerIsLower(domain);
    LowerIsLower(Lower(domain));
  }

  /** The lookups for every key in dictionary order: the first failure, or all the values. */
  function Tolerances(table: Table, domains: seq<Domain>): (r: Result<seq<int>, LookupError>)
    ensures r.Ok? <==> forall j :: 0 <= j < |domains| ==> GetTolerance(table, domains[j]).Ok?
    ensures r.Ok? ==> |r.value| == |domains|
    ensures r.Ok? ==> forall j :: 0 <= j < |domains| ==> r.value[j] == GetTolerance(table, domains[j]).value
  {
    if domains == [] then Ok([])
    else
      match GetTolerance(table, domains[0])
      case Err(e) => Err(e)
      case Ok(t) =>
        match Tolerances(table, domains[1..])
        case Err(e) => Err(e)
        case Ok(ts) => Ok([t] + ts)
  }

  /** The error of the lookups is the one of the first key that fails. */
  lemma {:induction false} TolerancesFirstError(table: Table, domains: seq<Domain>, i: nat)
    requires i < |domains| && GetTolerance(table, domains[i]).Err?
    requires forall j :: 0 <= j < i ==> GetTolerance(table, domains[j]).Ok?
    ensures Tolerances(table, domains) == Err(GetTolerance(table, domains[i]).error)
    decreases i
  {
    if i > 0 {
      TolerancesFirstError(table, domains[1..], i - 1);
    }
  }

  // ================================================================ one domain's turn

  /** The non-empty addresses of `vs` in the order `pop()` returns them, last first. */
  function Popped(vs: seq<Email>): (r: seq<Email>)
    ensures |r| <= |vs|
    ensures "" !in r
  {
    if vs == [] then []
    else
      var x := vs[|vs| - 1];
      (if x != "" then [x] else []) + Popped(vs[..|vs| - 1])
  }

  /** The popped addresses are the list's addresses other than the empty string. */
  lemma {:induction false} PoppedMultiset(vs: seq<Email>)
    ensures multiset(Popped(vs)) == multiset(vs)["" := 0]
    decreases |vs|
  {
    if vs != [] {
      var x := vs[|vs| - 1];
      var init := vs[..|vs| - 1];
      PoppedMultiset(init);
      assert vs == init + [x];
    }
  }

  /** The inner `while` of `_get_batches` for one list and tolerance `room`: pop from the end until
      the list is empty or `room` addresses were taken, dropping empty strings without counting
      them. Returns what is left, a prefix of the list, and the taken addresses in taking order,
      which are the non-empty addresses popped. At most `room` are taken, and fewer only when
      the list ran out; a tolerance of 0 or less takes nothing and leaves the list as it is. */
  function Drain(vs: seq<Email>, room: int): (r: (seq<Email>, seq<Email>))
    ensures |r.0| <= |vs| && r.0 == vs[..|r.0|]
    ensures room <= 0 ==> r == (vs, [])
    decreases |vs|
  {
    if vs == [] || room <= 0 then (vs, [])
    else
      var x := vs[|vs| - 1];
      var init := vs[..|vs| - 1];
      var (rest, taken) := Drain(init, if x != "" then room - 1 else room);
      assert vs[..|rest|] == init[..|rest|];
      (rest, (if x != "" then [x] else []) + taken)
  }

  /** The addresses a turn takes are the non-empty ones it popped, in popping order. */
  lemma {:induction false} DrainPopped(vs: seq<Email>, room: int)
    ensures Drain(vs, room).1 == Popped(vs[|Drain(vs, room).0|..])
    decreases |vs|
  {
    if vs != [] && room > 0 {
      var x := vs[|vs| - 1];
      var init := vs[..|vs| - 1];
      var room' := if x != "" then room - 1 else room;
      DrainPopped(init, room');
      var rest := Drain(init, room').0;
      var popped := vs[|rest|..];
      assert popped[|popped| - 1] == x && popped[..|popped| - 1] == init[|rest|..];
    } else if vs == [] {
    } else {
      assert vs[|vs|..] == [];
    }
  }

  /** One pop of a turn. */
  lemma DrainStep(vs: seq<Email>, room: int)
    requires vs != [] && room > 0
    ensures var x := vs[|vs| - 1];
      var next := Drain(vs[..|vs| - 1], if x != "" then room - 1 else room);
      Drain(vs, room) == (next.0, (if x != "" then [x] else []) + next.1)
  {
  }

  /** A turn on an empty list, or with no room left, takes nothing. */
  lemma DrainDone(vs: seq<Email>, room: int)
    requires vs == [] || room <= 0
    ensures Drain(vs, room) == (vs, [])
  {
  }

  /** A turn takes at most `room` addresses, and fewer only when the list ran out. */
  lemma {:induction false} DrainCount(vs: seq<Email>, room: int)
    requires room > 0
    ensures |Drain(vs, room).1| <= room
    ensures Drain(vs, room).0 != [] ==> |Drain(vs, room).1| == room
    decreases |vs|
  {
    if vs != [] {
      var x := vs[|vs| - 1];
      var init := vs[..|vs| - 1];
      var room' := if x != "" then room - 1 else room;
      var (rest, taken) := Drain(init, room');
      assert Drain(vs, room) == (rest, (if x != "" then [x] else []) + taken);
      if room' > 0 {
        DrainCount(init, room');
      }
    }
  }

  /** A turn with room on a non-empty list pops at least one address. */
  lemma DrainPops(vs: seq<Email>, room: int)
    requires room > 0 && vs != []
    ensures |Drain(vs, room).0| < |vs|
  {
    var init := vs[..|vs| - 1];
    var x := vs[|vs| - 1];
    assert Drain(vs, room).0 == Drain(init, if x != "" then room - 1 else room).0;
  }

  /** Without empty strings a turn takes exactly `min(room, |vs|)` addresses. */
  lemma {:induction false} DrainExact(vs: seq<Email>, room: int)
    requires "" !in vs && room >= 0
    ensures |Drain(vs, room).1| == if room < |vs| then room else |vs|
    ensures |Drain(vs, room).0| == |vs| - |Drain(vs, room).1|
    decreases |vs|
  {
    if vs != [] && room > 0 {
      var init := vs[..|vs| - 1];
      var x := vs[|vs| - 1];
      assert x != "" && "" !in init;
      var (rest, taken) := Drain(init, room - 1);
      assert Drain(vs, room) == (rest, [x] + taken);
      DrainExact(init, room - 1);
    }
  }

  // ================================================================ one round

  /** Every list that is not yet empty has a tolerance of at least 1; otherwise the outer
      `while` of `_get_batches` never ends. */
  predicate Terminates(tols: seq<int>, lists: seq<seq<Email>>) {
    |tols| == |lists| && forall i :: 0 <= i < |lists| && lists[i] != [] ==> tols[i] >= 1
  }

  /** The lists after one round of the `for` loop. */
  function RoundRest(tols: seq<int>, lists: seq<seq<Email>>): (r: seq<seq<Email>>)
    requires |tols| == |lists|
    ensures |r| == |lists|
    ensures forall i :: 0 <= i < |lists| ==> r[i] == Drain(lists[i], tols[i]).0
  {
    seq(|lists|, i requires 0 <= i < |lists| => Drain(lists[i], tols[i]).0)
  }

  /** What the first `m` domains contribute to the round's batch, in dictionary order. */
  function RoundTaken(tols: seq<int>, lists: seq<seq<Email>>, m: nat): seq<Email>
    requires |tols| == |lists| && m <= |lists|
  {
    if m == 0 then [] else RoundTaken(tols, lists, m - 1) + Drain(lists[m - 1], tols[m - 1]).1
  }

  /** The number of addresses still to place. */
  function Total(lists: seq<seq<Email>>): nat {
    if lists == [] then 0 else |lists[0]| + Total(lists[1..])
  }

  lemma {:induction false} TotalZero(lists: seq<seq<Email>>)
    ensures Total(lists) == 0 <==> forall i :: 0 <= i < |lists| ==> lists[i] == []
    decreases |lists|
  {
    if lists != [] {
      TotalZero(lists[1..]);
      assert forall i :: 1 <= i < |lists| ==> lists[i] == lists[1..][i - 1];
    }
  }

  /** Lists that are each no longer are no longer in all, and strictly shorter in all when one
      of them is strictly shorter. */
  lemma {:induction false} TotalShrinks(a: seq<seq<Email>>, b: seq<seq<Email>>)
    requires |a| == |b| && forall i :: 0 <= i < |a| ==> |a[i]| <= |b[i]|
    ensures Total(a) <= Total(b)
    ensures (exists i :: 0 <= i < |a| && |a[i]| < |b[i]|) ==> Total(a) < Total(b)
    decreases |a|
  {
    if a != [] {
      TotalShrinks(a[1..], b[1..]);
      if exists i :: 0 <= i < |a| && |a[i]| < |b[i]| {
        var i :| 0 <= i < |a| && |a[i]| < |b[i]|;
        if i > 0 {
          assert |a[1..][i - 1]| < |b[1..][i - 1]|;
        }
      }
    }
  }

  /** A round that starts with some address left removes at least one, and a list the round
      leaves non-empty was non-empty before, so every tolerance it needs is still at least 1. */
  lemma RoundProgress(tols: seq<int>, lists: seq<seq<Email>>)
    requires Terminates(tols, lists) && Total(lists) > 0
    ensures Total(RoundRest(tols, lists)) < Total(lists)
    ensures Terminates(tols, RoundRest(tols, lists))
  {
    var rest := RoundRest(tols, lists);
    TotalZero(lists);
    var i :| 0 <= i < |lists| && lists[i] != [];
    DrainPops(lists[i], tols[i]);
    TotalShrinks(rest, lists);
  }

  // ================================================================ _get_batches

  /** `_get_batches` on lists whose tolerances are `tols`: one batch per round that took
      something, in round order, until every list is empty. No batch is empty. */
  function Batches(tols: seq<int>, lists: seq<seq<Email>>): (r: seq<seq<Email>>)
    requires Terminates(tols, lists)
    ensures forall k :: 0 <= k < |r| ==> r[k] != []
    decreases Total(lists)
  {
    if Total(lists) == 0 then []
    else
      RoundProgress(tols, lists);
      var batch := RoundTaken(tols, lists, |lists|);
      (if batch == [] then [] else [batch]) + Batches(tols, RoundRest(tols, lists))
  }

  /** With every list empty a round takes nothing. */
  lemma {:induction false} RoundTakenNothing(tols: seq<int>, lists: seq<seq<Email>>, m: nat)
    requires |tols| == |lists| && m <= |lists|
    requires forall i :: 0 <= i < |lists| ==> lists[i] == []
    ensures RoundTaken(tols, lists, m) == []
    decreases m
  {
    if m > 0 {
      RoundTakenNothing(tols, lists, m - 1);
    }
  }

  /** A non-empty list with a tolerance of 0 or less is left as it is by every round, so the outer
      `while` never ends; `Terminates` rules this out. */
  lemma StuckList(tols: seq<int>, lists: seq<seq<Email>>, i: nat)
    requires |tols| == |lists| && i < |lists| && tols[i] <= 0
    ensures RoundRest(tols, lists)[i] == lists[i]
    ensures Total(RoundRest(tols, lists)) >= |lists[i]|
  {
    DrainDone(lists[i], tols[i]);
    TotalAtLeast(RoundRest(tols, lists), i);
  }

  /** No list is longer than all of them together. */
  lemma {:induction false} TotalAtLeast(lists: seq<seq<Email>>, i: nat)
    requires i < |lists|
    ensures Total(lists) >= |lists[i]|
    decreases |lists|
  {
    if i > 0 {
      TotalAtLeast(lists[1..], i - 1);
    }
  }

  /** An example: an empty string is popped without using up the tolerance of 1 and lands in no
      batch, so the address before it is still taken in the same round. */
  lemma EmptyItemDropped()
    ensures Batches([1], [["a@x.org", ""]]) == [["a@x.org"]]
  {
    var lists: seq<seq<Email>> := [["a@x.org", ""]];
    var a: Email := "a@x.org";
    assert a != "" by { assert |a| == 7; }
    var none: seq<Email> := [];
    assert Drain([a], 1) == ([], [a]) by {
      DrainStep([a], 1);
      assert [a][..0] == none && [a][0] == a;
      DrainDone(none, 0);
      assert [a] + none == [a];
    }
    assert Drain([a, ""], 1) == ([], [a]) by {
      DrainStep([a, ""], 1);
      assert [a, ""][..1] == [a] && [a, ""][1] == "";
      assert none + [a] == [a];
    }
    var rest := RoundRest([1], lists);
    assert rest == [[]];
    assert RoundTaken([1], lists, 1) == ["a@x.org"];
    assert Total(lists) == 2;
    assert Total(rest) == 0;
  }

  // ================================================================ conservation

  /** The non-empty addresses of `s`, each as often as it occurs there. */
  function Kept(s: seq<Email>): multiset<Email> {
    if s == [] then multiset{}
    else
      var x := s[|s| - 1];
      Kept(s[..|s| - 1]) + (if x == "" then multiset{} else multiset{x})
  }

  lemma {:induction false} KeptIs(s: seq<Email>)
    ensures Kept(s) == multiset(s)["" := 0]
    decreases |s|
  {
    if s != [] {
      var init := s[..|s| - 1];
      KeptIs(init);
      assert s == init + [s[|s| - 1]];
    }
  }

  /** A turn keeps every non-empty address: in what is left or in what it took. */
  lemma DrainConserves(vs: seq<Email>, room: int)
    ensures Kept(vs) == Kept(Drain(vs, room).0) + multiset(Drain(vs, room).1)
  {
    var (rest, taken) := Drain(vs, room);
    DrainPopped(vs, room);
    PoppedMultiset(vs[|rest|..]);
    assert vs == rest + vs[|rest|..];
    assert multiset(vs) == multiset(rest) + multiset(vs[|rest|..]);
    KeptIs(vs);
    KeptIs(rest);
  }

  /** The first `m` lists, concatenated. */
  function Gather(lists: seq<seq<Email>>, m: nat): seq<Email>
    requires m <= |lists|
  {
    if m == 0 then [] else Gather(lists, m - 1) + lists[m - 1]
  }

  lemma {:induction false} GatherFlatten(lists: seq<seq<Email>>, m: nat)
    requires m <= |lists|
    ensures Gather(lists, m) + Flatten(lists[m..]) == Flatten(lists)
    decreases m
  {
    if m > 0 {
      GatherFlatten(lists, m - 1);
      assert lists[m - 1..][1..] == lists[m..];
    } else {
      assert lists[0..] == lists;
    }
  }

  lemma GatherAll(lists: seq<seq<Email>>)
    ensures Gather(lists, |lists|) == Flatten(lists)
  {
    GatherFlatten(lists, |lists|);
    assert lists[|lists|..] == [];
  }

  lemma KeptAppend(a: seq<Email>, b: seq<Email>)
    ensures Kept(a + b) == Kept(a) + Kept(b)
  {
    assert multiset(a + b) == multiset(a) + multiset(b);
    KeptIs(a + b);
    KeptIs(a);
    KeptIs(b);
  }

  /** One step of `RoundConserves`: appending a list and its turn keeps the balance. */
  lemma ConserveStep(front: seq<Email>, last: seq<Email>, frontLeft: seq<Email>, lastLeft: seq<Email>,
                     frontTaken: seq<Email>, lastTaken: seq<Email>)
    requires Kept(front) == Kept(frontLeft) + multiset(frontTaken)
    requires Kept(last) == Kept(lastLeft) + multiset(lastTaken)
    ensures Kept(front + last) == Kept(frontLeft + lastLeft) + multiset(frontTaken + lastTaken)
  {
    KeptAppend(front, last);
    KeptAppend(frontLeft, lastLeft);
    assert multiset(frontTaken + lastTaken) == multiset(frontTaken) + multiset(lastTaken);
    Regroup(Kept(front + last), Kept(front), Kept(last), Kept(frontLeft), Kept(lastLeft),
            Kept(frontLeft + lastLeft), multiset(frontTaken), multiset(lastTaken),
            multiset(frontTaken + lastTaken));
  }

  /** The bookkeeping of one step of `RoundConserves`, on multisets alone. */
  lemma Regroup(whole: multiset<Email>, front: multiset<Email>, last: multiset<Email>,
                frontLeft: multiset<Email>, lastLeft: multiset<Email>, left: multiset<Email>,
                frontTaken: multiset<Email>, lastTaken: multiset<Email>, taken: multiset<Email>)
    requires whole == front + last && left == frontLeft + lastLeft && taken == frontTaken + lastTaken
    requires front == frontLeft + frontTaken && last == lastLeft + lastTaken
    ensures whole == left + taken
  {
  }

  lemma {:induction false} FlattenNothing(lists: seq<seq<Email>>)
    requires forall i :: 0 <= i < |lists| ==> lists[i] == []
    ensures Flatten(lists) == []
    decreases |lists|
  {
    if lists != [] {
      FlattenNothing(lists[1..]);
    }
  }

  /** One step of `RoundConserves`, from the first `m - 1` lists to the first `m`. */
  lemma {:induction false} RoundConservesStep(tols: seq<int>, lists: seq<seq<Email>>, rest: seq<seq<Email>>, m: nat)
    requires |tols| == |lists| == |rest| && 0 < m <= |lists|
    requires forall j :: 0 <= j < |lists| ==> rest[j] == Drain(lists[j], tols[j]).0
    ensures Kept(Gather(lists, m)) == Kept(Gather(rest, m)) + multiset(RoundTaken(tols, lists, m))
    decreases m, 0
  {
    RoundConserves(tols, lists, rest, m - 1);
    DrainConserves(lists[m - 1], tols[m - 1]);
    ConserveStep(Gather(lists, m - 1), lists[m - 1], Gather(rest, m - 1), rest[m - 1],
                 RoundTaken(tols, lists, m - 1), Drain(lists[m - 1], tols[m - 1]).1);
  }

  /** A round keeps every non-empty address of the first `m` lists: in what they have left or in
      what they contributed to the batch. */
  lemma {:induction false} RoundConserves(tols: seq<int>, lists: seq<seq<Email>>, rest: seq<seq<Email>>, m: nat)
    requires |tols| == |lists| == |rest| && m <= |lists|
    requires forall j :: 0 <= j < |lists| ==> rest[j] == Drain(lists[j], tols[j]).0
    ensures Kept(Gather(lists, m)) == Kept(Gather(rest, m)) + multiset(RoundTaken(tols, lists, m))
    decreases m, 1
  {
    if m > 0 {
      RoundConservesStep(tols, lists, rest, m);
    }
  }

  /** The batches hold exactly the non-empty addresses of the lists, each as often as it occurs
      there: nothing is lost and nothing duplicated. */
  lemma {:induction false} BatchesConserve(tols: seq<int>, lists: seq<seq<Email>>)
    requires Terminates(tols, lists)
    ensures multiset(Flatten(Batches(tols, lists))) == multiset(Flatten(lists))["" := 0]
    decreases Total(lists)
  {
    if Total(lists) == 0 {
      TotalZero(lists);
      FlattenNothing(lists);
    } else {
      RoundProgress(tols, lists);
      var rest := RoundRest(tols, lists);
      var batch := RoundTaken(tols, lists, |lists|);
      var first: seq<seq<Email>> := if batch == [] then [] else [batch];
      BatchesConserve(tols, rest);
      RoundConserves(tols, lists, rest, |lists|);
      GatherAll(lists);
      GatherAll(rest);
      KeptIs(Flatten(lists));
      KeptIs(Flatten(rest));
      FlattenAppend(first, Batches(tols, rest));
      assert Flatten(first) == batch by {
        if batch != [] {
          assert Flatten(first) == batch + Flatten([]);
        }
      }
    }
  }

  // ================================================================ per-domain cap

  /* The cap is stated for any key function; `classify` groups by `Classifier.Key`. */

  /** The number of addresses of `b` whose key is `d`. */
  function CountKey(key: Email -> Domain, b: seq<Email>, d: Domain): (r: nat)
    ensures r <= |b|
  {
    if b == [] then 0 else (if key(b[0]) == d then 1 else 0) + CountKey(key, b[1..], d)
  }

  lemma {:induction false} CountKeyAppend(key: Email -> Domain, a: seq<Email>, b: seq<Email>, d: Domain)
    ensures CountKey(key, a + b, d) == CountKey(key, a, d) + CountKey(key, b, d)
    decreases |a|
  {
    if a == [] {
      assert a + b == b;
    } else {
      CountKeyAppend(key, a[1..], b, d);
      assert (a + b)[1..] == a[1..] + b;
    }
  }

  /** Addresses that all have key `k` count fully under `k` and not at all under another key. */
  lemma {:induction false} CountKeyOf(key: Email -> Domain, b: seq<Email>, k: Domain, d: Domain)
    requires forall e :: e in b ==> key(e) == k
    ensures CountKey(key, b, d) == if k == d then |b| else 0
    decreases |b|
  {
    if b != [] {
      CountKeyOf(key, b[1..], k, d);
    }
  }

  /** Each list holds only addresses of its own key, and the keys are distinct: the lists of
      `classify`'s dictionary. */
  ghost predicate Keyed(key: Email -> Domain, domains: seq<Domain>, lists: seq<seq<Email>>) {
    && |domains| == |lists| && Distinct(domains)
    && forall i, e :: 0 <= i < |lists| && e in lists[i] ==> key(e) == domains[i]
  }

  /** A turn takes only addresses of its list. */
  lemma {:induction false} DrainTakenFrom(vs: seq<Email>, room: int)
    ensures forall e :: e in Drain(vs, room).1 ==> e in vs
    decreases |vs|
  {
    if vs != [] && room > 0 {
      var x := vs[|vs| - 1];
      DrainTakenFrom(vs[..|vs| - 1], if x != "" then room - 1 else room);
    }
  }

  /** What one list gives up in a round is keyed to that list's domain. */
  lemma TakenKeyed(key: Email -> Domain, tols: seq<int>, domains: seq<Domain>, lists: seq<seq<Email>>, j: nat)
    requires Keyed(key, domains, lists) && |tols| == |lists| && j < |lists|
    ensures forall e :: e in Drain(lists[j], tols[j]).1 ==> key(e) == domains[j]
  {
    DrainTakenFrom(lists[j], tols[j]);
  }

  /** A round's batch holds, of each key, exactly what that key's turn took. */
  lemma {:induction false} RoundTakenCount(key: Email -> Domain, tols: seq<int>, domains: seq<Domain>,
                                           lists: seq<seq<Email>>, m: nat, i: nat)
    requires Keyed(key, domains, lists) && |tols| == |lists| && m <= |lists| && i < |lists|
    ensures CountKey(key, RoundTaken(tols, lists, m), domains[i]) == if i < m then |Drain(lists[i], tols[i]).1| else 0
    decreases m
  {
    if m > 0 {
      var taken := Drain(lists[m - 1], tols[m - 1]).1;
      RoundTakenCount(key, tols, domains, lists, m - 1, i);
      CountKeyAppend(key, RoundTaken(tols, lists, m - 1), taken, domains[i]);
      TakenKeyed(key, tols, domains, lists, m - 1);
      CountKeyOf(key, taken, domains[m - 1], domains[i]);
      if domains[m - 1] == domains[i] {
        DistinctAt(domains, m - 1, i);
      }
    }
  }

  /** `count < tolerance`: a tolerance of 0 or less admits nothing. */
  function Cap(tolerance: int): nat {
    if tolerance > 0 then tolerance else 0
  }

  /** A round's batch holds at most `Cap(tols[i])` addresses of key `domains[i]`. */
  lemma RoundCapped(key: Email -> Domain, tols: seq<int>, domains: seq<Domain>, lists: seq<seq<Email>>, i: nat)
    requires Keyed(key, domains, lists) && |tols| == |lists| && i < |lists|
    ensures CountKey(key, RoundTaken(tols, lists, |lists|), domains[i]) <= Cap(tols[i])
  {
    RoundTakenCount(key, tols, domains, lists, |lists|, i);
    if tols[i] > 0 {
      DrainCount(lists[i], tols[i]);
    } else {
      DrainDone(lists[i], tols[i]);
    }
  }

  /** What a round leaves of each list is a prefix of it, so the lists stay keyed. */
  lemma KeyedRest(key: Email -> Domain, tols: seq<int>, domains: seq<Domain>, lists: seq<seq<Email>>)
    requires Keyed(key, domains, lists) && |tols| == |lists|
    ensures Keyed(key, domains, RoundRest(tols, lists))
  {
    var rest := RoundRest(tols, lists);
    forall i, e | 0 <= i < |rest| && e in rest[i] ensures key(e) == domains[i] {
      assert rest[i] == lists[i][..|rest[i]|];
      assert e in lists[i];
    }
  }

  /** The tolerance property: every batch holds at most `tolerance` addresses of each domain. */
  lemma {:induction false} BatchesCapped(key: Email -> Domain, tols: seq<int>, domains: seq<Domain>, lists: seq<seq<Email>>)
    requires Terminates(tols, lists) && Keyed(key, domains, lists)
    ensures forall k, i :: 0 <= k < |Batches(tols, lists)| && 0 <= i < |domains| ==>
      CountKey(key, Batches(tols, lists)[k], domains[i]) <= Cap(tols[i])
    decreases Total(lists)
  {
    if Total(lists) > 0 {
      RoundProgress(tols, lists);
      var rest := RoundRest(tols, lists);
      var batch := RoundTaken(tols, lists, |lists|);
      KeyedRest(key, tols, domains, lists);
      BatchesCapped(key, tols, domains, rest);
      forall i | 0 <= i < |domains| ensures CountKey(key, batch, domains[i]) <= Cap(tols[i]) {
        RoundCapped(key, tols, domains, lists, i);
      }
      assert Batches(tols, lists) == (if batch == [] then [] else [batch]) + Batches(tols, rest);
      CappedCons(key, tols, domains, batch, Batches(tols, rest));
    }
  }

  /** Putting a capped batch in front of capped batches keeps every batch capped. */
  lemma CappedCons(key: Email -> Domain, tols: seq<int>, domains: seq<Domain>, batch: seq<Email>,
                   later: seq<seq<Email>>)
    requires |tols| == |domains|
    requires forall i :: 0 <= i < |domains| ==> CountKey(key, batch, domains[i]) <= Cap(tols[i])
    requires forall k, i :: 0 <= k < |later| && 0 <= i < |domains| ==>
      CountKey(key, later[k], domains[i]) <= Cap(tols[i])
    ensures var all := (if batch == [] then [] else [batch]) + later;
      forall k, i :: 0 <= k < |all| && 0 <= i < |domains| ==> CountKey(key, all[k], domains[i]) <= Cap(tols[i])
  {
    var all := (if batch == [] then [] else [batch]) + later;
    forall k, i | 0 <= k < |all| && 0 <= i < |domains| ensures CountKey(key, all[k], domains[i]) <= Cap(tols[i]) {
      if batch != [] && k == 0 {
        assert all[k] == batch;
      } else if batch != [] {
        assert all[k] == later[k - 1];
      } else {
        assert all[k] == later[k];
      }
    }
  }

  // ================================================================ number of batches

  /** The rounds a list of `n` addresses needs at `t` per round. */
  function Rounds(n: nat, t: int): nat
    requires n == 0 || t >= 1
    decreases n
  {
    if n == 0 then 0 else if n <= t then 1 else 1 + Rounds(n - t, t)
  }

  /** `Rounds(n, t)` is `ceil(n / t)`: the least `r` with `n <= r * t`. */
  lemma {:induction false} RoundsCeil(n: nat, t: int)
    requires t >= 1
    ensures n <= Rounds(n, t) * t
    ensures n == 0 || (Rounds(n, t) - 1) * t < n
    decreases n
  {
    if n > t {
      RoundsCeil(n - t, t);
      var r := Rounds(n - t, t);
      assert (r + 1) * t == r * t + t;
      assert r * t == (r - 1) * t + t;
    }
  }

  /** The most rounds any of the first `m` lists needs. */
  function MostRounds(tols: seq<int>, lists: seq<seq<Email>>, m: nat): nat
    requires Terminates(tols, lists) && m <= |lists|
  {
    if m == 0 then 0
    else
      var before := MostRounds(tols, lists, m - 1);
      var here := Rounds(|lists[m - 1]|, tols[m - 1]);
      if here > before then here else before
  }

  lemma {:induction false} MostRoundsZero(tols: seq<int>, lists: seq<seq<Email>>, m: nat)
    requires Terminates(tols, lists) && m <= |lists|
    ensures MostRounds(tols, lists, m) == 0 <==> forall i :: 0 <= i < m ==> lists[i] == []
    decreases m
  {
    if m > 0 {
      MostRoundsZero(tols, lists, m - 1);
    }
  }

  /** What a round leaves of each list is a prefix of it, so the tolerances stay adequate. */
  lemma TerminatesRest(tols: seq<int>, lists: seq<seq<Email>>)
    requires Terminates(tols, lists)
    ensures Terminates(tols, RoundRest(tols, lists))
  {
    var rest := RoundRest(tols, lists);
    forall i | 0 <= i < |rest| && rest[i] != [] ensures lists[i] != [] {
      assert rest[i] == lists[i][..|rest[i]|];
    }
  }

  /** No list holds the empty string. */
  predicate NoEmptyItem(lists: seq<seq<Email>>) {
    forall i :: 0 <= i < |lists| ==> "" !in lists[i]
  }

  /** Without empty strings a round brings every list one round nearer to empty. */
  lemma {:induction false} MostRoundsStep(tols: seq<int>, lists: seq<seq<Email>>, m: nat)
    requires Terminates(tols, lists) && NoEmptyItem(lists) && m <= |lists|
    ensures Terminates(tols, RoundRest(tols, lists))
    ensures MostRounds(tols, RoundRest(tols, lists), m)
         == if MostRounds(tols, lists, m) == 0 then 0 else MostRounds(tols, lists, m) - 1
    decreases m
  {
    TerminatesRest(tols, lists);
    if m > 0 {
      MostRoundsStep(tols, lists, m - 1);
      var rest := RoundRest(tols, lists);
      assert rest[m - 1] == Drain(lists[m - 1], tols[m - 1]).0;
      RoundsStep(lists[m - 1], tols[m - 1]);
    }
  }

  /** One turn takes one round off what a list still needs. */
  lemma RoundsStep(vs: seq<Email>, t: int)
    requires "" !in vs && (vs == [] || t >= 1)
    ensures Drain(vs, t).0 == [] || t >= 1
    ensures Rounds(|Drain(vs, t).0|, t) == if Rounds(|vs|, t) == 0 then 0 else Rounds(|vs|, t) - 1
  {
    if vs != [] {
      DrainExact(vs, t);
    } else {
      DrainDone(vs, t);
    }
  }

  /** A round on lists without empty strings that still hold something has a non-empty batch. */
  lemma {:induction false} RoundTakesSome(tols: seq<int>, lists: seq<seq<Email>>, m: nat, i: nat)
    requires Terminates(tols, lists) && NoEmptyItem(lists) && i < m <= |lists| && lists[i] != []
    ensures RoundTaken(tols, lists, m) != []
    decreases m
  {
    if i < m - 1 {
      RoundTakesSome(tols, lists, m - 1, i);
    } else {
      DrainExact(lists[i], tols[i]);
    }
  }

  /** Without empty strings there are exactly as many batches as the longest-lasting domain needs
      rounds: the maximum over the domains of `ceil(len(values) / tolerance)`. */
  lemma {:induction false} BatchCount(tols: seq<int>, lists: seq<seq<Email>>)
    requires Terminates(tols, lists) && NoEmptyItem(lists)
    ensures |Batches(tols, lists)| == MostRounds(tols, lists, |lists|)
    decreases Total(lists)
  {
    TotalZero(lists);
    MostRoundsZero(tols, lists, |lists|);
    if Total(lists) > 0 {
      RoundProgress(tols, lists);
      var rest := RoundRest(tols, lists);
      var i :| 0 <= i < |lists| && lists[i] != [];
      RoundTakesSome(tols, lists, |lists|, i);
      MostRoundsStep(tols, lists, |lists|);
      forall j | 0 <= j < |rest| ensures "" !in rest[j] {
        assert rest[j] == lists[j][..|rest[j]|];
      }
      BatchCount(tols, rest);
    }
  }

  // ================================================================ the imperative loop

  /** The keys of the dictionary as a set. */
  function KeySet(domains: seq<Domain>): (r: set<Domain>)
    ensures forall d :: d in r <==> d in domains
  {
    if domains == [] then {} else {domains[0]} + KeySet(domains[1..])
  }

  lemma {:induction false} KeySetSize(domains: seq<Domain>)
    requires Distinct(domains)
    ensures |KeySet(domains)| == |domains|
    decreases |domains|
  {
    if domains != [] {
      KeySetSize(domains[1..]);
    }
  }

  /** A subset is no larger, and one as large is the whole set. */
  lemma {:induction false} SubsetSize(a: set<Domain>, b: set<Domain>)
    requires a <= b
    ensures |a| <= |b|
    ensures |a| >= |b| ==> a == b
    decreases |b|
  {
    if b != {} {
      var x :| x in b;
      SubsetSize(a - {x}, b - {x});
      if x in a {
        assert a == (a - {x}) + {x};
      } else {
        assert a - {x} == a;
      }
    }
  }

  /** The inner `while` of `_get_batches`: pops from the end of one domain's list while it is
      not empty and fewer than `tolerance` addresses were taken, skipping empty strings. */
  method Turn(values: seq<Email>, tolerance: int) returns (rest: seq<Email>, taken: seq<Email>)
    ensures (rest, taken) == Drain(values, tolerance)
  {
    rest, taken := values, [];
    var count := 0;
    while |rest| > 0 && count < tolerance
      invariant Drain(rest, tolerance - count).0 == Drain(values, tolerance).0
      invariant taken + Drain(rest, tolerance - count).1 == Drain(values, tolerance).1
      decreases |rest|
    {
      var item := rest[|rest| - 1];
      DrainStep(rest, tolerance - count);
      rest := rest[..|rest| - 1];
      if item != "" {
        taken := taken + [item];
        count := count + 1;
      }
    }
    DrainDone(rest, tolerance - count);
    assert taken + [] == taken;
  }

  /** The tolerances the loop looks up, one per key; a failed lookup, which ends the run, shows
      as 0. */
  ghost function LookedUp(table: Table, domains: seq<Domain>): (r: seq<int>)
    ensures |r| == |domains|
    ensures Tolerances(table, domains).Ok? ==> r == Tolerances(table, domains).value
  {
    seq(|domains|, j requires 0 <= j < |domains| =>
      match GetTolerance(table, domains[j]) case Ok(t) => t case Err(_) => 0)
  }

  /** `empty_keys` after the `for` loop has passed the first `m` keys: the keys it started with,
      and each of those `m` keys whose list is empty. */
  ghost function Collected(emptyKeys: set<Domain>, domains: seq<Domain>, lists: seq<seq<Email>>, m: nat): set<Domain>
    requires m <= |domains| == |lists|
  {
    if m == 0 then emptyKeys
    else
      var before := Collected(emptyKeys, domains, lists, m - 1);
      if lists[m - 1] == [] then before + {domains[m - 1]} else before
  }

  /** Starting from keys, only keys are collected. */
  lemma {:induction false} CollectedKeys(emptyKeys: set<Domain>, domains: seq<Domain>, lists: seq<seq<Email>>, m: nat)
    requires m <= |domains| == |lists| && emptyKeys <= KeySet(domains)
    ensures Collected(emptyKeys, domains, lists, m) <= KeySet(domains)
    decreases m
  {
    if m > 0 {
      CollectedKeys(emptyKeys, domains, lists, m - 1);
      assert domains[m - 1] in KeySet(domains);
    }
  }

  /** Only the first `m` lists matter. */
  lemma {:induction false} CollectedFrame(emptyKeys: set<Domain>, domains: seq<Domain>, lists: seq<seq<Email>>,
                                          m: nat, k: nat, v: seq<Email>)
    requires m <= k < |domains| == |lists|
    ensures Collected(emptyKeys, domains, lists[k := v], m) == Collected(emptyKeys, domains, lists, m)
    decreases m
  {
    if m > 0 {
      CollectedFrame(emptyKeys, domains, lists, m - 1, k, v);
    }
  }

  /** The keys it started with stay collected. */
  lemma {:induction false} CollectedGrows(emptyKeys: set<Domain>, domains: seq<Domain>, lists: seq<seq<Email>>, m: nat)
    requires m <= |domains| == |lists|
    ensures emptyKeys <= Collected(emptyKeys, domains, lists, m)
    decreases m
  {
    if m > 0 {
      CollectedGrows(emptyKeys, domains, lists, m - 1);
    }
  }

  /** A distinct key at or after position `m` is collected only if it was there from the start. */
  lemma {:induction false} CollectedLater(emptyKeys: set<Domain>, domains: seq<Domain>, lists: seq<seq<Email>>,
                                          m: nat, i: nat)
    requires m <= i < |domains| == |lists| && Distinct(domains)
    requires domains[i] in Collected(emptyKeys, domains, lists, m)
    ensures domains[i] in emptyKeys
    decreases m
  {
    if m > 0 {
      if domains[m - 1] == domains[i] {
        DistinctAt(domains, m - 1, i);
      }
      CollectedLater(emptyKeys, domains, lists, m - 1, i);
    }
  }

  /** Among the first `m` keys, a key is collected exactly when it was there from the start or its
      list is empty. */
  lemma {:induction false} CollectedIff(emptyKeys: set<Domain>, domains: seq<Domain>, lists: seq<seq<Email>>,
                                        m: nat, j: nat)
    requires j < m <= |domains| == |lists| && Distinct(domains)
    ensures domains[j] in Collected(emptyKeys, domains, lists, m) <==> domains[j] in emptyKeys || lists[j] == []
    decreases m
  {
    if j == m - 1 {
      CollectedGrows(emptyKeys, domains, lists, m - 1);
      if domains[j] in Collected(emptyKeys, domains, lists, m - 1) {
        CollectedLater(emptyKeys, domains, lists, m - 1, j);
      }
    } else {
      CollectedIff(emptyKeys, domains, lists, m - 1, j);
      if domains[m - 1] == domains[j] {
        DistinctAt(domains, m - 1, j);
      }
    }
  }

  /** The state of the `for` loop of `_get_batches` after it has passed the first `i` keys: those
      keys have had their turn (a skipped key's list is empty, and an empty list's turn changes
      nothing), the round's batch holds what they took, and `keys` has collected those whose lists
      are now empty. Before the first round every key passed looked up its tolerance. */
  ghost predicate Passed(table: Table, domains: seq<Domain>, lists: seq<seq<Email>>, emptyKeys: set<Domain>,
                         started: bool, i: nat, rest: seq<seq<Email>>, batch: seq<Email>, keys: set<Domain>)
    requires |domains| == |lists| && i <= |domains|
  {
    var tols := LookedUp(table, domains);
    && |rest| == |domains|
    && (forall j :: 0 <= j < i ==> rest[j] == Drain(lists[j], tols[j]).0)
    && (forall j :: i <= j < |rest| ==> rest[j] == lists[j])
    && batch == RoundTaken(tols, lists, i)
    && (started || forall j :: 0 <= j < i ==> GetTolerance(table, domains[j]).Ok?)
    && keys == Collected(emptyKeys, domains, rest, i)
  }

  /** One iteration of the `for` loop of `_get_batches`, for key `i`: skip it when it is in
      `empty_keys`; otherwise look up its tolerance, failing with the lookup's error, take its turn,
      and collect the key when its list is left empty. */
  method Visit(table: Table, domains: seq<Domain>, lists: seq<seq<Email>>, emptyKeys: set<Domain>,
               ghost started: bool, i: nat, rest: seq<seq<Email>>, batch: seq<Email>, keys: set<Domain>)
    returns (rest': seq<seq<Email>>, batch': seq<Email>, keys': set<Domain>, failed: Option<LookupError>)
    requires |domains| == |lists| && Distinct(domains) && i < |domains|
    requires forall j :: 0 <= j < |lists| && domains[j] in emptyKeys ==> lists[j] == []
    requires started ==> Tolerances(table, domains).Ok?
    requires !started ==> emptyKeys == {}
    requires Passed(table, domains, lists, emptyKeys, started, i, rest, batch, keys)
    ensures failed.Some? ==> Tolerances(table, domains) == Err(failed.value)
    ensures failed.None? ==> Passed(table, domains, lists, emptyKeys, started, i + 1, rest', batch', keys')
  {
    ghost var tols := LookedUp(table, domains);
    if domains[i] in keys {
      CollectedLater(emptyKeys, domains, rest, i, i);
      DrainDone(lists[i], tols[i]);
      assert batch + [] == batch;
      assert keys + {domains[i]} == keys;
      return rest, batch, keys, None;
    }
    var found := GetTolerance(table, domains[i]);
    if found.Err? {
      TolerancesFirstError(table, domains, i);
      return rest, batch, keys, Some(found.error);
    }
    var values, taken := Turn(rest[i], found.value);
    CollectedFrame(emptyKeys, domains, rest, i, i, values);
    rest' := rest[i := values];
    batch' := batch + taken;
    keys' := if |values| == 0 then keys + {domains[i]} else keys;
    failed := None;
  }

  /** One pass of the `for` loop of `_get_batches` over the keys `domains` and their lists
      `lists`: every key not in `emptyKeys` looks up its tolerance and takes its turn, and a key
      whose list is left empty joins `emptyKeys`. In the first pass no key is skipped, so a lookup
      that fails fails here, at the first key that fails; afterwards the skipped keys are exactly
      those with empty lists. */
  method Round(table: Table, domains: seq<Domain>, lists: seq<seq<Email>>, emptyKeys: set<Domain>,
               ghost started: bool)
    returns (rest: seq<seq<Email>>, batch: seq<Email>, keys: set<Domain>, failed: Option<LookupError>)
    requires |domains| == |lists| && Distinct(domains)
    requires forall j :: 0 <= j < |lists| && domains[j] in emptyKeys ==> lists[j] == []
    requires !started ==> emptyKeys == {}
    requires started ==> Tolerances(table, domains).Ok?
    ensures failed.Some? ==> Tolerances(table, domains) == Err(failed.value)
    ensures failed.None? ==> Tolerances(table, domains).Ok?
    ensures failed.None? ==> rest == RoundRest(LookedUp(table, domains), lists)
    ensures failed.None? ==> batch == RoundTaken(LookedUp(table, domains), lists, |lists|)
    ensures failed.None? ==> keys == Collected(emptyKeys, domains, rest, |rest|)
  {
    rest, batch, keys, failed := lists, [], emptyKeys, None;
    for i := 0 to |domains|
      invariant failed.None?
      invariant Passed(table, domains, lists, emptyKeys, started, i, rest, batch, keys)
    {
      rest, batch, keys, failed := Visit(table, domains, lists, emptyKeys, started, i, rest, batch, keys);
      if failed.Some? {
        return;
      }
    }
    if !started {
      assert forall j :: 0 <= j < |domains| ==> GetTolerance(table, domains[j]).Ok?;
    }
    assert rest == RoundRest(LookedUp(table, domains), lists);
  }

  /** After a round, the keys skipped before together with the keys whose lists the round left
      empty are exactly the keys with empty lists. */
  lemma KeysAfterRound(tols: seq<int>, domains: seq<Domain>, lists: seq<seq<Email>>, emptyKeys: set<Domain>)
    requires |tols| == |domains| == |lists| && Distinct(domains)
    requires emptyKeys <= KeySet(domains)
    requires forall j :: 0 <= j < |lists| && domains[j] in emptyKeys ==> lists[j] == []
    ensures var rest := RoundRest(tols, lists);
      var keys := Collected(emptyKeys, domains, rest, |rest|);
      && keys <= KeySet(domains)
      && forall j :: 0 <= j < |rest| ==> (domains[j] in keys <==> rest[j] == [])
  {
    var rest := RoundRest(tols, lists);
    CollectedKeys(emptyKeys, domains, rest, |rest|);
    forall j | 0 <= j < |rest|
      ensures domains[j] in Collected(emptyKeys, domains, rest, |rest|) <==> rest[j] == []
    {
      if domains[j] in emptyKeys {
        DrainDone(lists[j], tols[j]);
      }
      CollectedIff(emptyKeys, domains, rest, |rest|, j);
    }
  }

  /** With the keys of empty lists tracked, all keys are tracked exactly when every list is
      empty. */
  lemma AllKeysEmpty(domains: seq<Domain>, lists: seq<seq<Email>>, keys: set<Domain>)
    requires |domains| == |lists| && Distinct(domains)
    requires keys <= KeySet(domains)
    requires forall j :: 0 <= j < |lists| ==> (domains[j] in keys <==> lists[j] == [])
    ensures |keys| >= |domains| <==> forall j :: 0 <= j < |lists| ==> lists[j] == []
  {
    KeySetSize(domains);
    SubsetSize(keys, KeySet(domains));
    if forall j :: 0 <= j < |lists| ==> lists[j] == [] {
      assert KeySet(domains) <= keys;
      assert keys == KeySet(domains);
      assert |keys| >= |domains|;
    }
    if |keys| >= |domains| {
      assert keys == KeySet(domains);
      forall j | 0 <= j < |lists| ensures lists[j] == [] {
        assert domains[j] in keys;
      }
    }
  }

  /** What one round of the outer `while` does to the specification: it contributes its batch
      when that is not empty, leaves lists that still terminate, and shrinks the total when some
      address was left. */
  lemma RoundStep(tols: seq<int>, lists: seq<seq<Email>>)
    requires Terminates(tols, lists)
    ensures var rest := RoundRest(tols, lists);
      var batch := RoundTaken(tols, lists, |lists|);
      && Terminates(tols, rest)
      && Batches(tols, lists) == (if batch == [] then [] else [batch]) + Batches(tols, rest)
      && (Total(lists) > 0 ==> Total(rest) < Total(lists))
  {
    var rest := RoundRest(tols, lists);
    if Total(lists) > 0 {
      RoundProgress(tols, lists);
    } else {
      TotalZero(lists);
      RoundTakenNothing(tols, lists, |lists|);
      forall j | 0 <= j < |lists| ensures rest[j] == [] {
        DrainDone(lists[j], tols[j]);
      }
      assert rest == lists;
    }
  }

  /** Appending a round's batch, when it is not empty, keeps the batches so far followed by
      those still to come equal to the whole. */
  lemma Accumulate(res: seq<seq<Email>>, batch: seq<Email>, later: seq<seq<Email>>, now: seq<seq<Email>>,
                   whole: seq<seq<Email>>)
    requires res + now == whole
    requires now == (if batch == [] then [] else [batch]) + later
    ensures (if batch == [] then res else res + [batch]) + later == whole
  {
    if batch == [] {
      assert now == later;
    } else {
      assert res + ([batch] + later) == (res + [batch]) + later;
    }
  }

  /** The state between two rounds of `_get_batches`: `emptyKeys` names exactly the emptied
      lists, and the batches so far followed by those still to come are all the batches. */
  ghost predicate Pending(table: Table, tols: seq<int>, domains: seq<Domain>, lists: seq<seq<Email>>,
                          emptyKeys: set<Domain>, res: seq<seq<Email>>, start: seq<seq<Email>>)
  {
    && |domains| == |lists| && emptyKeys <= KeySet(domains)
    && (forall j :: 0 <= j < |domains| ==> (domains[j] in emptyKeys <==> lists[j] == []))
    && Tolerances(table, domains).Ok?
    && Terminates(tols, lists) && Terminates(tols, start)
    && res + Batches(tols, lists) == Batches(tols, start)
  }

  /** `res.append(batch)` when the batch is not empty. */
  function Appended(res: seq<seq<Email>>, batch: seq<Email>): seq<seq<Email>> {
    if batch == [] then res else res + [batch]
  }

  /** The state before a round of `_get_batches`: the lists are keyed by distinct domains whose
      tolerances are all found, `emptyKeys` names only emptied lists, and the batches so far
      followed by those of the lists are all the batches. */
  ghost predicate Ready(table: Table, tols: seq<int>, domains: seq<Domain>, lists: seq<seq<Email>>,
                        emptyKeys: set<Domain>, res: seq<seq<Email>>, start: seq<seq<Email>>)
  {
    && |domains| == |lists| && Distinct(domains) && emptyKeys <= KeySet(domains)
    && (forall j :: 0 <= j < |lists| && domains[j] in emptyKeys ==> lists[j] == [])
    && Tolerances(table, domains).Ok? && tols == Tolerances(table, domains).value
    && Terminates(tols, lists) && Terminates(tols, start)
    && res + Batches(tols, lists) == Batches(tols, start)
  }

  /** A round taken from lists that are pending (or from the start, with nothing collected yet)
      leaves them pending again, and shrinks the total when some address was left. */
  lemma AfterRound(table: Table, tols: seq<int>, domains: seq<Domain>, lists: seq<seq<Email>>,
                   emptyKeys: set<Domain>, res: seq<seq<Email>>, start: seq<seq<Email>>)
    requires Ready(table, tols, domains, lists, emptyKeys, res, start)
    ensures var rest := RoundRest(tols, lists);
      var batch := RoundTaken(tols, lists, |lists|);
      && Pending(table, tols, domains, rest, Collected(emptyKeys, domains, rest, |rest|), Appended(res, batch), start)
      && (Total(lists) > 0 ==> Total(rest) < Total(lists))
  {
    var rest := RoundRest(tols, lists);
    var batch := RoundTaken(tols, lists, |lists|);
    KeysAfterRound(tols, domains, lists, emptyKeys);
    RoundStep(tols, lists);
    Accumulate(res, batch, Batches(tols, rest), Batches(tols, lists), Batches(tols, start));
  }

  /** Pending lists of which some key is not yet tracked are ready for another round, and hold
      something. */
  lemma PendingReady(table: Table, tols: seq<int>, domains: seq<Domain>, lists: seq<seq<Email>>,
                     emptyKeys: set<Domain>, res: seq<seq<Email>>, start: seq<seq<Email>>)
    requires Pending(table, tols, domains, lists, emptyKeys, res, start)
    requires Distinct(domains) && tols == LookedUp(table, domains) && |emptyKeys| < |domains|
    ensures Ready(table, tols, domains, lists, emptyKeys, res, start) && Total(lists) > 0
  {
    AllKeysEmpty(domains, lists, emptyKeys);
    TotalZero(lists);
  }

  /** One pass of the outer `while` of `_get_batches` after the first: a round over the lists of
      `g`, whose batch is appended to `res` when it is not empty. */
  method NextRound(table: Table, g: Grouping, emptyKeys: set<Domain>, res: seq<seq<Email>>,
                   ghost tols: seq<int>, ghost start: seq<seq<Email>>)
    returns (keys: set<Domain>, res': seq<seq<Email>>)
    requires g.Valid() && tols == LookedUp(table, g.domains) && |emptyKeys| < |g.domains|
    requires Pending(table, tols, g.domains, g.lists, emptyKeys, res, start)
    modifies g
    ensures g.Valid() && g.domains == old(g.domains)
    ensures Pending(table, tols, g.domains, g.lists, keys, res', start)
    ensures Total(g.lists) < old(Total(g.lists))
  {
    var domains := g.domains;
    ghost var lists := g.lists;
    PendingReady(table, tols, domains, lists, emptyKeys, res, start);
    var rest, batch, failed;
    rest, batch, keys, failed := Round(table, domains, g.lists, emptyKeys, true);
    AfterRound(table, tols, domains, lists, emptyKeys, res, start);
    g.lists := rest;
    res' := Appended(res, batch);
  }

  /** Before the first round of `_get_batches` no key is collected and no batch is made. */
  lemma StartReady(table: Table, domains: seq<Domain>, lists: seq<seq<Email>>)
    requires |domains| == |lists| && Distinct(domains) && Tolerances(table, domains).Ok?
    requires Terminates(Tolerances(table, domains).value, lists)
    ensures Ready(table, LookedUp(table, domains), domains, lists, {}, [], lists)
  {
    var tols := LookedUp(table, domains);
    assert [] + Batches(tols, lists) == Batches(tols, lists);
  }

  /** The first pass of the outer `while` of `_get_batches`, in which every key looks up its
      tolerance: it fails with the first key whose lookup fails, and otherwise leaves the lists of
      `g` pending, with the keys of the emptied lists and the batch so far. */
  method FirstRound(table: Table, g: Grouping) returns (failed: Option<LookupError>, keys: set<Domain>,
                                                        res: seq<seq<Email>>)
    requires g.Valid()
    requires Tolerances(table, g.domains).Ok? ==> Terminates(Tolerances(table, g.domains).value, g.lists)
    modifies g
    ensures g.Valid() && g.domains == old(g.domains)
    ensures failed.Some? <==> Tolerances(table, g.domains).Err?
    ensures failed.Some? ==> Tolerances(table, g.domains) == Err(failed.value)
    ensures failed.None? ==>
      Pending(table, LookedUp(table, g.domains), g.domains, g.lists, keys, res, old(g.lists))
  {
    var domains := g.domains;
    ghost var lists := g.lists;
    ghost var tols := LookedUp(table, domains);
    var rest, batch;
    rest, batch, keys, failed := Round(table, domains, g.lists, {}, false);
    res := [];
    if failed.Some? {
      return;
    }
    StartReady(table, domains, lists);
    AfterRound(table, tols, domains, lists, {}, [], lists);
    g.lists := rest;
    res := Appended([], batch);
  }

  /** `_get_batches`, draining `g`'s lists in place. When every lookup succeeds it returns
      `Batches` of the tolerances and the original lists and leaves every list empty; when one
      fails it returns the error of the first key that fails. A list that is not empty must have
      a tolerance of at least 1: otherwise the source loops forever. */
  method GetBatches(table: Table, g: Grouping) returns (r: Result<seq<seq<Email>>, LookupError>)
    requires g.Valid()
    requires Tolerances(table, g.domains).Ok? ==> Terminates(Tolerances(table, g.domains).value, g.lists)
    modifies g
    ensures g.Valid() && g.domains == old(g.domains)
    ensures r.Err? <==> Tolerances(table, g.domains).Err?
    ensures r.Err? ==> r.error == Tolerances(table, g.domains).error
    ensures r.Ok? ==> r.value == Batches(Tolerances(table, g.domains).value, old(g.lists))
    ensures r.Ok? ==> forall i :: 0 <= i < |g.lists| ==> g.lists[i] == []
  {
    var domains := g.domains;
    ghost var L0 := g.lists;
    ghost var tols := LookedUp(table, domains);
    if |domains| == 0 {
      return Ok([]);
    }
    var failed, emptyKeys, res := FirstRound(table, g);
    if failed.Some? {
      return Err(failed.value);
    }
    while |emptyKeys| < |domains|
      invariant g.Valid() && g.domains == domains
      invariant Pending(table, tols, domains, g.lists, emptyKeys, res, L0)
      decreases Total(g.lists)
    {
      emptyKeys, res := NextRound(table, g, emptyKeys, res, tols, L0);
    }
    AllKeysEmpty(domains, g.lists, emptyKeys);
    TotalZero(g.lists);
    assert res + [] == res;
    return Ok(res);
  }
}
