/**
 * The email classifier of the scheduler (scheduler/email.py): the two exclusion passes that
 * run when it is built (Chinese-provider domains first, then addresses already done) and the
 * grouping of the remaining addresses by the domain after `@`.
 *
 * The address lists read from CSV files are parameters here; the dictionary `classify` builds
 * is a `Grouping`, an object holding the domains in insertion order and their lists in parallel.
 */
module Classifier {
  import opened Results
  import opened Text

  type Email = string
  type Domain = string

  /** The default `domains_cn` denylist. */
  const DefaultDomainsCn: set<string> :=
    {"163.com", "126.com", "qq.com", "sina.com", "sohu.com",
     ".com.cn", "tycc.cn", "huawei.com",
     ".edu.cn", "org.cn", ".ac.cn"}

  /** The default of `ignore_cn`. */
  const DefaultIgnoreCn: bool := true

  // ================================================================ exclusion

  /** `_is_cn_domain`: some denylist entry occurs, case-sensitively, anywhere in the address,
      the part before `@` included. */
  predicate IsCn(denylist: set<string>, email: Email) {
    exists d :: d in denylist && Contains(email, d)
  }

  /** What an exclusion pass takes out: a denylisted address, or one already done. */
  datatype Rule = Denylist(domains: set<string>) | AlreadyDone(done: seq<Email>)

  predicate Removes(rule: Rule, email: Email) {
    match rule
    case Denylist(domains) => IsCn(domains, email)
    case AlreadyDone(done) => email in done
  }

  /** The loop of `_remove_emails_cn` and `_remove_emails_done`: the addresses the rule keeps and
      the ones it removes, each list in input order. */
  function Partition(emails: seq<Email>, rule: Rule): (r: (seq<Email>, seq<Email>))
    ensures |r.0| + |r.1| == |emails|
    ensures forall e :: e in r.0 <==> e in emails && !Removes(rule, e)
    ensures forall e :: e in r.1 <==> e in emails && Removes(rule, e)
  {
    if emails == [] then ([], [])
    else
      var e := emails[|emails| - 1];
      var (kept, removed) := Partition(emails[..|emails| - 1], rule);
      if Removes(rule, e) then (kept, removed + [e]) else (kept + [e], removed)
  }

  /** `s` is `a` and `b` shuffled together, each keeping its own order. */
  predicate Interleaving(s: seq<Email>, a: seq<Email>, b: seq<Email>)
    decreases |s|
  {
    if s == [] then a == [] && b == []
    else
      var x := s[|s| - 1];
      || (a != [] && a[|a| - 1] == x && Interleaving(s[..|s| - 1], a[..|a| - 1], b))
      || (b != [] && b[|b| - 1] == x && Interleaving(s[..|s| - 1], a, b[..|b| - 1]))
  }

  /** The kept and removed addresses interleave to the input: together they are the input, and
      each keeps the input's relative order. */
  lemma {:induction false} PartitionInterleaves(emails: seq<Email>, rule: Rule)
    ensures Interleaving(emails, Partition(emails, rule).0, Partition(emails, rule).1)
    decreases |emails|
  {
    if emails != [] {
      var init := emails[..|emails| - 1];
      PartitionInterleaves(init, rule);
      var (kept, removed) := Partition(init, rule);
      assert (kept + [emails[|emails| - 1]])[..|kept|] == kept;
      assert (removed + [emails[|emails| - 1]])[..|removed|] == removed;
    }
  }

  /** An interleaving is a permutation of the two parts together. */
  lemma {:induction false} InterleavingMultiset(s: seq<Email>, a: seq<Email>, b: seq<Email>)
    requires Interleaving(s, a, b)
    ensures multiset(s) == multiset(a) + multiset(b)
    decreases |s|
  {
    if s != [] {
      var x := s[|s| - 1];
      assert s == s[..|s| - 1] + [x];
      if a != [] && a[|a| - 1] == x && Interleaving(s[..|s| - 1], a[..|a| - 1], b) {
        InterleavingMultiset(s[..|s| - 1], a[..|a| - 1], b);
        assert a == a[..|a| - 1] + [x];
      } else {
        InterleavingMultiset(s[..|s| - 1], a, b[..|b| - 1]);
        assert b == b[..|b| - 1] + [x];
      }
    }
  }

  /** A pass that matches nothing keeps the list as it is. */
  lemma {:induction false} PartitionNothing(emails: seq<Email>, rule: Rule)
    requires forall k :: 0 <= k < |emails| ==> !Removes(rule, emails[k])
    ensures Partition(emails, rule) == (emails, [])
    decreases |emails|
  {
    if emails != [] {
      PartitionNothing(emails[..|emails| - 1], rule);
      assert emails[..|emails| - 1] + [emails[|emails| - 1]] == emails;
    }
  }

  /** What construction leaves: the addresses to classify and the two removed lists. */
  datatype Screened = Screened(kept: seq<Email>, cn: seq<Email>, done: seq<Email>)

  /** `__init__`'s two passes, denylist first: the first pass only when `ignore_cn` holds, the
      second only when the done list is non-empty. */
  function Screen(emails: seq<Email>, done: seq<Email>, ignoreCn: bool, domainsCn: set<string>): Screened {
    var (afterCn, cn) := if ignoreCn then Partition(emails, Denylist(domainsCn)) else (emails, []);
    var (kept, removedDone) := if done != [] then Partition(afterCn, AlreadyDone(done)) else (afterCn, []);
    Screened(kept, cn, removedDone)
  }

  /** The three lists of `Screen` are the input, rearranged. */
  lemma ScreenConserves(emails: seq<Email>, done: seq<Email>, ignoreCn: bool, domainsCn: set<string>)
    ensures var r := Screen(emails, done, ignoreCn, domainsCn);
      && multiset(r.kept) + multiset(r.cn) + multiset(r.done) == multiset(emails)
      && |r.kept| + |r.cn| + |r.done| == |emails|
  {
    var afterCn := if ignoreCn then Partition(emails, Denylist(domainsCn)).0 else emails;
    if ignoreCn {
      PartitionInterleaves(emails, Denylist(domainsCn));
      InterleavingMultiset(emails, afterCn, Partition(emails, Denylist(domainsCn)).1);
    }
    if done != [] {
      PartitionInterleaves(afterCn, AlreadyDone(done));
      InterleavingMultiset(afterCn, Partition(afterCn, AlreadyDone(done)).0, Partition(afterCn, AlreadyDone(done)).1);
    }
  }

  /** Denylist removal runs first, so the two removed lists share no address, and an address that
      both passes would take is reported under the denylist only. */
  lemma ScreenOrder(emails: seq<Email>, done: seq<Email>, ignoreCn: bool, domainsCn: set<string>, e: Email)
    ensures var r := Screen(emails, done, ignoreCn, domainsCn);
      && !(e in r.cn && e in r.done)
      && (ignoreCn && e in emails && IsCn(domainsCn, e) ==> e in r.cn && e !in r.done && e !in r.kept)
      && (e in r.done <==> e in emails && e in done && !(ignoreCn && IsCn(domainsCn, e)))
      && (e in r.kept <==> e in emails && e !in done && !(ignoreCn && IsCn(domainsCn, e)))
  {
  }

  /** With `ignore_cn` off and nothing done, construction keeps every address. */
  lemma ScreenNothing(emails: seq<Email>, domainsCn: set<string>)
    ensures Screen(emails, [], false, domainsCn) == Screened(emails, [], [])
  {
  }

  // ================================================================ classify

  /** The text between the first and second `@` of the lower-cased address, stripped; the empty
      text for an address with no `@`, which `classify` never asks for. */
  function Key(email: Email): (r: Domain)
    ensures '@' !in email ==> r == []
  {
    var parts := Split(Lower(email), '@');
    if |parts| >= 2 then
      if '@' !in email then
        LowerNoAt(email);
        SplitHasSecond(Lower(email), '@');
        assert false;
        []
      else Strip(parts[1])
    else []
  }

  /** A key holds no `@`, is lower-case and has no whitespace at either end. */
  lemma KeyShape(email: Email)
    ensures var d := Key(email);
      && '@' !in d
      && IsLower(d)
      && (d == [] || (!IsSpace(d[0]) && !IsSpace(d[|d| - 1])))
  {
    var parts := Split(Lower(email), '@');
    var d := Key(email);
    if |parts| >= 2 && '@' in email {
      assert d == Strip(parts[1]);
      LowerIsLower(email);
      LowerSplit(Lower(email), '@');
      SplitNoSeparator(Lower(email), '@');
      assert IsLower(parts[1]) && '@' !in parts[1];
      LowerStrip(parts[1]);
    } else {
      assert d == [];
    }
  }

  /** Lower-casing leaves `@` where it is and makes no new one. */
  lemma LowerNoAt(s: string)
    requires '@' !in s
    ensures '@' !in Lower(s)
  {
    forall k | 0 <= k < |s| ensures Lower(s)[k] != '@' { }
  }

  /** Lower-casing an address with its `@` written out. */
  lemma LowerAddress(local: string, domain: string, rest: string)
    ensures Lower(local + "@" + domain + rest) == Lower(local) + ['@'] + (Lower(domain) + Lower(rest))
  {
    var email := local + "@" + domain + rest;
    var r := Lower(local) + ['@'] + (Lower(domain) + Lower(rest));
    assert |r| == |email|;
    forall k | 0 <= k < |email| ensures Lower(email)[k] == r[k] {
      var n := |local|;
      if k < n {
        assert email[k] == local[k] && r[k] == Lower(local)[k];
      } else if k == n {
        assert email[k] == '@' && r[k] == '@';
      } else if k < n + 1 + |domain| {
        assert email[k] == domain[k - n - 1] && r[k] == Lower(domain)[k - n - 1];
      } else {
        assert email[k] == rest[k - n - 1 - |domain|] && r[k] == Lower(rest)[k - n - 1 - |domain|];
      }
    }
  }

  /** The key is what lies between the first `@` and the next one, lower-cased and stripped. */
  lemma KeyBetweenAts(local: string, domain: string, rest: string)
    requires '@' !in local && '@' !in domain
    requires rest == [] || rest[0] == '@'
    ensures Key(local + "@" + domain + rest) == Strip(Lower(domain))
  {
    LowerAddress(local, domain, rest);
    LowerNoAt(local);
    LowerNoAt(domain);
    assert rest != [] ==> Lower(rest)[0] == '@';
    SplitBetween(Lower(local), Lower(domain), Lower(rest), '@');
  }

  lemma TagSnoc(emails: seq<Email>, i: nat)
    requires i < |emails|
    ensures Tag(emails[..i + 1]) == Tag(emails[..i]) + [(Key(emails[i]), emails[i])]
  {
    var a, b := Tag(emails[..i + 1]), Tag(emails[..i]) + [(Key(emails[i]), emails[i])];
    assert |a| == |b|;
    forall k | 0 <= k < |a| ensures a[k] == b[k] {
      if k < i {
        assert emails[..i + 1][k] == emails[..i][k];
      }
    }
  }

  /** Every address has an `@`, without which `classify` finds no second piece. */
  predicate AllAddressed(emails: seq<Email>)
    decreases |emails|
  {
    emails == [] || (AllAddressed(emails[..|emails| - 1]) && '@' in emails[|emails| - 1])
  }

  /** Every address of an all-addressed list holds an `@`. */
  lemma {:induction false} AllAddressedAt(emails: seq<Email>, k: nat)
    requires AllAddressed(emails) && k < |emails|
    ensures '@' in emails[k]
    decreases |emails|
  {
    if k < |emails| - 1 {
      AllAddressedAt(emails[..|emails| - 1], k);
    }
  }

  /** Each address beside its key, in input order. */
  function Tag(emails: seq<Email>): (r: seq<(Domain, Email)>)
    ensures |r| == |emails|
    ensures forall k :: 0 <= k < |r| ==> r[k] == (Key(emails[k]), emails[k])
  {
    seq(|emails|, k requires 0 <= k < |emails| => (Key(emails[k]), emails[k]))
  }

  /** The addresses tagged with `d`, in input order. */
  function Select(tagged: seq<(Domain, Email)>, d: Domain): (r: seq<Email>)
    ensures forall e :: e in r <==> (d, e) in tagged
    ensures r == [] <==> forall k :: 0 <= k < |tagged| ==> tagged[k].0 != d
  {
    if tagged == [] then []
    else
      var last := tagged[|tagged| - 1];
      var init := tagged[..|tagged| - 1];
      assert tagged == init + [last];
      Select(init, d) + (if last.0 == d then [last.1] else [])
  }

  /** Position of `d` in `domains`. */
  function IndexOf(domains: seq<Domain>, d: Domain): (i: nat)
    requires d in domains
    ensures i < |domains| && domains[i] == d
    ensures forall j :: 0 <= j < i ==> domains[j] != d
  {
    if domains[0] == d then 0 else 1 + IndexOf(domains[1..], d)
  }

  /** `res[suffix].append(email)`, creating the list on a first sight of `suffix`. */
  function AddTo(domains: seq<Domain>, lists: seq<seq<Email>>, d: Domain, e: Email): (seq<Domain>, seq<seq<Email>>)
    requires |domains| == |lists|
  {
    if d in domains then
      var i := IndexOf(domains, d);
      (domains, lists[i := lists[i] + [e]])
    else
      (domains + [d], lists + [[e]])
  }

  /** Distinct keys: each key differs from every key after it. */
  predicate Distinct(domains: seq<Domain>)
    decreases |domains|
  {
    domains == [] || (domains[0] !in domains[1..] && Distinct(domains[1..]))
  }

  /** Two positions of distinct keys that hold the same key are the same position. */
  lemma {:induction false} DistinctAt(domains: seq<Domain>, i: nat, j: nat)
    requires Distinct(domains) && i < |domains| && j < |domains| && domains[i] == domains[j]
    ensures i == j
    decreases |domains|
  {
    if i > 0 && j > 0 {
      DistinctAt(domains[1..], i - 1, j - 1);
    }
  }

  /** Keys that all differ are distinct. */
  lemma {:induction false} DistinctIntro(domains: seq<Domain>)
    requires forall i, j :: 0 <= i < j < |domains| ==> domains[i] != domains[j]
    ensures Distinct(domains)
    decreases |domains|
  {
    if domains != [] {
      DistinctIntro(domains[1..]);
    }
  }

  /** A new key after distinct keys keeps them distinct. */
  lemma {:induction false} DistinctSnoc(domains: seq<Domain>, d: Domain)
    requires Distinct(domains) && d !in domains
    ensures Distinct(domains + [d])
    decreases |domains|
  {
    if domains != [] {
      DistinctSnoc(domains[1..], d);
      assert (domains + [d])[1..] == domains[1..] + [d];
    }
  }

  /** The dictionary the grouping loop builds from tagged addresses, keys in first-seen order,
      with distinct keys; `GroupsSelect` states what the lists hold. */
  function Groups(tagged: seq<(Domain, Email)>): (r: (seq<Domain>, seq<seq<Email>>))
    ensures |r.0| == |r.1|
    ensures Distinct(r.0)
  {
    if tagged == [] then ([], [])
    else
      var (domains, lists) := Groups(tagged[..|tagged| - 1]);
      var (d, e) := tagged[|tagged| - 1];
      if d !in domains then
        DistinctSnoc(domains, d);
        AddTo(domains, lists, d, e)
      else
        AddTo(domains, lists, d, e)
  }

  /** The keys are exactly the tags, and each key's list is exactly its addresses, in input
      order; so no list is empty. */
  lemma {:induction false} GroupsSelect(tagged: seq<(Domain, Email)>)
    ensures var (domains, lists) := Groups(tagged);
      && (forall i :: 0 <= i < |domains| ==> lists[i] == Select(tagged, domains[i]) && lists[i] != [])
      && (forall k :: 0 <= k < |tagged| ==> tagged[k].0 in domains)
    decreases |tagged|
  {
    if tagged != [] {
      var init := tagged[..|tagged| - 1];
      GroupsSelect(init);
      var (domains, lists) := Groups(init);
      var (d, e) := tagged[|tagged| - 1];
      assert tagged == init + [(d, e)];
      AddToSelect(init, domains, lists, d, e);
    }
  }

  /** One step of `GroupsSelect`: adding a tagged address to lists that hold exactly the
      earlier addresses of their keys. */
  lemma AddToSelect(init: seq<(Domain, Email)>, domains: seq<Domain>, lists: seq<seq<Email>>, d: Domain, e: Email)
    requires |domains| == |lists| && Distinct(domains)
    requires forall i :: 0 <= i < |domains| ==> lists[i] == Select(init, domains[i]) && lists[i] != []
    requires forall k :: 0 <= k < |init| ==> init[k].0 in domains
    ensures var (domains', lists') := AddTo(domains, lists, d, e);
      && (forall i :: 0 <= i < |domains'| ==> lists'[i] == Select(init + [(d, e)], domains'[i]) && lists'[i] != [])
      && (forall k :: 0 <= k < |init| + 1 ==> (init + [(d, e)])[k].0 in domains')
  {
    var (domains', lists') := AddTo(domains, lists, d, e);
    var tagged := init + [(d, e)];
    forall i | 0 <= i < |domains'|
      ensures lists'[i] == Select(tagged, domains'[i]) && lists'[i] != []
    {
      SelectSnoc(init, d, e, domains'[i]);
      if d in domains {
        var at := IndexOf(domains, d);
        if i != at && domains[i] == d {
          DistinctAt(domains, i, at);
        }
      } else if i == |domains| {
        assert Select(init, d) == [];
      }
    }
    forall k | 0 <= k < |tagged| ensures tagged[k].0 in domains' {
      if k < |init| {
        assert tagged[k] == init[k];
      }
    }
  }

  /** Grouping one more tagged address adds it to the dictionary built so far. */
  lemma GroupsSnoc(tagged: seq<(Domain, Email)>, d: Domain, e: Email)
    ensures Groups(tagged + [(d, e)]) == AddTo(Groups(tagged).0, Groups(tagged).1, d, e)
  {
    assert (tagged + [(d, e)])[..|tagged|] == tagged;
  }

  /** The dictionary for one more address of a list is the dictionary so far with the address
      added under its key. */
  lemma ClassifyStep(emails: seq<Email>, i: nat)
    requires i < |emails|
    ensures Groups(Tag(emails[..i + 1]))
         == AddTo(Groups(Tag(emails[..i])).0, Groups(Tag(emails[..i])).1, Key(emails[i]), emails[i])
  {
    TagSnoc(emails, i);
    GroupsSnoc(Tag(emails[..i]), Key(emails[i]), emails[i]);
  }

  /** One more tagged address extends the list of its own key only. */
  lemma SelectSnoc(init: seq<(Domain, Email)>, d: Domain, e: Email, x: Domain)
    ensures Select(init + [(d, e)], x) == Select(init, x) + (if d == x then [e] else [])
  {
    assert (init + [(d, e)])[..|init|] == init;
  }

  /** `classify`'s dictionary for a list of addresses. */
  function Classified(emails: seq<Email>): (seq<Domain>, seq<seq<Email>>) {
    Groups(Tag(emails))
  }

  /** Every key is the key of some address and every address's key is a key. */
  lemma ClassifiedKeys(emails: seq<Email>)
    ensures forall d :: d in Classified(emails).0 <==> exists k :: 0 <= k < |emails| && Key(emails[k]) == d
  {
    var tagged := Tag(emails);
    var (domains, lists) := Groups(tagged);
    GroupsSelect(tagged);
    forall d | d in domains
      ensures exists k :: 0 <= k < |emails| && Key(emails[k]) == d
    {
      var k :| 0 <= k < |tagged| && tagged[k].0 == d;
      assert Key(emails[k]) == d;
    }
    forall d | exists k :: 0 <= k < |emails| && Key(emails[k]) == d
      ensures d in domains
    {
      var k :| 0 <= k < |emails| && Key(emails[k]) == d;
      assert tagged[k].0 == d;
    }
  }

  /** An address is in the list of a key exactly when that key is its own. */
  lemma ClassifiedLists(emails: seq<Email>, e: Email)
    ensures var (domains, lists) := Classified(emails);
      forall i :: 0 <= i < |domains| ==> (e in lists[i] <==> e in emails && Key(e) == domains[i])
  {
    var tagged := Tag(emails);
    var (domains, lists) := Groups(tagged);
    GroupsSelect(tagged);
    forall i | 0 <= i < |domains|
      ensures e in lists[i] <==> e in emails && Key(e) == domains[i]
    {
      assert e in lists[i] <==> (domains[i], e) in tagged;
      TaggedMember(emails, domains[i], e);
    }
  }

  /** An address of the input is in exactly one list. */
  lemma ClassifiedOnce(emails: seq<Email>, e: Email)
    ensures var (domains, lists) := Classified(emails);
      && (e in emails ==> exists i :: 0 <= i < |domains| && e in lists[i])
      && (forall i, j :: 0 <= i < |domains| && 0 <= j < |domains| && e in lists[i] && e in lists[j] ==> i == j)
  {
    var (domains, lists) := Classified(emails);
    ClassifiedLists(emails, e);
    if e in emails {
      ClassifiedKeys(emails);
      var k :| 0 <= k < |emails| && emails[k] == e;
      var i := IndexOf(domains, Key(e));
      assert e in lists[i];
    }
    forall i, j | 0 <= i < |domains| && 0 <= j < |domains| && e in lists[i] && e in lists[j]
      ensures i == j
    {
      DistinctAt(domains, i, j);
    }
  }

  /** The tagged addresses are the input's addresses, each with its own key. */
  lemma TaggedMember(emails: seq<Email>, d: Domain, e: Email)
    ensures (d, e) in Tag(emails) <==> e in emails && Key(e) == d
  {
    var tagged := Tag(emails);
    if e in emails {
      var k :| 0 <= k < |emails| && emails[k] == e;
      assert tagged[k] == (Key(e), e);
    }
  }

  /** Python's `sum(lists, [])`. */
  function Flatten(lists: seq<seq<Email>>): seq<Email> {
    if lists == [] then [] else lists[0] + Flatten(lists[1..])
  }

  lemma {:induction false} FlattenAppend(a: seq<seq<Email>>, b: seq<seq<Email>>)
    ensures Flatten(a + b) == Flatten(a) + Flatten(b)
    decreases |a|
  {
    if a != [] {
      FlattenAppend(a[1..], b);
      assert (a + b)[1..] == a[1..] + b;
      assert Flatten(a + b) == a[0] + Flatten(a[1..] + b);
      assert a[0] + (Flatten(a[1..]) + Flatten(b)) == (a[0] + Flatten(a[1..])) + Flatten(b);
    } else {
      assert a + b == b;
    }
  }

  /** Appending to one list adds exactly the appended items to the whole. */
  lemma {:induction false} FlattenUpdate(lists: seq<seq<Email>>, i: nat, x: seq<Email>)
    requires i < |lists|
    ensures multiset(Flatten(lists[i := lists[i] + x])) == multiset(Flatten(lists)) + multiset(x)
    decreases |lists|
  {
    if i > 0 {
      FlattenUpdate(lists[1..], i - 1, x);
      assert lists[i := lists[i] + x][1..] == lists[1..][i - 1 := lists[i] + x];
    } else {
      assert lists[i := lists[i] + x][1..] == lists[1..];
    }
  }

  /** The addresses of tagged pairs, in order. */
  function Untag(tagged: seq<(Domain, Email)>): (r: seq<Email>)
    ensures |r| == |tagged|
    ensures forall k :: 0 <= k < |r| ==> r[k] == tagged[k].1
  {
    if tagged == [] then [] else Untag(tagged[..|tagged| - 1]) + [tagged[|tagged| - 1].1]
  }

  /** The lists of the dictionary hold every address once: together they are a permutation of
      the input. */
  lemma {:induction false} GroupsConserve(tagged: seq<(Domain, Email)>)
    ensures multiset(Flatten(Groups(tagged).1)) == multiset(Untag(tagged))
    decreases |tagged|
  {
    if tagged != [] {
      var init := tagged[..|tagged| - 1];
      GroupsConserve(init);
      var (domains, lists) := Groups(init);
      var (d, e) := tagged[|tagged| - 1];
      assert Untag(tagged) == Untag(init) + [e];
      if d in domains {
        FlattenUpdate(lists, IndexOf(domains, d), [e]);
      } else {
        FlattenAppend(lists, [[e]]);
        assert Flatten([[e]]) == [e];
      }
    }
  }

  /** Every address ends up in `classify`'s dictionary once: its lists together are a
      permutation of the input. */
  lemma ClassifiedConserves(emails: seq<Email>)
    ensures multiset(Flatten(Classified(emails).1)) == multiset(emails)
  {
    GroupsConserve(Tag(emails));
    assert Untag(Tag(emails)) == emails;
  }

  /** The dictionary `classify` returns and `_get_batches` then drains in place: the keys in
      insertion order and each key's list at the same position. */
  class Grouping {
    var domains: seq<Domain>
    var lists: seq<seq<Email>>

    ghost predicate Valid()
      reads this
    {
      |domains| == |lists| && Distinct(domains)
    }

    constructor ()
      ensures domains == [] && lists == []
      ensures Valid()
    {
      domains := [];
      lists := [];
    }

    /** Append `e` under `d`, opening a new list after the others when `d` is new. */
    method Add(d: Domain, e: Email)
      requires Valid()
      modifies this
      ensures (domains, lists) == AddTo(old(domains), old(lists), d, e)
      ensures Valid()
    {
      if d in domains {
        var i := IndexOf(domains, d);
        lists := lists[i := lists[i] + [e]];
      } else {
        DistinctSnoc(domains, d);
        domains := domains + [d];
        lists := lists + [[e]];
      }
    }

    /** The loop body of `classify` for the `i`-th address: the grouping of the addresses before
        it becomes the grouping of those up to and including it. */
    method AddNext(emails: seq<Email>, i: nat)
      requires i < |emails| && Valid()
      requires (domains, lists) == Groups(Tag(emails[..i]))
      modifies this
      ensures Valid()
      ensures (domains, lists) == Groups(Tag(emails[..i + 1]))
    {
      ClassifyStep(emails, i);
      Add(Key(emails[i]), emails[i]);
    }
  }

  /** The classifier. `ignoreCn`, `domainsCn` and `emailsDone` are fixed once it is built; the
      list to classify and the two removed lists change as the passes run. */
  class EmailClassifier {
    const ignoreCn: bool
    const domainsCn: set<string>
    const emailsDone: seq<Email>
    var emailList: seq<Email>
    var removedCn: seq<Email>
    var removedDone: seq<Email>

    /** `__init__`: denylist pass, then done pass, on the loaded addresses. */
    constructor (emails: seq<Email>, done: seq<Email>, ignoreCn: bool, domainsCn: set<string>)
      ensures this.ignoreCn == ignoreCn && this.domainsCn == domainsCn && emailsDone == done
      ensures Screened(emailList, removedCn, removedDone) == Screen(emails, done, ignoreCn, domainsCn)
    {
      this.ignoreCn := ignoreCn;
      this.domainsCn := domainsCn;
      emailsDone := done;
      emailList := emails;
      removedCn := [];
      removedDone := [];
      new;
      RemoveEmailsCn();
      RemoveEmailsDone();
    }

    /** `_is_cn_domain`: tries the denylist entries one by one and stops at the first match. */
    method IsCnDomain(email: Email) returns (r: bool)
      ensures r == IsCn(domainsCn, email)
    {
      var rest := domainsCn;
      while rest != {}
        invariant rest <= domainsCn
        invariant forall d :: d in domainsCn && d !in rest ==> !Contains(email, d)
        decreases |rest|
      {
        var d :| d in rest;
        if Contains(email, d) {
          return true;
        }
        rest := rest - {d};
      }
      return false;
    }

    /** `_remove_emails_cn`. */
    method RemoveEmailsCn()
      modifies this
      ensures removedDone == old(removedDone)
      ensures !ignoreCn ==> emailList == old(emailList) && removedCn == old(removedCn)
      ensures ignoreCn ==> (emailList, removedCn) == Partition(old(emailList), Denylist(domainsCn))
    {
      if !ignoreCn {
        return;
      }
      var list, kept, removed := emailList, [], [];
      for i := 0 to |list|
        invariant (kept, removed) == Partition(list[..i], Denylist(domainsCn))
        invariant unchanged(this)
      {
        var em := list[i];
        assert list[..i + 1][..i] == list[..i];
        var cn := IsCnDomain(em);
        if cn {
          removed := removed + [em];
        } else {
          kept := kept + [em];
        }
      }
      assert list[..|list|] == list;
      emailList := kept;
      removedCn := removed;
    }

    /** `_remove_emails_done`. */
    method RemoveEmailsDone()
      modifies this
      ensures removedCn == old(removedCn)
      ensures emailsDone == [] ==> emailList == old(emailList) && removedDone == old(removedDone)
      ensures emailsDone != [] ==> (emailList, removedDone) == Partition(old(emailList), AlreadyDone(emailsDone))
    {
      if emailsDone == [] {
        return;
      }
      var list, kept, removed := emailList, [], [];
      for i := 0 to |list|
        invariant (kept, removed) == Partition(list[..i], AlreadyDone(emailsDone))
      {
        var em := list[i];
        assert list[..i + 1][..i] == list[..i];
        if em in emailsDone {
          removed := removed + [em];
        } else {
          kept := kept + [em];
        }
      }
      assert list[..|list|] == list;
      emailList := kept;
      removedDone := removed;
    }

    /** `classify`: `None` when some address has no `@` (where Python raises `IndexError`),
        otherwise a fresh grouping equal to `Classified` of the list. */
    method Classify() returns (r: Option<Grouping>)
      ensures r.None? <==> !AllAddressed(emailList)
      ensures r.Some? ==> fresh(r.value) && r.value.Valid()
      ensures r.Some? ==> (r.value.domains, r.value.lists) == Classified(emailList)
    {
      var g := new Grouping();
      var list := emailList;
      for i := 0 to |list|
        invariant AllAddressed(list[..i])
        invariant fresh(g) && g.Valid()
        invariant (g.domains, g.lists) == Groups(Tag(list[..i]))
      {
        var email := list[i];
        if '@' !in email {
          if AllAddressed(list) {
            AllAddressedAt(list, i);
          }
          return None;
        }
        assert list[..i + 1][..i] == list[..i];
        g.AddNext(list, i);
      }
      assert list[..|list|] == list;
      return Some(g);
    }
  }
}
