/**
 * The "oldest pull requests" report: every open pull request paired with its
 * age in seconds, the pairs stably sorted by age from oldest to newest, and
 * the first three kept.
 */
module Oldest {
  import opened Stash

  /** How many pull requests the report keeps. */
  const Limit: nat := 3

  const U64Modulus := 0x1_0000_0000_0000_0000

  /** A pull request paired with its age, the `(val, delta)` tuple of the source. */
  datatype AgedPullRequest = AgedPullRequest(pr: PullRequest, age: u64)

  /** The creation time in whole seconds: milliseconds divided by 1000, rounded down. */
  function CreatedSeconds(pr: PullRequest): u64
  {
    pr.createdEpoch / 1000
  }

  /**
   * The age exactly as written: `current_epoch - created_epoch_in_sec` on u64,
   * which wraps around for a creation time later than `now` (release build).
   */
  function WrappingAge(pr: PullRequest, now: u64): u64
  {
    (now - CreatedSeconds(pr)) % U64Modulus
  }

  /**
   * The age as intended: seconds elapsed since creation, and zero for a
   * creation time that lies in the future.
   */
  function Age(pr: PullRequest, now: u64): (age: u64)
    ensures age <= now
    ensures CreatedSeconds(pr) <= now ==> CreatedSeconds(pr) + age == now && age == WrappingAge(pr, now)
    ensures now < CreatedSeconds(pr) ==> age == 0
  {
    if now < CreatedSeconds(pr) then 0 else now - CreatedSeconds(pr)
  }

  /** The `map` step, apis.rs lines 305 to 322. */
  function WithAges(prs: seq<PullRequest>, now: u64): (aged: seq<AgedPullRequest>)
    ensures |aged| == |prs|
    ensures forall i :: 0 <= i < |prs| ==> aged[i] == AgedPullRequest(prs[i], Age(prs[i], now))
  {
    if prs == [] then [] else [AgedPullRequest(prs[0], Age(prs[0], now))] + WithAges(prs[1..], now)
  }

  /** The `map` step with the subtraction as written. */
  function WithWrappingAges(prs: seq<PullRequest>, now: u64): (aged: seq<AgedPullRequest>)
    ensures |aged| == |prs|
    ensures forall i :: 0 <= i < |prs| ==> aged[i] == AgedPullRequest(prs[i], WrappingAge(prs[i], now))
  {
    if prs == [] then [] else [AgedPullRequest(prs[0], WrappingAge(prs[0], now))] + WithWrappingAges(prs[1..], now)
  }

  predicate SortedByAgeDescending(s: seq<AgedPullRequest>)
  {
    forall i, j :: 0 <= i < j < |s| ==> s[i].age >= s[j].age
  }

  /** Puts `x` before the first element that is not older than it, so ties keep `x` first. */
  function Insert(x: AgedPullRequest, s: seq<AgedPullRequest>): seq<AgedPullRequest>
  {
    if s == [] || x.age >= s[0].age then [x] + s else [s[0]] + Insert(x, s[1..])
  }

  /**
   * `sort_by(|a, b| a.1.cmp(&b.1).reverse())`: a stable sort from the largest
   * age to the smallest, written as an insertion sort.
   */
  function SortByAgeDescending(s: seq<AgedPullRequest>): seq<AgedPullRequest>
  {
    if s == [] then [] else Insert(s[0], SortByAgeDescending(s[1..]))
  }

  /** `take(limit)`: the first `limit` elements, or all of them when there are fewer. */
  function Take(s: seq<AgedPullRequest>, limit: nat): (r: seq<AgedPullRequest>)
    ensures |r| == if limit < |s| then limit else |s|
    ensures r <= s
  {
    if limit < |s| then s[..limit] else s
  }

  /** `map(|val| val.0)`: the pull requests without their ages. */
  function Prs(s: seq<AgedPullRequest>): (r: seq<PullRequest>)
    ensures |r| == |s|
    ensures forall i :: 0 <= i < |s| ==> r[i] == s[i].pr
  {
    seq(|s|, i requires 0 <= i < |s| => s[i].pr)
  }

  /** The oldest `Limit` pull requests of `prs`, by the intended age. */
  function OldestOf(prs: seq<PullRequest>, now: u64): seq<PullRequest>
  {
    Prs(Top(prs, now))
  }

  /** The oldest `Limit` pull requests of `prs`, by the age as written. */
  function OldestOfAsWritten(prs: seq<PullRequest>, now: u64): seq<PullRequest>
  {
    Prs(Take(SortByAgeDescending(WithWrappingAges(prs, now)), Limit))
  }

  /** `get_oldest_pr`: the open pull requests, ranked at time `now` (seconds since the epoch). */
  function OldestPullRequests(list: PageSource, now: u64): (r: Fetched<seq<PullRequest>>)
    ensures list(Open).Failed? ==> r == Failed(list(Open).error)
    ensures list(Open).Ok? ==> r == Ok(OldestOf(list(Open).value.values, now))
  {
    match list(Open)
    case Failed(e) => Failed(e)
    case Ok(page) => Ok(OldestOf(page.values, now))
  }

  // The sort.

  lemma {:induction false} InsertElements(x: AgedPullRequest, s: seq<AgedPullRequest>)
    ensures |Insert(x, s)| == |s| + 1
    ensures forall y :: y in Insert(x, s) <==> y == x || y in s
    ensures multiset(Insert(x, s)) == multiset(s) + multiset{x}
  {
    if s != [] && x.age < s[0].age {
      InsertElements(x, s[1..]);
      assert s == [s[0]] + s[1..];
    }
  }

  lemma {:induction false} InsertKeepsOrder(x: AgedPullRequest, s: seq<AgedPullRequest>)
    requires SortedByAgeDescending(s)
    ensures SortedByAgeDescending(Insert(x, s))
  {
    if s != [] && x.age < s[0].age {
      InsertKeepsOrder(x, s[1..]);
      var rest := Insert(x, s[1..]);
      InsertElements(x, s[1..]);
      var r := Insert(x, s);
      assert r == [s[0]] + rest;
      forall j | 0 < j < |r| ensures s[0].age >= r[j].age {
        assert r[j] == rest[j - 1];
        assert rest[j - 1] in rest;
        if rest[j - 1] != x {
          var m :| 0 <= m < |s[1..]| && s[1..][m] == rest[j - 1];
          assert s[m + 1] == rest[j - 1];
        }
      }
      forall i, j | 0 < i < j < |r| ensures r[i].age >= r[j].age {
        assert r[i] == rest[i - 1] && r[j] == rest[j - 1];
      }
    }
  }

  /** The sort orders by age, oldest first, and only rearranges. */
  lemma {:induction false} SortOrdersAndPermutes(s: seq<AgedPullRequest>)
    ensures SortedByAgeDescending(SortByAgeDescending(s))
    ensures multiset(SortByAgeDescending(s)) == multiset(s)
    ensures |SortByAgeDescending(s)| == |s|
  {
    if s != [] {
      SortOrdersAndPermutes(s[1..]);
      InsertKeepsOrder(s[0], SortByAgeDescending(s[1..]));
      InsertElements(s[0], SortByAgeDescending(s[1..]));
      assert s == [s[0]] + s[1..];
    }
  }

  /** The pairs of `s` whose age is `a`, in their order in `s`. */
  function OfAge(s: seq<AgedPullRequest>, a: u64): seq<AgedPullRequest>
  {
    if s == [] then [] else (if s[0].age == a then [s[0]] else []) + OfAge(s[1..], a)
  }

  lemma {:induction false} InsertOfAge(x: AgedPullRequest, s: seq<AgedPullRequest>, a: u64)
    ensures OfAge(Insert(x, s), a) == (if x.age == a then [x] else []) + OfAge(s, a)
  {
    var own := if x.age == a then [x] else [];
    if s == [] || x.age >= s[0].age {
      assert ([x] + s)[1..] == s;
    } else {
      var head := if s[0].age == a then [s[0]] else [];
      var r := Insert(x, s[1..]);
      InsertOfAge(x, s[1..], a);
      assert ([s[0]] + r)[1..] == r;
      assert OfAge(Insert(x, s), a) == head + (own + OfAge(s[1..], a));
      assert OfAge(s, a) == head + OfAge(s[1..], a);
      assert head == [] || own == [];
    }
  }

  /** Stability: among pull requests of equal age, the sort keeps the listing order. */
  lemma {:induction false} SortIsStable(s: seq<AgedPullRequest>, a: u64)
    ensures OfAge(SortByAgeDescending(s), a) == OfAge(s, a)
  {
    if s != [] {
      SortIsStable(s[1..], a);
      InsertOfAge(s[0], SortByAgeDescending(s[1..]), a);
    }
  }

  lemma {:induction false} OfAgeOfPrefix(s: seq<AgedPullRequest>, k: nat, a: u64)
    requires k <= |s|
    ensures OfAge(s[..k], a) <= OfAge(s, a)
  {
    if k > 0 {
      OfAgeOfPrefix(s[1..], k - 1, a);
      assert s[..k][1..] == s[1..][..k - 1];
    }
  }

  // The report.

  /** In a sorted sequence, the first `k` are at least as old as everything after them. */
  lemma PrefixDominates(sorted: seq<AgedPullRequest>, k: nat)
    requires SortedByAgeDescending(sorted) && k <= |sorted|
    ensures multiset(sorted[..k]) <= multiset(sorted)
    ensures forall x, y :: x in sorted[..k] && y in multiset(sorted) - multiset(sorted[..k]) ==> x.age >= y.age
  {
    var top, rest := sorted[..k], sorted[k..];
    assert sorted == top + rest;
    assert multiset(sorted) == multiset(top) + multiset(rest);
    forall x, y | x in top && y in multiset(sorted) - multiset(top) ensures x.age >= y.age {
      assert y in rest;
      var i :| 0 <= i < |top| && top[i] == x;
      var j :| 0 <= j < |rest| && rest[j] == y;
      assert sorted[i] == x && sorted[k + j] == y;
    }
  }

  /** The sort keeps every pair's age equal to its pull request's age. */
  lemma SortedAgesMatch(prs: seq<PullRequest>, now: u64, sorted: seq<AgedPullRequest>)
    requires sorted == SortByAgeDescending(WithAges(prs, now))
    ensures forall i :: 0 <= i < |sorted| ==> sorted[i].age == Age(sorted[i].pr, now)
  {
    var aged := WithAges(prs, now);
    SortOrdersAndPermutes(aged);
    forall i | 0 <= i < |sorted| ensures sorted[i].age == Age(sorted[i].pr, now) {
      assert sorted[i] in multiset(aged);
    }
  }

  /** The ranked pairs kept by the report. */
  function Top(prs: seq<PullRequest>, now: u64): seq<AgedPullRequest>
  {
    Take(SortByAgeDescending(WithAges(prs, now)), Limit)
  }

  /** At most `Limit` pull requests come back, oldest first, each kept with its own age. */
  lemma OldestRanked(prs: seq<PullRequest>, now: u64)
    ensures var top := Top(prs, now);
            var r := OldestOf(prs, now);
            |r| == (if Limit < |prs| then Limit else |prs|) &&
            r == Prs(top) &&
            (forall i :: 0 <= i < |top| ==> top[i].age == Age(r[i], now)) &&
            (forall i, j :: 0 <= i < j < |r| ==> Age(r[i], now) >= Age(r[j], now))
  {
    var sorted := SortByAgeDescending(WithAges(prs, now));
    SortOrdersAndPermutes(WithAges(prs, now));
    SortedAgesMatch(prs, now, sorted);
    var k := if Limit < |sorted| then Limit else |sorted|;
    var top := Top(prs, now);
    var r := OldestOf(prs, now);
    assert top == sorted[..k];
    forall i | 0 <= i < |top| ensures top[i].age == Age(r[i], now) {
      assert top[i] == sorted[i] && r[i] == top[i].pr;
      assert sorted[i].age == Age(sorted[i].pr, now);
    }
    forall i, j | 0 <= i < j < |r| ensures Age(r[i], now) >= Age(r[j], now) {
      assert top[i] == sorted[i] && top[j] == sorted[j];
    }
  }

  /**
   * The kept pull requests are among the listed ones, and no pull request left
   * out is older than one that was kept.
   */
  lemma OldestAreTheOldest(prs: seq<PullRequest>, now: u64)
    ensures var aged := WithAges(prs, now);
            var top := Top(prs, now);
            multiset(top) <= multiset(aged) &&
            (forall x, y :: x in top && y in multiset(aged) - multiset(top) ==> x.age >= y.age)
  {
    var aged := WithAges(prs, now);
    var sorted := SortByAgeDescending(aged);
    SortOrdersAndPermutes(aged);
    var k := if Limit < |sorted| then Limit else |sorted|;
    assert Top(prs, now) == sorted[..k];
    PrefixDominates(sorted, k);
  }

  /** Pull requests of equal age are reported in listing order. */
  lemma OldestKeepsListingOrder(prs: seq<PullRequest>, now: u64, a: u64)
    ensures OfAge(Top(prs, now), a) <= OfAge(WithAges(prs, now), a)
  {
    var sorted := SortByAgeDescending(WithAges(prs, now));
    var k := if Limit < |sorted| then Limit else |sorted|;
    assert Top(prs, now) == sorted[..k];
    OfAgeOfPrefix(sorted, k, a);
    SortIsStable(WithAges(prs, now), a);
  }

  // The unguarded subtraction.

  /** Where no creation time is in the future, the ranking as written and as intended agree. */
  lemma AsWrittenAgreesOnValidInput(prs: seq<PullRequest>, now: u64)
    requires forall i :: 0 <= i < |prs| ==> CreatedSeconds(prs[i]) <= now
    ensures OldestOfAsWritten(prs, now) == OldestOf(prs, now)
  {
    assert WithWrappingAges(prs, now) == WithAges(prs, now);
  }

  /**
   * As written, a creation time just one second in the future wraps around to
   * an age above that of every pull request really created in the past, so it
   * is reported as the oldest. The intended age ranks it as the newest.
   */
  lemma FutureCreationOutranksAsWritten(future: PullRequest, past: PullRequest, now: u64)
    requires now < CreatedSeconds(future) && CreatedSeconds(past) <= now
    requires now < 0x8000_0000_0000_0000
    ensures WrappingAge(future, now) > WrappingAge(past, now)
    ensures Age(future, now) <= Age(past, now)
  {
    var c := CreatedSeconds(future);
    assert c < 0x1_0000_0000_0000_0000 / 1000 + 1;
    assert WrappingAge(future, now) == now - c + U64Modulus;
  }

  lemma SortPair(a: AgedPullRequest, b: AgedPullRequest)
    ensures SortByAgeDescending([a, b]) == if a.age >= b.age then [a, b] else [b, a]
  {
    assert [a, b][1..] == [b] && [b][1..] == [];
    assert SortByAgeDescending([b]) == [b];
    assert Insert(a, []) == [a];
  }

  function SamplePullRequest(id: i32, createdEpoch: u64): PullRequest
  {
    PullRequest(id, 0, "", Open, createdEpoch, None, Author(User("", "")))
  }

  /**
   * With the clock at 1 700 000 000 s, a pull request from the year 2001 and
   * one stamped a second ahead: as written the future one comes first.
   */
  lemma FutureCreationListedFirst()
    ensures var past := SamplePullRequest(1, 1_000_000_000_000);
            var future := SamplePullRequest(2, 1_700_000_001_000);
            OldestOfAsWritten([past, future], 1_700_000_000) == [future, past] &&
            OldestOf([past, future], 1_700_000_000) == [past, future]
  {
    var past := SamplePullRequest(1, 1_000_000_000_000);
    var future := SamplePullRequest(2, 1_700_000_001_000);
    var now: u64 := 1_700_000_000;
    var wrapped := WithWrappingAges([past, future], now);
    assert wrapped == [AgedPullRequest(past, 700_000_000), AgedPullRequest(future, U64Modulus - 1)];
    SortPair(wrapped[0], wrapped[1]);
    var intended := WithAges([past, future], now);
    assert intended == [AgedPullRequest(past, 700_000_000), AgedPullRequest(future, 0)];
    SortPair(intended[0], intended[1]);
  }
}
