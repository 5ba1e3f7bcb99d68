/**
 * The review report: one `Review` per open pull request, in listing order,
 * holding that pull request's classified diff lines. A listing or diff fetch
 * that fails aborts the whole report.
 */
module Reviews {
  import opened Stash
  import opened DiffClassifier

  datatype Review = Review(id: i32, title: string, diffs: seq<Diff>)

  /** The diff request, `pull-requests/<id>/diff`, as a function of the pull request's id. */
  type DiffSource = i32 -> Fetched<PullRequestDiffs>

  function ReviewOf(pr: PullRequest, response: PullRequestDiffs): Review
  {
    Review(pr.id, pr.title, ResponseDiffs(response))
  }

  /** The reviews of `prs`, fetching their diffs in order and stopping at the first failure. */
  function ReviewsFor(prs: seq<PullRequest>, fetch: DiffSource): Fetched<seq<Review>>
  {
    if prs == [] then Ok([])
    else
      match fetch(prs[0].id)
      case Failed(e) => Failed(e)
      case Ok(response) => Prepend([ReviewOf(prs[0], response)], ReviewsFor(prs[1..], fetch))
  }

  /** `done` followed by a result that may have failed. */
  function Prepend(done: seq<Review>, rest: Fetched<seq<Review>>): Fetched<seq<Review>>
  {
    match rest
    case Ok(reviews) => Ok(done + reviews)
    case Failed(e) => Failed(e)
  }

  /** What `list_all_reviews` answers: the listing of open pull requests, then their reviews. */
  function AllReviews(list: PageSource, fetch: DiffSource): (r: Fetched<seq<Review>>)
    ensures list(Open).Failed? ==> r == Failed(list(Open).error)
    ensures list(Open).Ok? ==> r == ReviewsFor(list(Open).value.values, fetch)
  {
    match list(Open)
    case Failed(e) => Failed(e)
    case Ok(page) => ReviewsFor(page.values, fetch)
  }

  /**
   * `list_all_reviews`, apis.rs lines 424 to 512: list the open pull requests, then
   * for each one fetch its diff, classify it and push its `Review`.
   */
  method ListAllReviews(list: PageSource, fetch: DiffSource) returns (r: Fetched<seq<Review>>)
    ensures r == AllReviews(list, fetch)
  {
    var listing := list(Open);
    if listing.Failed? {
      return Failed(listing.error);
    }
    var prs := listing.value.values;
    var reviews: seq<Review> := [];
    assert prs[0..] == prs;
    PrependNothing(ReviewsFor(prs, fetch));
    for i := 0 to |prs|
      invariant ReviewsFor(prs, fetch) == Prepend(reviews, ReviewsFor(prs[i..], fetch))
    {
      var pr := prs[i];
      assert prs[i..][0] == pr && prs[i..][1..] == prs[i + 1..];
      var response := fetch(pr.id);
      if response.Failed? {
        return Failed(response.error);
      }
      var diffs := CollectDiffs(response.value);
      PrependTwice(reviews, [Review(pr.id, pr.title, diffs)], ReviewsFor(prs[i + 1..], fetch));
      reviews := reviews + [Review(pr.id, pr.title, diffs)];
    }
    assert prs[|prs|..] == [];
    assert reviews + [] == reviews;
    return Ok(reviews);
  }

  lemma PrependNothing(rest: Fetched<seq<Review>>)
    ensures Prepend([], rest) == rest
  {
    if rest.Ok? {
      assert [] + rest.value == rest.value;
    }
  }

  lemma PrependTwice(a: seq<Review>, b: seq<Review>, rest: Fetched<seq<Review>>)
    ensures Prepend(a, Prepend(b, rest)) == Prepend(a + b, rest)
  {
    if rest.Ok? {
      assert a + (b + rest.value) == (a + b) + rest.value;
    }
  }

  /**
   * The report succeeds exactly when every diff fetch succeeds; it then holds
   * one review per pull request, in order, with the pull request's id and
   * title and its classified lines.
   */
  lemma {:induction false} ReviewsForSucceeds(prs: seq<PullRequest>, fetch: DiffSource)
    ensures ReviewsFor(prs, fetch).Ok? <==> forall i :: 0 <= i < |prs| ==> fetch(prs[i].id).Ok?
    ensures ReviewsFor(prs, fetch).Ok? ==>
      var reviews := ReviewsFor(prs, fetch).value;
      |reviews| == |prs| &&
      forall i :: 0 <= i < |prs| ==>
        reviews[i].id == prs[i].id && reviews[i].title == prs[i].title &&
        reviews[i].diffs == ResponseDiffs(fetch(prs[i].id).value)
  {
    if prs != [] {
      ReviewsForSucceeds(prs[1..], fetch);
      assert forall i :: 1 <= i < |prs| ==> prs[i] == prs[1..][i - 1];
    }
  }

  /** A failed report carries the error of the first pull request whose diff could not be fetched. */
  lemma {:induction false} ReviewsForFailsFast(prs: seq<PullRequest>, fetch: DiffSource)
    requires ReviewsFor(prs, fetch).Failed?
    ensures exists i :: 0 <= i < |prs| && fetch(prs[i].id) == Failed(ReviewsFor(prs, fetch).error) &&
                        (forall j :: 0 <= j < i ==> fetch(prs[j].id).Ok?)
  {
    var e := ReviewsFor(prs, fetch).error;
    if fetch(prs[0].id).Failed? {
      assert 0 < |prs| && fetch(prs[0].id) == Failed(e);
    } else {
      ReviewsForFailsFast(prs[1..], fetch);
      var k :| 0 <= k < |prs[1..]| && fetch(prs[1..][k].id) == Failed(e) &&
               (forall j :: 0 <= j < k ==> fetch(prs[1..][j].id).Ok?);
      assert prs[k + 1] == prs[1..][k];
      assert forall j :: 1 <= j < k + 1 ==> prs[j] == prs[1..][j - 1];
    }
  }
}
