/**
 * The pull-request records of the external review system (a Bitbucket Server,
 * "stash" in the service's settings) and the two requests the service makes
 * to it. The HTTP calls themselves are not modelled: a request is a function
 * from its argument to what the call produced, a decoded body or a failure.
 */
module Stash {

  type i32 = x: int | -0x8000_0000 <= x < 0x8000_0000
  type i64 = x: int | -0x8000_0000_0000_0000 <= x < 0x8000_0000_0000_0000
  type u64 = x: int | 0 <= x < 0x1_0000_0000_0000_0000

  datatype Option<T> = None | Some(value: T)

  datatype User = User(displayName: string, emailAddress: string)

  datatype Author = Author(user: User)

  /** `createdEpoch` is in milliseconds since the Unix epoch. */
  datatype PullRequest = PullRequest(
    id: i32,
    version: i32,
    title: string,
    state: string,
    createdEpoch: u64,
    closedEpoch: Option<i64>,
    author: Author)

  /** One page of the pull-request listing. */
  datatype PullRequestPage = PullRequestPage(size: i32, limit: i32, isLastPage: bool, values: seq<PullRequest>)

  /**
   * Why a request produced nothing: the transport failed (`send().unwrap()`),
   * or the body did not decode (`json().unwrap()`). Either one aborts the
   * whole handler.
   */
  datatype FetchError = Transport | MalformedBody

  datatype Fetched<T> = Ok(value: T) | Failed(error: FetchError)

  /** The listing request, `pull-requests?state=<state>&limit=1000`, as a function of the state. */
  type PageSource = string -> Fetched<PullRequestPage>

  const Open := "OPEN"
  const Merged := "MERGED"

  /** `get_merged_pr`: the merged pull requests exactly as listed, or the listing's failure. */
  function MergedPullRequests(list: PageSource): (r: Fetched<seq<PullRequest>>)
    ensures r.Ok? <==> list(Merged).Ok?
    ensures r.Ok? ==> r.value == list(Merged).value.values
    ensures r.Failed? ==> r.error == list(Merged).error
  {
    match list(Merged)
    case Ok(page) => Ok(page.values)
    case Failed(e) => Failed(e)
  }
}
