/** `listMyOpenPRs` in scripts/list-my-prs.js: pick the user, build the search query, and turn
    every search hit into a record of the JSON report. The GitHub API is a parameter: a value
    holding what each call returns for each argument. */
module PrReport {
  import opened Strings
  import opened PrActivity

  /** JavaScript truthiness of an environment variable: set and not empty. */
  predicate Truthy(v: Option<string>)
  {
    v.Some? && v.value != ""
  }

  /** Lines 93-101: a set GH_USER wins; otherwise the login of the authenticated user, or the
      error that call threw. */
  function TargetUser(envUser: Option<string>, authenticated: Response<string>): Response<string>
  {
    if Truthy(envUser) then Ok(envUser.value) else authenticated
  }

  /** Lines 104-107: the search qualifiers, with a repo qualifier when GH_REPO is set. */
  function SearchQuery(user: string, envRepo: Option<string>): string
  {
    "is:pr is:open author:" + user + (if Truthy(envRepo) then " repo:" + envRepo.value else "")
  }

  /** The qualifiers of the query, read back: always the open-PR and author terms, and the repo
      term exactly when GH_REPO is set (names without spaces, as GitHub logins and repository
      names are). */
  lemma SearchQueryTerms(user: string, envRepo: Option<string>)
    requires ' ' !in user
    requires envRepo.Some? ==> ' ' !in envRepo.value
    ensures Split(SearchQuery(user, envRepo), ' ') ==
      ["is:pr", "is:open", "author:" + user] + (if Truthy(envRepo) then ["repo:" + envRepo.value] else [])
  {
    var afterOpen := "author:" + user + (if Truthy(envRepo) then " repo:" + envRepo.value else "");
    QueryPrefix(afterOpen, user, envRepo);
    SplitTwoTerms("is:pr", "is:open", afterOpen);
    AuthorTerms(user, envRepo);
  }

  lemma SplitTwoTerms(a: string, b: string, rest: string)
    requires ' ' !in a && ' ' !in b
    ensures Split(a + [' '] + (b + [' '] + rest), ' ') == [a, b] + Split(rest, ' ')
  {
    SplitAfter(a, b + [' '] + rest, ' ');
    SplitAfter(b, rest, ' ');
  }

  lemma QueryPrefix(afterOpen: string, user: string, envRepo: Option<string>)
    requires afterOpen == "author:" + user + (if Truthy(envRepo) then " repo:" + envRepo.value else "")
    ensures SearchQuery(user, envRepo) == "is:pr" + [' '] + ("is:open" + [' '] + afterOpen)
  {
    assert "is:pr is:open author:" == "is:pr" + [' '] + ("is:open" + [' '] + "author:");
  }

  /** The author term and what follows it split into the author and repo terms. */
  lemma AuthorTerms(user: string, envRepo: Option<string>)
    requires ' ' !in user
    requires envRepo.Some? ==> ' ' !in envRepo.value
    ensures var afterOpen := "author:" + user + (if Truthy(envRepo) then " repo:" + envRepo.value else "");
      Split(afterOpen, ' ') == ["author:" + user] + (if Truthy(envRepo) then ["repo:" + envRepo.value] else [])
  {
    var author := "author:" + user;
    assert ' ' !in author;
    if Truthy(envRepo) {
      var tail := "repo:" + envRepo.value;
      assert ' ' !in tail;
      assert author + (" repo:" + envRepo.value) == author + [' '] + tail;
      SplitAfter(author, tail, ' ');
      assert Split(tail, ' ') == [tail];
    } else {
      assert author + "" == author;
    }
  }

  /** `arr.slice(-2)`: the last two elements, or all of them when there are fewer. */
  function LastTwo(parts: seq<string>): (r: seq<string>)
    ensures |parts| >= 2 ==> r == [parts[|parts| - 2], parts[|parts| - 1]]
    ensures |parts| < 2 ==> r == parts
  {
    if |parts| >= 2 then parts[|parts| - 2..] else parts
  }

  /** Line 146: the last two '/'-separated segments of the repository URL, joined by '/'. */
  function RepoName(repositoryUrl: string): string
  {
    Join(LastTwo(Split(repositoryUrl, '/')), '/')
  }

  /** Line 147: `[owner, repo] = repoName.split('/')`; `repo` is undefined when the name has no
      '/'. */
  function OwnerAndRepo(repoName: string): (string, Option<string>)
  {
    var parts := Split(repoName, '/');
    (parts[0], if |parts| >= 2 then Some(parts[1]) else None)
  }

  /** For an API repository URL `<prefix>/<owner>/<repo>` the name is `<owner>/<repo>`. */
  lemma RepoNameOfApiUrl(prefix: string, owner: string, repo: string)
    requires '/' !in owner && '/' !in repo
    ensures RepoName(prefix + "/" + owner + "/" + repo) == owner + "/" + repo
  {
    var url := prefix + "/" + owner + "/" + repo;
    assert url == prefix + ['/'] + (owner + ['/'] + repo);
    SplitConcat(prefix, owner + ['/'] + repo, '/');
    SplitAfter(owner, repo, '/');
    assert Split(repo, '/') == [repo];
    var parts := Split(prefix, '/') + [owner, repo];
    assert Split(url, '/') == parts;
    assert LastTwo(parts) == [owner, repo];
    assert [owner, repo][1..] == [repo];
    assert Join([owner, repo], '/') == owner + ['/'] + Join([repo], '/');
    assert RepoName(url) == Join([owner, repo], '/');
  }

  /** Owner and repo are the last two segments of the URL; when the URL has no '/', the owner
      is the whole URL and the repo is missing. */
  lemma OwnerAndRepoOfUrl(repositoryUrl: string)
    ensures var parts := Split(repositoryUrl, '/');
      OwnerAndRepo(RepoName(repositoryUrl)) ==
        if |parts| >= 2 then (parts[|parts| - 2], Some(parts[|parts| - 1])) else (parts[0], None)
  {
    var parts := Split(repositoryUrl, '/');
    var last := LastTwo(parts);
    assert forall k :: 0 <= k < |last| ==> '/' !in last[k];
    SplitJoin(last, '/');
  }

  /** One hit of the issue search. */
  datatype SearchItem = SearchItem(
    number: int,
    title: string,
    repositoryUrl: string,
    htmlUrl: string,
    state: string,
    createdAt: Timestamp,
    updatedAt: string)

  /** The search response: `total_count` and the page of items it returned. */
  datatype SearchResults = SearchResults(totalCount: nat, items: seq<SearchItem>)

  /** The arguments of the three activity calls for one pull request. */
  datatype ActivityRequest = ActivityRequest(owner: string, repo: Option<string>, number: int)

  /** What the GitHub API answers: the authenticated user's login, and each call as a function
      of its arguments. */
  datatype GitHub = GitHub(
    authenticated: Response<string>,
    search: string -> Response<SearchResults>,
    issueComments: ActivityRequest -> Response<seq<Comment>>,
    reviewComments: ActivityRequest -> Response<seq<Comment>>,
    reviews: ActivityRequest -> Response<seq<Review>>)

  /** The report's shape for a comment and for a review. */
  datatype CommentEntry = CommentEntry(author: string, body: string, createdAt: string, url: string)
  datatype ReviewEntry = ReviewEntry(author: string, state: string, submittedAt: string, url: string)

  datatype RecentActivity = RecentActivity(
    issueComments: seq<CommentEntry>,
    reviewComments: seq<CommentEntry>,
    reviews: seq<ReviewEntry>,
    totalCount: nat)

  /** One element of `pullRequests`. `daysOpen` is None where the script would write NaN (as
      JSON null): when `created_at` does not parse. */
  datatype PrRecord = PrRecord(
    number: int,
    title: string,
    repository: string,
    url: string,
    state: string,
    createdAt: string,
    updatedAt: string,
    daysOpen: Option<nat>,
    recentActivity: RecentActivity)

  /** The content of pr-report.json. */
  datatype Report = Report(generatedAt: string, user: string, totalPRs: nat, pullRequests: seq<PrRecord>)

  /** How a run ends: the report written, or the error lines printed before exiting with 1. */
  datatype Outcome = Saved(report: Report) | Exited(errors: seq<string>)

  const MissingToken: string := "Error: GH_PAT environment variable is not set"

  /** Lines 234-239: what the catch block prints for an API error. */
  function ApiErrors(status: int, message: string): (lines: seq<string>)
    ensures |lines| >= 1 && lines[0] == "Error fetching pull requests: " + message
    ensures |lines| == 2 <==> status == 401
    ensures status == 401 ==> lines[1] == "Authentication failed. Please check your GH_PAT."
  {
    ["Error fetching pull requests: " + message]
      + (if status == 401 then ["Authentication failed. Please check your GH_PAT."] else [])
  }

  function CommentEntryOf(c: Comment): CommentEntry
  {
    CommentEntry(c.login, c.body, c.createdAt.text, c.htmlUrl)
  }

  function ReviewEntryOf(r: Review): ReviewEntry
  {
    ReviewEntry(r.login, r.state, r.submittedAt.text, r.htmlUrl)
  }

  /** Lines 171-191: the activity as the report writes it, one entry per recent item. */
  function RecentActivityOf(a: Activity): (r: RecentActivity)
    ensures |r.issueComments| == |a.issueComments| && |r.reviewComments| == |a.reviewComments|
    ensures |r.reviews| == |a.reviews|
    ensures forall k :: 0 <= k < |a.issueComments| ==> r.issueComments[k] == CommentEntryOf(a.issueComments[k])
    ensures forall k :: 0 <= k < |a.reviewComments| ==> r.reviewComments[k] == CommentEntryOf(a.reviewComments[k])
    ensures forall k :: 0 <= k < |a.reviews| ==> r.reviews[k] == ReviewEntryOf(a.reviews[k])
    ensures r.totalCount == a.totalRecentActivity
  {
    RecentActivity(
      seq(|a.issueComments|, k requires 0 <= k < |a.issueComments| => CommentEntryOf(a.issueComments[k])),
      seq(|a.reviewComments|, k requires 0 <= k < |a.reviewComments| => CommentEntryOf(a.reviewComments[k])),
      seq(|a.reviews|, k requires 0 <= k < |a.reviews| => ReviewEntryOf(a.reviews[k])),
      a.totalRecentActivity)
  }

  /** Lines 146-147 and 159: the activity calls for a search hit. */
  function RequestFor(item: SearchItem): ActivityRequest
  {
    var (owner, repo) := OwnerAndRepo(RepoName(item.repositoryUrl));
    ActivityRequest(owner, repo, item.number)
  }

  function ActivityOf(gh: GitHub, item: SearchItem, cutoff: int): Activity
  {
    var req := RequestFor(item);
    FetchPRActivity(gh.issueComments(req), gh.reviewComments(req), gh.reviews(req), cutoff)
  }

  function DaysOpenOf(created: Stamp, now: int): Option<nat>
  {
    if created.At? then Some(DaysOpen(created.ms, now)) else None
  }

  /** Lines 146-192: the record for one search hit. */
  function RecordOf(item: SearchItem, activity: Activity, now: int): (r: PrRecord)
    ensures r.number == item.number && r.title == item.title && r.url == item.htmlUrl
    ensures r.state == item.state && r.createdAt == item.createdAt.text && r.updatedAt == item.updatedAt
    ensures r.repository == RepoName(item.repositoryUrl)
    ensures r.daysOpen.Some? <==> item.createdAt.at.At?
    ensures r.daysOpen.Some? ==> r.daysOpen.value == DaysOpen(item.createdAt.at.ms, now)
    ensures r.daysOpen.Some? ==> r.daysOpen.value * DayMs >= Abs(now - item.createdAt.at.ms)
    ensures r.daysOpen.Some? && r.daysOpen.value > 0 ==>
      (r.daysOpen.value - 1) * DayMs < Abs(now - item.createdAt.at.ms)
    ensures r.recentActivity == RecentActivityOf(activity)
    ensures r.recentActivity.totalCount == activity.totalRecentActivity
    ensures |r.recentActivity.issueComments| == |activity.issueComments|
    ensures |r.recentActivity.reviewComments| == |activity.reviewComments|
    ensures |r.recentActivity.reviews| == |activity.reviews|
  {
    PrRecord(item.number, item.title, RepoName(item.repositoryUrl), item.htmlUrl, item.state,
      item.createdAt.text, item.updatedAt, DaysOpenOf(item.createdAt.at, now), RecentActivityOf(activity))
  }

  /** The record written for one search hit: the hit with the activity fetched for it. */
  function RecordFor(gh: GitHub, item: SearchItem, cutoff: int, now: int): PrRecord
  {
    RecordOf(item, ActivityOf(gh, item, cutoff), now)
  }

  /** The activity count written for a pull request is the number of entries written for it,
      and none are written when any of its three activity calls failed. */
  lemma RecordActivityCounts(gh: GitHub, item: SearchItem, cutoff: int, now: int)
    ensures var r := RecordOf(item, ActivityOf(gh, item, cutoff), now).recentActivity;
      && r.totalCount == |r.issueComments| + |r.reviewComments| + |r.reviews|
      && (var req := RequestFor(item);
          gh.issueComments(req).Failed? || gh.reviewComments(req).Failed? || gh.reviews(req).Failed? ==>
            r.totalCount == 0)
  {
  }

  /** `listMyOpenPRs` from the token check to the report (lines 80-241), with the clock read
      once: `now` for the day counts, `cutoff` for recency, `generatedAt` for the timestamp. */
  method ListMyOpenPRs(
    token: Option<string>, envUser: Option<string>, envRepo: Option<string>,
    gh: GitHub, now: int, cutoff: int, generatedAt: string)
    returns (outcome: Outcome)
    ensures !Truthy(token) ==> outcome == Exited([MissingToken])
    ensures Truthy(token) && TargetUser(envUser, gh.authenticated).Failed? ==>
      outcome == Exited(ApiErrors(gh.authenticated.status, gh.authenticated.message))
    ensures Truthy(token) && TargetUser(envUser, gh.authenticated).Ok? ==>
      var user := TargetUser(envUser, gh.authenticated).value;
      var found := gh.search(SearchQuery(user, envRepo));
      && (found.Failed? ==> outcome == Exited(ApiErrors(found.status, found.message)))
      && (found.Ok? && found.value.totalCount == 0 ==> outcome == Saved(Report(generatedAt, user, 0, [])))
      && (found.Ok? && found.value.totalCount != 0 ==>
        && outcome.Saved?
        && outcome.report.generatedAt == generatedAt && outcome.report.user == user
        && outcome.report.totalPRs == found.value.totalCount
        && |outcome.report.pullRequests| == |found.value.items|
        && forall k :: 0 <= k < |found.value.items| ==>
          outcome.report.pullRequests[k] == RecordFor(gh, found.value.items[k], cutoff, now))
  {
    if !Truthy(token) {
      return Exited([MissingToken]);
    }
    var targetUser: string;
    if Truthy(envUser) {
      targetUser := envUser.value;
    } else {
      match gh.authenticated
      case Failed(status, message) =>
        return Exited(ApiErrors(status, message));
      case Ok(login) =>
        targetUser := login;
    }

    var query := "is:pr is:open author:" + targetUser;
    if Truthy(envRepo) {
      query := query + " repo:" + envRepo.value;
    }
    assert query == SearchQuery(targetUser, envRepo);

    var searchResults: SearchResults;
    match gh.search(query)
    case Failed(status, message) =>
      return Exited(ApiErrors(status, message));
    case Ok(results) =>
      searchResults := results;

    if searchResults.totalCount == 0 {
      return Saved(Report(generatedAt, targetUser, 0, []));
    }

    var pullRequests := CollectRecords(gh, searchResults.items, now, cutoff);
    outcome := Saved(Report(generatedAt, targetUser, searchResults.totalCount, pullRequests));
  }

  /** Lines 143-225: one record per search hit, pushed in search order, each built from the
      activity fetched for that hit's repository and number. */
  method CollectRecords(gh: GitHub, items: seq<SearchItem>, now: int, cutoff: int)
    returns (pullRequests: seq<PrRecord>)
    ensures |pullRequests| == |items|
    ensures forall k :: 0 <= k < |items| ==>
      pullRequests[k] == RecordFor(gh, items[k], cutoff, now)
  {
    pullRequests := [];
    for index := 0 to |items|
      invariant |pullRequests| == index
      invariant forall k :: 0 <= k < index ==>
        pullRequests[k] == RecordFor(gh, items[k], cutoff, now)
    {
      var pr := items[index];
      var repoName := RepoName(pr.repositoryUrl);
      var (owner, repo) := OwnerAndRepo(repoName);
      var request := ActivityRequest(owner, repo, pr.number);
      assert request == RequestFor(pr);
      var activity := FetchPRActivity(gh.issueComments(request), gh.reviewComments(request), gh.reviews(request), cutoff);
      var prData := RecordOf(pr, activity, now);
      assert prData == RecordFor(gh, items[index], cutoff, now);
      pullRequests := pullRequests + [prData];
    }
  }
}
