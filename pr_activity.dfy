/** The pure pieces of scripts/list-my-prs.js that decide what counts as recent activity on a
    pull request and how long it has been open. Time is integer milliseconds since the epoch;
    the clock is not read here, `now` and `cutoff` are parameters. */
module PrActivity {

  /** One day in milliseconds: 1000 * 60 * 60 * 24. */
  const DayMs: nat := 86400000

  /** `new Date(text)`: a millisecond value, or an invalid date (NaN) when the text does not
      parse. A `null` timestamp parses as the epoch, so it is `At(0)`. */
  datatype Stamp = At(ms: int) | Invalid

  /** A timestamp as the API returns it: the text, which the report copies, and its value. */
  datatype Timestamp = Timestamp(text: string, at: Stamp)

  /** `isRecent` with the cutoff the clock gave: a valid date at or after the cutoff. A
      comparison with NaN is false, so an unparsable date is never recent. */
  predicate IsRecent(t: Stamp, cutoff: int)
  {
    t.At? && t.ms >= cutoff
  }

  /** A later cutoff only removes dates: whatever is recent against it was recent before. */
  lemma RecentLater(t: Stamp, earlier: int, later: int)
    requires earlier <= later
    ensures IsRecent(t, later) ==> IsRecent(t, earlier)
  {
  }

  function Abs(x: int): nat
  {
    if x < 0 then -x else x
  }

  /** `Math.ceil(diff / DayMs)` for a non-negative whole number of milliseconds. */
  function CeilDays(diff: nat): (days: nat)
    ensures days * DayMs >= diff
    ensures days > 0 ==> (days - 1) * DayMs < diff
  {
    var q := (diff + DayMs - 1) / DayMs;
    assert diff + DayMs - 1 == q * DayMs + (diff + DayMs - 1) % DayMs;
    q
  }

  /** The two bounds pin the day count down: it is the least whole number of days covering the
      difference. */
  lemma CeilDaysUnique(diff: nat, k: nat)
    requires k * DayMs >= diff
    requires k > 0 ==> (k - 1) * DayMs < diff
    ensures CeilDays(diff) == k
  {
  }

  /** `getDaysOpen`: whole days, rounded up, between creation and now, in either direction. */
  function DaysOpen(created: int, now: int): (days: nat)
    ensures days == 0 <==> created == now
    ensures days * DayMs >= Abs(now - created)
    ensures days > 0 ==> (days - 1) * DayMs < Abs(now - created)
  {
    CeilDays(Abs(now - created))
  }

  /** Swapping the two instants gives the same count. */
  lemma DaysOpenSymmetric(created: int, now: int)
    ensures DaysOpen(created, now) == DaysOpen(now, created)
  {
    assert Abs(now - created) == Abs(created - now);
  }

  /** A longer distance never gives fewer days. */
  lemma DaysOpenMonotone(c1: int, n1: int, c2: int, n2: int)
    requires Abs(n1 - c1) <= Abs(n2 - c2)
    ensures DaysOpen(c1, n1) <= DaysOpen(c2, n2)
  {
  }

  /** A pull-request comment (issue comment or review comment). */
  datatype Comment = Comment(login: string, body: string, createdAt: Timestamp, htmlUrl: string)

  /** A submitted review; `state` is the API's text (APPROVED, CHANGES_REQUESTED, ...). */
  datatype Review = Review(login: string, state: string, submittedAt: Timestamp, htmlUrl: string)

  /** The result of an API call: the data, or the error the client threw. */
  datatype Response<T> = Ok(value: T) | Failed(status: int, message: string)

  function CommentTime(c: Comment): Stamp
  {
    c.createdAt.at
  }

  function ReviewTime(r: Review): Stamp
  {
    r.submittedAt.at
  }

  /** `xs.filter(x => isRecent(at(x)))`. */
  function RecentOnly<T(!new)>(xs: seq<T>, at: T -> Stamp, cutoff: int): (r: seq<T>)
    ensures |r| <= |xs|
    ensures forall x :: x in r <==> x in xs && IsRecent(at(x), cutoff)
  {
    if xs == [] then []
    else (if IsRecent(at(xs[0]), cutoff) then [xs[0]] else []) + RecentOnly(xs[1..], at, cutoff)
  }

  /** Filtering keeps the original order: it distributes over concatenation. Together with the
      one-element case this says the result is exactly the recent items, in order. */
  lemma {:induction false} RecentOnlyAppend<T(!new)>(xs: seq<T>, ys: seq<T>, at: T -> Stamp, cutoff: int)
    ensures RecentOnly(xs + ys, at, cutoff) == RecentOnly(xs, at, cutoff) + RecentOnly(ys, at, cutoff)
  {
    if xs == [] {
      assert xs + ys == ys;
    } else {
      assert (xs + ys)[0] == xs[0];
      assert (xs + ys)[1..] == xs[1..] + ys;
      RecentOnlyAppend(xs[1..], ys, at, cutoff);
    }
  }

  lemma RecentOnlyOne<T(!new)>(x: T, at: T -> Stamp, cutoff: int)
    ensures RecentOnly([x], at, cutoff) == if IsRecent(at(x), cutoff) then [x] else []
  {
    assert [x][1..] == [];
  }

  /** The filter as the script runs it: every `isRecent` call reads the clock again, so item k
      is tested against its own cutoff `cutoffs[k]`. */
  function RecentEach<T(!new)>(xs: seq<T>, at: T -> Stamp, cutoffs: seq<int>): (r: seq<T>)
    requires |cutoffs| == |xs|
    ensures |r| <= |xs|
  {
    if xs == [] then []
    else (if IsRecent(at(xs[0]), cutoffs[0]) then [xs[0]] else []) + RecentEach(xs[1..], at, cutoffs[1..])
  }

  /** With the clock standing still the filter is the one-cutoff filter of the model. */
  lemma {:induction false} RecentEachConstant<T(!new)>(xs: seq<T>, at: T -> Stamp, cutoffs: seq<int>, cutoff: int)
    requires |cutoffs| == |xs|
    requires forall k :: 0 <= k < |cutoffs| ==> cutoffs[k] == cutoff
    ensures RecentEach(xs, at, cutoffs) == RecentOnly(xs, at, cutoff)
  {
    if xs != [] {
      RecentEachConstant(xs[1..], at, cutoffs[1..], cutoff);
    }
  }

  /** When every cutoff read during the filter lies between `first` and `last`, the filter
      keeps everything recent against `last` and nothing that is not recent against `first`. */
  lemma {:induction false} RecentEachBetween<T(!new)>(xs: seq<T>, at: T -> Stamp, cutoffs: seq<int>, first: int, last: int)
    requires |cutoffs| == |xs|
    requires forall k :: 0 <= k < |cutoffs| ==> first <= cutoffs[k] <= last
    ensures forall x :: x in RecentOnly(xs, at, last) ==> x in RecentEach(xs, at, cutoffs)
    ensures forall x :: x in RecentEach(xs, at, cutoffs) ==> x in RecentOnly(xs, at, first)
  {
    if xs != [] {
      RecentEachBetween(xs[1..], at, cutoffs[1..], first, last);
      var tail := RecentEach(xs[1..], at, cutoffs[1..]);
      var head := if IsRecent(at(xs[0]), cutoffs[0]) then [xs[0]] else [];
      assert RecentEach(xs, at, cutoffs) == head + tail;
      forall x | x in RecentOnly(xs, at, last)
        ensures x in RecentEach(xs, at, cutoffs)
      {
        if x != xs[0] {
          assert x in xs[1..];
        }
      }
      forall x | x in RecentEach(xs, at, cutoffs)
        ensures x in RecentOnly(xs, at, first)
      {
        if x !in head {
          assert x in tail;
        }
      }
    }
  }

  /** What `fetchPRActivity` returns. */
  datatype Activity = Activity(
    issueComments: seq<Comment>,
    reviewComments: seq<Comment>,
    reviews: seq<Review>,
    totalRecentActivity: nat)

  /** Lines 58-76 of `fetchPRActivity`, given what the three list calls returned. Any failure
      is caught and reported as no activity; otherwise each list is cut down to its recent
      entries and the total is their number. */
  function FetchPRActivity(
    issueComments: Response<seq<Comment>>,
    reviewComments: Response<seq<Comment>>,
    reviews: Response<seq<Review>>,
    cutoff: int): (a: Activity)
    ensures a.totalRecentActivity == |a.issueComments| + |a.reviewComments| + |a.reviews|
    ensures issueComments.Failed? || reviewComments.Failed? || reviews.Failed? ==>
      a == Activity([], [], [], 0)
    ensures issueComments.Ok? && reviewComments.Ok? && reviews.Ok? ==>
      && a.issueComments == RecentOnly(issueComments.value, CommentTime, cutoff)
      && a.reviewComments == RecentOnly(reviewComments.value, CommentTime, cutoff)
      && a.reviews == RecentOnly(reviews.value, ReviewTime, cutoff)
    ensures forall c :: c in a.issueComments <==>
      issueComments.Ok? && reviewComments.Ok? && reviews.Ok? &&
      c in issueComments.value && IsRecent(c.createdAt.at, cutoff)
    ensures forall c :: c in a.reviewComments <==>
      issueComments.Ok? && reviewComments.Ok? && reviews.Ok? &&
      c in reviewComments.value && IsRecent(c.createdAt.at, cutoff)
    ensures forall r :: r in a.reviews <==>
      issueComments.Ok? && reviewComments.Ok? && reviews.Ok? &&
      r in reviews.value && IsRecent(r.submittedAt.at, cutoff)
  {
    if issueComments.Failed? || reviewComments.Failed? || reviews.Failed? then
      Activity([], [], [], 0)
    else
      var i := RecentOnly(issueComments.value, CommentTime, cutoff);
      var c := RecentOnly(reviewComments.value, CommentTime, cutoff);
      var r := RecentOnly(reviews.value, ReviewTime, cutoff);
      Activity(i, c, r, |i| + |c| + |r|)
  }
}
