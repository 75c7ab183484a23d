# Daily PR report: a verified model of the text and report logic

The repository is a set of Node.js scripts.

- `scripts/list-my-prs.js` collects the user's open pull requests and the last day's comments
  and reviews on each. It writes them to `pr-report.json`.
- A language model turns that JSON into a markdown report.
- `scripts/send-to-slack.js` rewrites the markdown into Slack's mrkdwn dialect. It then cuts the
  text at line boundaries into chunks of at most 2800 UTF-16 units, except that a longer line
  becomes a chunk of its own, and posts it as a block-kit message to a webhook.

This project models the deterministic parts of the two scripts in Dafny and proves what they
guarantee.

- `strings.dfy` (module `Strings`): `split`/`join` on one character, with their round trips,
  and JavaScript's `length` in UTF-16 code units.
- `slack_format.dfy` (module `SlackFormat`): the chain of regular-expression replacements in
  `sendToSlack`.
  - Each replacement is written out as a recursive function with the regular expression's own
    semantics: lazy groups, left-to-right global matching, `^`/`$` with and without the `m`
    flag, and JavaScript's line terminators and `trim` whitespace.
  - It then proves the form of each rewrite, and that the heading, bold and link rewrites work
    line by line.
- `slack_message.dfy` (module `SlackMessage`): the chunking loop, written as a method over the
  lines.
  - The method is proved equal to a greedy grouping function. The grouping function carries the
    properties of the chunks: conservation, the size bound and its two quirks, and greediness.
  - The block list and the payload are built from the chunks.
- `pr_activity.dfy` (module `PrActivity`):
  - the recency test and the three filters;
  - the ceiling day count of `getDaysOpen`;
  - the success and fallback results of `fetchPRActivity`.
- `pr_report.dfy` (module `PrReport`):
  - the target user, the search query, and the repository name and owner/repo split;
  - the `listMyOpenPRs` loop, which builds one record per search hit. The GitHub API is a value
    that gives each call's answer for each argument.

Time is integer milliseconds. `now`, `cutoff` (the moment one calendar day before now) and the
report's `generatedAt` text are parameters. A timestamp that does not parse is `Invalid`. It
is never recent, as a comparison with `NaN` is false, and its day count is written as `null`.
`getDaysOpen` gives 0 when creation and now are the same millisecond.

## Model

| member | source | states |
|---|---|---|
| Strings.Split | scripts/send-to-slack.js:52 | `split` gives at least one piece and no piece holds the separator |
| Strings.JoinSplit | scripts/send-to-slack.js:52 | joining the pieces of a split with the separator gives back the text |
| Strings.SplitJoin | scripts/list-my-prs.js:146-147 | splitting a join of separator-free pieces gives back the pieces |
| Strings.SplitConcat | scripts/send-to-slack.js:52 | no piece straddles a separator: splitting `a + sep + b` is splitting `a` followed by splitting `b` |
| Strings.Utf16Length | scripts/send-to-slack.js:56 | JavaScript's `length`: one unit per character, two above U+FFFF, so between the number of characters and twice it |
| Strings.Utf16LengthBmp | scripts/send-to-slack.js:56 | text without characters above U+FFFF has one code unit per character |
| Strings.Utf16Append | scripts/send-to-slack.js:56 | the length of a concatenation is the sum of the lengths |
| SlackFormat.UnwrapFenced | scripts/send-to-slack.js:31-34 | a report that is exactly a fence line (backticks and word characters), a newline, a body, a newline and a closing fence becomes the body |
| SlackFormat.UnwrapOnlyFenced | scripts/send-to-slack.js:31-34 | whenever unwrapping changes the report, the report was such a fence around the result; otherwise it is unchanged |
| SlackFormat.TrailingNewlineKeepsFence | scripts/send-to-slack.js:31 | `$` has no `m` flag, so a newline after the closing fence leaves the report wrapped |
| SlackFormat.RewriteHeadingsLine | scripts/send-to-slack.js:39-41 | the heading rewrites go line by line: a line is rewritten on its own, its terminator is kept, and the rest is rewritten as if it stood alone |
| SlackFormat.HeadingLines | scripts/send-to-slack.js:39-41 | on a line, `# T` becomes `*T*` plus a newline, `## T` a newline plus `*T*`, `### T` becomes `_T_`; lines without the marker are untouched |
| SlackFormat.FindOnLine | scripts/send-to-slack.js:43-45 | the lazy `(.*?)` stop: the earliest occurrence of the closing text that can be reached without crossing a line terminator, or none |
| SlackFormat.FindOnLineStops | scripts/send-to-slack.js:43-45 | that search never looks past a line terminator |
| SlackFormat.BoldPair | scripts/send-to-slack.js:43 | `**x**` becomes `*x*` when `x` is on one line and is the shortest candidate; the rest is rewritten after it |
| SlackFormat.BoldPerLine | scripts/send-to-slack.js:43 | the bold rewrite never pairs asterisks across a line terminator |
| SlackFormat.LinkPair | scripts/send-to-slack.js:45 | `[text](url)` becomes `<url\|text>` when both parts are on one line, `text` has no `](` and `url` no `)` |
| SlackFormat.LinksPerLine | scripts/send-to-slack.js:45 | the link rewrite never matches across a line terminator |
| SlackFormat.Collapse | scripts/send-to-slack.js:47 | the result starts with one or two newlines exactly when the input does, and is no longer |
| SlackFormat.CollapseNoTriple | scripts/send-to-slack.js:47 | the result has no run of three newlines |
| SlackFormat.CollapseRun | scripts/send-to-slack.js:47 | a run of three or more newlines between two other characters becomes exactly two, and the text on either side is rewritten on its own |
| SlackFormat.CollapseKeepsText | scripts/send-to-slack.js:47 | the rewrite removes only newlines: every other character is kept, in order |
| SlackFormat.CollapseKeepsClean | scripts/send-to-slack.js:47 | text without a run of three newlines is unchanged, so the rewrite is idempotent |
| SlackFormat.Trim | scripts/send-to-slack.js:48 | the result is a slice of the input with only JavaScript whitespace before and after it, itself has none at either end, is the input when that is already trimmed, and adds no newline run |
| SlackFormat.Format | scripts/send-to-slack.js:37-48 | the formatted report has no run of three newlines and no leading or trailing whitespace |
| SlackMessage.FramedJoin | scripts/send-to-slack.js:52 | the lines of a split text, each followed by a newline, are the text plus a final newline |
| SlackMessage.SplitIntoChunks | scripts/send-to-slack.js:51-63 | the loop's chunks are the greedy grouping of the lines, each group rendered as its lines each followed by a newline |
| SlackMessage.GroupsAreLines | scripts/send-to-slack.js:55-62 | the groups, read in order, are the lines: none is split, dropped or reordered |
| SlackMessage.ChunksConserveText | scripts/send-to-slack.js:51-63 | the chunks concatenated are exactly the lines each followed by a newline |
| SlackMessage.ChunksFit | scripts/send-to-slack.js:55-63 | every chunk is at most 2800 UTF-16 units or is a single line with its newline |
| SlackMessage.ChunkEmptiness | scripts/send-to-slack.js:55-63 | some chunk is produced for any line; only the first can be empty, and it is empty exactly when the first line plus a newline exceeds 2800 UTF-16 units |
| SlackMessage.ChunksGreedy | scripts/send-to-slack.js:56-58 | a chunk is closed only when the next chunk's first line plus a newline would push it past 2800 UTF-16 units |
| SlackMessage.TextChunks | scripts/send-to-slack.js:51-63 | the chunks of a text split at newlines spell out the text plus a newline; there is at least one, each is within 2800 or one line, only the first can be empty |
| SlackMessage.BuildBlocks | scripts/send-to-slack.js:69-101 | header, context line with date and time, divider, then section i carrying chunk i: 3 + chunks blocks |
| SlackMessage.ComposeMessage | scripts/send-to-slack.js:30-106 | the payload's fallback text is the title and date; the sections are exactly the greedy chunks of the formatted report's lines, so they spell out the formatted report plus a newline, each is within 2800 UTF-16 units or one line, only the first can be empty, and there is at least one |
| PrActivity.RecentLater | scripts/list-my-prs.js:9-20 | recency is `date >= cutoff` with the boundary included; a later cutoff only removes dates |
| PrActivity.CeilDays | scripts/list-my-prs.js:27 | the day count covers the difference and one day less does not: it is the ceiling |
| PrActivity.CeilDaysUnique | scripts/list-my-prs.js:27 | the ceiling is the only count with those two bounds |
| PrActivity.DaysOpen | scripts/list-my-prs.js:23-29 | `ceil(\|now - created\| / 86400000)`: zero exactly when the instants are equal, otherwise at least one |
| PrActivity.DaysOpenSymmetric | scripts/list-my-prs.js:26 | swapping creation and now gives the same count |
| PrActivity.DaysOpenMonotone | scripts/list-my-prs.js:23-29 | a larger distance never gives fewer days |
| PrActivity.RecentOnly | scripts/list-my-prs.js:59-61 | the filtered list holds exactly the items that are recent, and is no longer than the input |
| PrActivity.RecentOnlyAppend | scripts/list-my-prs.js:59-61 | filtering distributes over concatenation: the original order is kept |
| PrActivity.RecentOnlyOne | scripts/list-my-prs.js:59-61 | one item is kept exactly when it is recent |
| PrActivity.RecentEachConstant | scripts/list-my-prs.js:16-20 | with every `isRecent` call reading the same cutoff, the per-call filter is the one-cutoff filter |
| PrActivity.RecentEachBetween | scripts/list-my-prs.js:16-20 | with each `isRecent` call reading its own cutoff between `first` and `last`, the filter keeps every item recent against `last` and only items recent against `first` |
| PrActivity.FetchPRActivity | scripts/list-my-prs.js:58-76 | the total is the sum of the three lengths; any failed call gives three empty lists and 0; otherwise each list is the recent sublist (comments by `created_at`, reviews by `submitted_at`) |
| PrReport.SearchQueryTerms | scripts/list-my-prs.js:104-107 | the query's terms are `is:pr`, `is:open`, `author:<user>`, plus `repo:<R>` exactly when GH_REPO is set |
| PrReport.LastTwo | scripts/list-my-prs.js:146 | `slice(-2)`: the last two segments, or all when there are fewer |
| PrReport.RepoNameOfApiUrl | scripts/list-my-prs.js:146 | a URL `<prefix>/<owner>/<repo>` gives the name `<owner>/<repo>` |
| PrReport.OwnerAndRepoOfUrl | scripts/list-my-prs.js:146-147 | owner and repo are the URL's last two segments; with no `/` the repo is undefined |
| PrReport.ApiErrors | scripts/list-my-prs.js:234-239 | an API error prints the message, followed by the authentication hint exactly when the status is 401 |
| PrReport.RecentActivityOf | scripts/list-my-prs.js:171-191 | one report entry per recent comment and review, in order, and the count copied |
| PrReport.RecordOf | scripts/list-my-prs.js:162-192 | the record copies the hit's fields, names the repository from its URL, has a day count exactly when the creation date parses and then it is the ceiling of the distance in days, and carries the activity's entries as `RecentActivityOf` writes them |
| PrReport.RecordActivityCounts | scripts/list-my-prs.js:171-191 | the written count is the number of entries written, and 0 when an activity call failed |
| PrReport.CollectRecords | scripts/list-my-prs.js:143-225 | one record per search hit, in search order, each built from the activity fetched for that hit's owner, repository and number |
| PrReport.ListMyOpenPRs | scripts/list-my-prs.js:80-241 | no token or a failed user or search call ends with the error lines; a total of 0 saves an empty report; otherwise `totalPRs` is the total count and there is one record per search hit, in order, built from that hit's activity |

## Left out

- Network and libraries: the Octokit calls, the HTTPS POST to the webhook and its status
  check, and dotenv. Their answers are parameters (`GitHub`, `Response`) and the webhook post is
  not modelled.
- File and process handling: reading the report and writing `pr-report.json`, `existsSync`,
  and the exit codes. A run ends as `Saved(report)` or `Exited(error lines)`.
- The regular expressions run on UTF-16 code units and the model on Unicode scalar values.
  The rewrites give the same text either way: no pattern splits a surrogate pair. Lengths are
  measured in UTF-16 units, as `length` does.
- Console output: progress messages, the 80-character body preview, the review-state emoji
  and the pluralisation. They are log formatting only.
- JSON serialisation: the report is a datatype, not its text.
- Dates: `new Date()`, `toISOString`, `toLocaleDateString`/`toLocaleTimeString` and ISO
  parsing. The clock's values and the local date and time strings are parameters; a parsed
  timestamp is a `Stamp`.
- PrActivity.RecentOnly: `isRecent` reads the clock on every call, so each comparison has its
  own cutoff. The report uses one cutoff per run. `RecentEach` is the per-call filter;
  `RecentEachConstant` and `RecentEachBetween` bound how far it can differ.
- PrActivity.DaysOpen: likewise, each call reads its own `now`; the model uses one per run.
- SlackMessage.ComposeMessage: the script reads the clock separately for the context line's
  date and time and for the fallback text's date. The model passes one `date` to both, so it
  does not capture a date that changes between the reads.
- `getYesterdayTimestamp` moves the local date back one day with `setDate`. That is 24 hours
  except across a daylight-saving change. The cutoff it yields is the `cutoff` parameter, not
  computed.
- Dates outside JavaScript's range of ±8.64e15 ms, and `null` timestamps (they parse as the
  epoch), are not treated specially. A `Stamp` is whatever the parse gave.
- `totalPRs` is the search's `total_count`, which can exceed the 100 items of the one page
  fetched. The model keeps that as it is: records follow the items, the total follows the
  count.
- The three activity calls run in sequence, so after a failure the later calls are not made.
  The model takes all three answers and gives the same result: no activity.
- The search response is taken as given. A `total_count` of 0 ends with an empty report even
  if items were returned.
- Type errors thrown by malformed API data (a missing `user` on a comment, say) are not
  modelled.
- The `generate-with-gemini.js` and `list-models.js` scripts: one model call around a string
  concatenation, and a listing. Both are I/O only.
- `list-my-prs.js` has no review-status classifier, preview-URL detector or per-repository
  listing. It always uses the search, with `repo:<R>` added when GH_REPO is set.
- SlackFormat.BoldPair: states the rewrite for one well-formed `**x**` at the start of the text.
  On other inputs the behaviour is the function itself, which follows the regular expression's
  matching step by step.
- SlackFormat.LinkPair: states the rewrite for one well-formed `[text](url)` at the start of the
  text. On other inputs the behaviour is the function itself, which follows the regular
  expression's matching step by step.
