# backlog-notion: webhook-to-task extraction

A model of the part of backlog-notion that turns a Backlog issue webhook into
a Notion task record, with proofs about it:

- `Consts` holds the webhook and task record shapes, the marker category
  `GGJVN`, the eight `TaskStatus` values and the keyword-to-status table.
- `BacklogService.Validate` is the gate. It rejects a body without content
  or category, and it says whether an issue is in scope: the marker
  category is present and the project has a non-empty key.
- `BacklogService.ExtractTaskInfo` is the normaliser. It builds the composite
  id `{projectKey}-{key_id}`, the display name, the parent id and the release
  window from the structural fields. It reads status, assignees, tags,
  project and the development window from `!Keyword: value` directives in
  the issue description.
- `Route.Respond` is the endpoint's decision between `400`, `Skipped` and
  `OK`.

The JavaScript primitives the service relies on are written out in `Text`:
the greedy `.` of a regular expression, `split` with a one-character
separator, `trim` with the ECMAScript white-space and line-terminator sets,
and the decimal rendering of an integral Number. `IndexOf` stands for the
search for the leftmost match that `match` performs, and `Join` is a proof
device for the round-trip lemmas; the service calls neither `indexOf` nor
`join`.
`Directive` gives the reference meaning of `text.match(/!Keyword: (.*)/)` (the
leftmost match, greedy up to a line terminator) and proves that `Capture`
computes it.

Two host functions become parameters:

- `Date.parse` becomes `parse: string -> Option<int>`, where `None` stands
  for `NaN`.
- The clock (`Date.now()`, `new Date()`) becomes `now: int`.

Date windows are pairs of millisecond timestamps.

Some behaviours of the code are easy to miss; the model follows the code in
each, and the lemmas named in brackets state them:

- The status keyword is looked up case-sensitively and untrimmed
  (`StatusIsCaseSensitive`).
- The tag directive is `!Tags:`, not `!Tag:`.
- There is no summary directive: the name always uses the structural
  summary.
- The development window uses the first two `-`-separated segments and
  ignores the rest (`DevIgnoresExtraSegments`). An ISO date
  `2024-01-10` is therefore three segments (`IsoDateIsThreeSegments`).
- The structural assignee is never used. The directive list, even an empty
  one, is an array and so always truthy (`AssigneeFallbackUnreachable`).
- A single `!Dev:` date that lies before now still gives a window, whose
  start (now) is after its due date (`SingleDeadlineMayPrecedeNow`).

## Model

| member | source | states |
|---|---|---|
| Text.IndexOf | app/api/notion/tasks/_service.ts:63 | the result is an occurrence at or after the start, no earlier occurrence exists, and `None` means there is no occurrence at all |
| Text.LineRest | app/api/notion/tasks/_service.ts:63 | what `(.*)` captures is a prefix free of line terminators that stops only at a line terminator or the end |
| Text.LineRestUnique | app/api/notion/tasks/_service.ts:63 | any prefix with those two properties is the capture, so the greedy capture is unique |
| Text.Split | app/api/notion/tasks/_service.ts:106 | `split` always yields at least one piece; its contents are stated by the lemmas below |
| Text.SplitCount | app/api/notion/tasks/_service.ts:79 | `split` yields one piece more than the separators in the input |
| Text.SplitPiecesFree | app/api/notion/tasks/_service.ts:106 | no piece of a split contains the separator |
| Text.SplitThenJoin | app/api/notion/tasks/_service.ts:106 | joining the pieces with the separator restores the input |
| Text.JoinThenSplit | app/api/notion/tasks/_service.ts:106 | splitting the join of separator-free pieces restores the pieces |
| Text.SplitWithoutSeparator | app/api/notion/tasks/_service.ts:79 | an input without the separator is one piece, itself |
| Text.SplitAfterPiece | app/api/notion/tasks/_service.ts:79 | a separator-free piece followed by the separator becomes the first piece |
| Text.TrimStartSpec | app/api/notion/tasks/_service.ts:106 | `trimStart` removes exactly a trimmable prefix and stops at the first other character |
| Text.TrimEndSpec | app/api/notion/tasks/_service.ts:106 | `trimEnd` removes exactly a trimmable suffix and stops at the last other character |
| Text.Trim | app/api/notion/tasks/_service.ts:106 | `trim` never lengthens its input; TrimSpec and TrimUnique characterise its result |
| Text.TrimSpec | app/api/notion/tasks/_service.ts:106 | `trim` keeps a contiguous middle part, removes only trimmable characters around it, and leaves no trimmable character at either end |
| Text.TrimUnique | app/api/notion/tasks/_service.ts:106 | any middle part with those properties is `trim`'s result |
| Text.TrimIdempotent | app/api/notion/tasks/_service.ts:114 | trimming twice is trimming once |
| Text.TrimKeepsAbsence | app/api/notion/tasks/_service.ts:114 | trimming introduces no character |
| Text.TrimLeadingSpace | app/api/notion/tasks/_service.ts:106 | a leading space makes no difference to `trim` |
| Text.NatToDecimal | app/api/notion/tasks/_service.ts:56 | the rendering of a natural number is non-empty decimal digits without a leading zero |
| Text.DecimalRoundTrip | app/api/notion/tasks/_service.ts:56 | reading the rendered digits back gives the number |
| Text.NumberToString | app/api/notion/tasks/_service.ts:56 | an integer renders as a minus sign exactly when negative, then the digits of its magnitude with no leading zero; zero renders as `0` |
| Text.NumberToStringInjective | app/api/notion/tasks/_service.ts:56 | distinct parent issue ids render as distinct strings |
| Directive.Capture | app/api/notion/tasks/_service.ts:63 | no capture exactly when the literal `!Keyword: ` occurs nowhere; a capture holds no line terminator |
| Directive.MatchWhereOccurs | app/api/notion/tasks/_service.ts:63 | wherever the literal occurs, the regular expression matches there with the rest of the line |
| Directive.MatchUnique | app/api/notion/tasks/_service.ts:63 | at one index the regular expression has one capture |
| Directive.CaptureIsFirstMatch | app/api/notion/tasks/_service.ts:63 | `Capture` returns `c` exactly when `c` is the capture of the leftmost match |
| Directive.FirstMatchIsIndexOf | app/api/notion/tasks/_service.ts:63 | the leftmost match starts at the first occurrence of the literal and captures the rest of that line |
| Directive.NoCaptureIffNoMatch | app/api/notion/tasks/_service.ts:63 | `match` returns null exactly when the regular expression matches nowhere |
| Directive.CaptureAfter | app/api/notion/tasks/_service.ts:63 | a directive line whose marker does not occur earlier yields its value |
| Directive.CaptureAtStart | app/api/notion/tasks/_service.ts:63 | a description that begins with a directive line yields that line's value |
| Consts.Keyword | app/api/notion/tasks/_consts.ts:66-75 | each status has a keyword that the table maps back to it |
| Consts.StatusMappingKeys | app/api/notion/tasks/_consts.ts:66-75 | the table's keys are the eight keywords |
| Consts.StatusMappingSize | app/api/notion/tasks/_consts.ts:66-75 | the table has exactly eight entries |
| Consts.StatusMappingLowerCase | app/api/notion/tasks/_consts.ts:66-75 | every keyword is lower-case ASCII |
| Consts.StatusMappingOwnKeysOnly | app/api/notion/tasks/_consts.ts:66-75 | no keyword is a member name inherited from `Object.prototype` |
| Consts.InheritedMembersShape | app/api/notion/tasks/_consts.ts:66 | every name a plain object inherits is longer than any keyword or has a character other than a lower-case letter |
| Consts.StatusMappingBijective | app/api/notion/tasks/_consts.ts:66-75 | the table is a bijection between keywords and statuses, inverse to `Keyword` |
| Consts.DefaultIsOpen | app/api/notion/tasks/_consts.ts:67 | the default status `NOT_STARTED` is the image of `open` |
| Consts.LabelsDistinct | app/api/notion/tasks/_consts.ts:55-64 | the eight enum string values are pairwise distinct |
| Consts.MarkerCategory | app/api/notion/tasks/_consts.ts:53 | the marker category is the five-character `GGJVN` |
| BacklogService.HasMarkerCategory | app/api/notion/tasks/_service.ts:17-19 | true exactly when some category is named `GGJVN` |
| BacklogService.Validate | app/api/notion/tasks/_service.ts:12-24 | throws exactly when the body, its content or its category list is missing; otherwise in scope exactly when a marker category exists and the project has a non-empty key |
| BacklogService.ExtractTaskStatusAsWritten | app/api/notion/tasks/_service.ts:62-72 | the lookup yields an inherited member exactly when the first `!Status: ` capture names one, and then it is that member |
| BacklogService.ExtractTaskStatus | app/api/notion/tasks/_service.ts:62-72 | a capture that is a keyword selects the status with that keyword; an absent or unknown capture gives `NOT_STARTED` |
| BacklogService.StatusDirectiveRoundTrip | app/api/notion/tasks/_service.ts:62-72 | a `!Status: ` line with a status's keyword selects that status |
| BacklogService.StatusIsCaseSensitive | app/api/notion/tasks/_service.ts:67 | `DONE` and `done ` (trailing space) both give the default |
| BacklogService.InheritedKeyLeaks | app/api/notion/tasks/_service.ts:67 | `!Status: toString` makes the as-written lookup yield the inherited `toString`, while the corrected function gives the default |
| BacklogService.StatusCorrectionIsConservative | app/api/notion/tasks/_service.ts:62-72 | the corrected function agrees with the code on every own keyword and differs only on inherited names |
| BacklogService.TrimAll | app/api/notion/tasks/_service.ts:106 | mapping `trim` keeps the number of pieces, and each item is the piece at the same position trimmed |
| BacklogService.TrimAllTrimmed | app/api/notion/tasks/_service.ts:106 | every mapped piece is already trimmed |
| BacklogService.TrimAllKeepsAbsence | app/api/notion/tasks/_service.ts:106 | mapping `trim` introduces no character |
| BacklogService.DirectiveList | app/api/notion/tasks/_service.ts:101-115 | the list is empty exactly when the directive is absent; otherwise it has one item more than the commas in the capture, item `k` is comma segment `k` of the capture trimmed, and each item is comma-free and trimmed |
| BacklogService.ExtractTaskAssignee | app/api/notion/tasks/_service.ts:101-107 | the `!Assignee: ` list: empty exactly when the directive is absent, one item per comma plus one, item `k` is comma segment `k` trimmed |
| BacklogService.ExtractTags | app/api/notion/tasks/_service.ts:109-115 | the same for the `!Tags: ` directive |
| BacklogService.SplitTrimJoin | app/api/notion/tasks/_service.ts:106 | splitting a `", "`-joined list of trimmed, comma-free items on commas and trimming gives the items back |
| BacklogService.DirectiveListRoundTrip | app/api/notion/tasks/_service.ts:101-115 | a `!Keyword: a, b, c` line at the start of the description yields exactly the items it lists |
| BacklogService.AssigneeExample | app/api/notion/tasks/_service.ts:101-107 | `!Assignee: A, B` yields `["A", "B"]` |
| BacklogService.ExtractTaskProject | app/api/notion/tasks/_service.ts:117-123 | null exactly when `!Project: ` occurs nowhere; otherwise the untrimmed capture of the leftmost match |
| BacklogService.DevSegments | app/api/notion/tasks/_service.ts:79 | one segment more than the `-` characters in the capture |
| BacklogService.DevWindow | app/api/notion/tasks/_service.ts:79-98 | one segment gives now-to-deadline when it parses; two or more give the first two parsed dates when both parse and are ordered, else null |
| BacklogService.ExtractTaskDevTime | app/api/notion/tasks/_service.ts:74-99 | null without a `!Dev: ` directive; with one, the window DevWindow gives for the capture; a two-date window is ordered; a single-date window starts now |
| BacklogService.DevWindowFirstTwo | app/api/notion/tasks/_service.ts:90-91 | two captures with the same first two segments give the same window |
| BacklogService.DevSegmentsOfPair | app/api/notion/tasks/_service.ts:79 | the first two segments of `a-b-...` are `a` and `b` trimmed |
| BacklogService.DevIgnoresExtraSegments | app/api/notion/tasks/_service.ts:79-98 | segments after the second are counted but do not change the window |
| BacklogService.IsoDateIsThreeSegments | app/api/notion/tasks/_service.ts:79-98 | `2024-01-10` is three segments and gives the window of `2024-01` |
| BacklogService.DevSingleSegment | app/api/notion/tasks/_service.ts:80-88 | a capture without `-` is one trimmed segment, and its window runs from now to its parsed date, or is null |
| BacklogService.SingleDeadlineMayPrecedeNow | app/api/notion/tasks/_service.ts:80-88 | a single deadline before now still gives a window, with start after due |
| BacklogService.ParseOrNull | app/api/notion/tasks/_service.ts:129-130 | a timestamp exactly when the date is present, non-empty and parses, and then the parsed value |
| BacklogService.EffectiveStart | app/api/notion/tasks/_service.ts:129-133 | a missing, empty, unparseable or zero start date becomes now; otherwise the parsed start |
| BacklogService.ExtractTaskReleaseTime | app/api/notion/tasks/_service.ts:125-143 | null exactly when the due date is missing, unparseable or zero, or precedes the effective start; otherwise an ordered window from the effective start to the parsed due date |
| BacklogService.ReleaseWindowFromNow | app/api/notion/tasks/_service.ts:129-143 | no start date and a due date after now give the window from now to the due date |
| BacklogService.TaskId | app/api/notion/tasks/_service.ts:39 | the id is the project key, a `-`, then the issue key |
| BacklogService.TaskIdInjective | app/api/notion/tasks/_service.ts:39 | for project keys without `-`, the id determines the project key and the issue key |
| BacklogService.ExtractTaskInfo | app/api/notion/tasks/_service.ts:26-60 | throws exactly when project or content is missing; otherwise each task field comes from its extractor, the name is the id, a space and the summary, the parent id exists exactly when `parentIssueId` is non-null and non-zero, and the release window is ordered |
| BacklogService.TaskIdPrefixesName | app/api/notion/tasks/_service.ts:41-42 | a task's id is a prefix of its name |
| BacklogService.AssigneeFallbackUnreachable | app/api/notion/tasks/_service.ts:45-49 | the structural assignee never affects the extracted record, and `assignees` is never null |
| Route.Respond | app/api/notion/tasks/route.ts:9-22 | a `null` body throws outside the handler's `try`; otherwise `400` exactly when validation throws, `Skipped` exactly when the issue is out of scope, and `OK` with the extracted record exactly when it is in scope |

## Left out

- `NotionService.syncTask` and `getNotionPageIdFromName` (app/api/notion/tasks/_service.ts:146-168) talk to the remote Notion store and are not part of this model. `Route.Respond` returns the record it would hand to them.
- The HTTP layer is not modelled: `req.json()`, `Response.json` and the not-awaited `syncTask` promise. The body arrives already decoded as an optional webhook.
- Route.Respond: assumes a working `Logger`. app/api/notion/tasks/route.ts:1 imports `Logger` from `./_service`, which exports only `BacklogService` and `NotionService`; as written, the call at route.ts:9 would then fail before the `try` on every request. The model keeps only the failure that a `null` body causes there (`Unhandled`).
- BacklogService.ExtractTaskInfo: fills `status` from the corrected `ExtractTaskStatus`, because the `Task` record's `TaskStatus` field cannot hold an inherited `Object.prototype` member. On a description such as `!Status: toString` the source's record carries that member instead; `ExtractTaskStatusAsWritten` and `InheritedKeyLeaks` show it.
- Fields of the wrong JSON type are not modelled (for example a null `description` or a missing `priority`, which throw inside `extractTaskInfo`). The record fields are typed.
- `toISOString` is left out: windows are millisecond timestamps, not ISO strings. For timestamps beyond ±8.64e15 ms it throws a RangeError, which the route turns into `400`; the model does not show that.
- `Date.parse` and the clock are parameters. The source may read the clock twice (dev window and release window); the model gives both the same instant.
- Text.NumberToString: covers integral values only. A fractional `parentIssueId` and the exponent form of Numbers of 1e21 or more are not modelled.
- BacklogService.Validate: returns the truthiness of the source's result, not the value itself (`false`, `undefined`, `""` or the project key).
- Only the regular expression shape `/!Keyword: (.*)/` is modelled, not a general regular-expression engine.
- The webhook's `id`, `type`, `comment` and `status` fields are carried but not used, as in the source.

## Findings

| source | as written | input that shows it | evidently intended | confidence | as-written member | corrected member |
|---|---|---|---|---|---|---|
| app/api/notion/tasks/_service.ts:67 | the status table is a plain object, so looking up a name it inherits from `Object.prototype` passes the `=== undefined` test and returns that member | a description `!Status: toString` (also `constructor`, `valueOf`, `__proto__`, …) | an unknown keyword gives `NOT_STARTED`, as the declared `TaskStatus` result requires | not executed | BacklogService.ExtractTaskStatusAsWritten (shown by BacklogService.InheritedKeyLeaks) | BacklogService.ExtractTaskStatus (agreement elsewhere: BacklogService.StatusCorrectionIsConservative) |
