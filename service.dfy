/** `BacklogService`: the gate that decides whether a webhook is in scope, the
    directive extractors that read `!Keyword: value` lines from an issue's
    description, and the normaliser that assembles a task record.
    `Date.parse` is the parameter `parse` (None where it yields NaN) and the
    clock (`Date.now()`, `new Date()`) is the parameter `now`. */
module BacklogService {
  import opened Wrappers
  import opened Text
  import opened Directive
  import opened Consts

  /** What the service throws: the gate's "Invalid request body", or the
      TypeError of destructuring a missing `project` or `content`. */
  datatype RequestError = InvalidRequestBody | MissingProjectOrContent

  // ---------------------------------------------------------------- gate

  /** `category.some(el => el.name === GVN_CATEGORY)`. */
  function HasMarkerCategory(categories: seq<Named>): (r: bool)
    ensures r <==> exists k :: 0 <= k < |categories| && categories[k].name == GvnCategory
  {
    if categories == [] then false
    else categories[0].name == GvnCategory || HasMarkerCategory(categories[1..])
  }

  /** `validate`: throws on a body without content or category; otherwise the
      truthiness of its result says whether the issue is in scope. */
  function Validate(body: Option<Webhook>): (r: Result<bool, RequestError>)
    ensures r.Err? <==> body.None? || body.value.content.None? || body.value.content.value.category.None?
    ensures r.Err? ==> r.error == InvalidRequestBody
    ensures r.Ok? ==> (r.value <==>
      && (exists el <- body.value.content.value.category.value :: el.name == GvnCategory)
      && body.value.project.Some?
      && body.value.project.value.projectKey != "")
  {
    if body.None? || body.value.content.None? || body.value.content.value.category.None? then
      Err(InvalidRequestBody)
    else
      var w := body.value;
      Ok(HasMarkerCategory(w.content.value.category.value) && w.project.Some? && w.project.value.projectKey != "")
  }

  // ---------------------------------------------------------------- status

  /** What the lookup `TaskStatusMapping[c]` yields as written: an own entry,
      a member inherited from `Object.prototype`, or `undefined` (`None`). */
  datatype StatusLookup = Mapped(status: TaskStatus) | Inherited(member: string)

  /** `_extractTaskStatus` as written: the capture is looked up in the plain
      object, so a key such as `toString` escapes the `=== undefined` test. */
  function ExtractTaskStatusAsWritten(description: string): (r: StatusLookup)
    ensures r.Inherited? <==> Capture(description, "Status").Some? && Capture(description, "Status").value in InheritedMembers
    ensures r.Inherited? ==> r.member == Capture(description, "Status").value
  {
    match Capture(description, "Status")
    case None => Mapped(NotStarted)
    case Some(c) =>
      if c in StatusMapping then Mapped(StatusMapping[c])
      else if c in InheritedMembers then Inherited(c)
      else Mapped(NotStarted)
  }

  /** `_extractTaskStatus`, keeping to the declared `TaskStatus` result: the
      status whose keyword is exactly the first `!Status: ` capture, else the default. */
  function ExtractTaskStatus(description: string): (r: TaskStatus)
    ensures Capture(description, "Status").Some? && Capture(description, "Status").value in StatusMapping ==>
      Keyword(r) == Capture(description, "Status").value
    ensures Capture(description, "Status").None? || Capture(description, "Status").value !in StatusMapping ==>
      r == NotStarted
  {
    match Capture(description, "Status")
    case None => NotStarted
    case Some(c) =>
      if c in StatusMapping then
        StatusMappingBijective();
        StatusMapping[c]
      else NotStarted
  }

  /** Writing a status's keyword as the first `!Status:` directive selects that status. */
  lemma StatusDirectiveRoundTrip(st: TaskStatus, rest: string)
    requires rest == [] || IsLineTerminator(rest[0])
    ensures ExtractTaskStatus(Pattern("Status") + Keyword(st) + rest) == st
  {
    CaptureAtStart("Status", Keyword(st), rest);
  }

  /** The lookup is case-sensitive and untrimmed: `DONE` and `done ` both give the default. */
  lemma StatusIsCaseSensitive(upper: string, padded: string)
    requires upper == Pattern("Status") + "DONE" && padded == Pattern("Status") + "done "
    ensures ExtractTaskStatus(upper) == NotStarted
    ensures ExtractTaskStatus(padded) == NotStarted
  {
    CaptureAtStart("Status", "DONE", []);
    assert Pattern("Status") + "DONE" + [] == upper;
    CaptureAtStart("Status", "done ", []);
    assert Pattern("Status") + "done " + [] == padded;
    StatusMappingKeys();
  }

  /** The as-written lookup lets an inherited member through where the declared
      type promises a status; the corrected function gives the default there. */
  lemma InheritedKeyLeaks(description: string)
    requires description == "!Status: toString"
    ensures ExtractTaskStatusAsWritten(description) == Inherited("toString")
    ensures ExtractTaskStatus(description) == NotStarted
  {
    var member := "toString";
    assert description == Pattern("Status") + member + [] && NoLineTerminator(member) && member in InheritedMembers;
    CaptureAtStart("Status", member, []);
    StatusMappingOwnKeysOnly();
  }

  /** Apart from inherited member names, the corrected function is the code as written. */
  lemma StatusCorrectionIsConservative(description: string)
    ensures ExtractTaskStatusAsWritten(description).Mapped? ==>
      ExtractTaskStatusAsWritten(description).status == ExtractTaskStatus(description)
    ensures ExtractTaskStatusAsWritten(description).Inherited? ==> ExtractTaskStatus(description) == NotStarted
  {
    StatusMappingOwnKeysOnly();
  }

  // ---------------------------------------------------------------- lists

  /** `parts.map(p => p.trim())`. */
  function TrimAll(parts: seq<string>): (r: seq<string>)
    ensures |r| == |parts|
    ensures forall k :: 0 <= k < |r| ==> r[k] == Trim(parts[k])
  {
    if parts == [] then [] else [Trim(parts[0])] + TrimAll(parts[1..])
  }

  lemma {:induction false} TrimAllTrimmed(ps: seq<string>)
    ensures forall q <- TrimAll(ps) :: Trim(q) == q
  {
    if ps != [] {
      TrimIdempotent(ps[0]);
      TrimAllTrimmed(ps[1..]);
      assert TrimAll(ps) == [Trim(ps[0])] + TrimAll(ps[1..]);
    }
  }

  lemma {:induction false} TrimAllKeepsAbsence(ps: seq<string>, c: char)
    requires forall p <- ps :: c !in p
    ensures forall q <- TrimAll(ps) :: c !in q
  {
    if ps != [] {
      TrimKeepsAbsence(ps[0], c);
      assert forall p <- ps[1..] :: p in ps;
      TrimAllKeepsAbsence(ps[1..], c);
      assert TrimAll(ps) == [Trim(ps[0])] + TrimAll(ps[1..]);
    }
  }

  /** The shared body of `_extractTaskAssignee` and `_extractTags`: the capture
      split on commas, each piece trimmed; `[]` when the directive is absent. */
  function DirectiveList(description: string, keyword: string): (r: seq<string>)
    ensures r == [] <==> Capture(description, keyword).None?
    ensures Capture(description, keyword).Some? ==> |r| == multiset(Capture(description, keyword).value)[','] + 1
    ensures forall p <- r :: ',' !in p && Trim(p) == p
    ensures Capture(description, keyword).Some? ==>
      && |r| == |Split(Capture(description, keyword).value, ',')|
      && forall k :: 0 <= k < |r| ==> r[k] == Trim(Split(Capture(description, keyword).value, ',')[k])
  {
    match Capture(description, keyword)
    case None => []
    case Some(c) =>
      var r := TrimAll(Split(c, ','));
      SplitCount(c, ',');
      SplitPiecesFree(c, ',');
      TrimAllTrimmed(Split(c, ','));
      TrimAllKeepsAbsence(Split(c, ','), ',');
      r
  }

  lemma DirectiveListOfCapture(description: string, keyword: string, c: string)
    requires Capture(description, keyword) == Some(c)
    ensures DirectiveList(description, keyword) == TrimAll(Split(c, ','))
  {
  }

  /** `_extractTaskAssignee`. */
  function ExtractTaskAssignee(description: string): (r: seq<string>)
    ensures r == [] <==> Capture(description, "Assignee").None?
    ensures Capture(description, "Assignee").Some? ==> |r| == multiset(Capture(description, "Assignee").value)[','] + 1
    ensures forall p <- r :: ',' !in p && Trim(p) == p
    ensures Capture(description, "Assignee").Some? ==>
      && |r| == |Split(Capture(description, "Assignee").value, ',')|
      && forall k :: 0 <= k < |r| ==> r[k] == Trim(Split(Capture(description, "Assignee").value, ',')[k])
  {
    DirectiveList(description, "Assignee")
  }

  /** `_extractTags`; the directive keyword is `Tags`. */
  function ExtractTags(description: string): (r: seq<string>)
    ensures r == [] <==> Capture(description, "Tags").None?
    ensures Capture(description, "Tags").Some? ==> |r| == multiset(Capture(description, "Tags").value)[','] + 1
    ensures forall p <- r :: ',' !in p && Trim(p) == p
    ensures Capture(description, "Tags").Some? ==>
      && |r| == |Split(Capture(description, "Tags").value, ',')|
      && forall k :: 0 <= k < |r| ==> r[k] == Trim(Split(Capture(description, "Tags").value, ',')[k])
  {
    DirectiveList(description, "Tags")
  }

  lemma {:induction false} JoinNoLineTerminator(items: seq<string>, sep: string)
    requires |items| > 0 && NoLineTerminator(sep)
    requires forall p <- items :: NoLineTerminator(p)
    ensures NoLineTerminator(Join(items, sep))
  {
    if |items| > 1 {
      assert forall p <- items[1..] :: p in items;
      JoinNoLineTerminator(items[1..], sep);
      NoLineTerminatorConcat(items[0], sep);
      NoLineTerminatorConcat(items[0] + sep, Join(items[1..], sep));
    }
  }

  /** A leading space on the first piece makes no difference once trimmed. */
  lemma TrimAllLeadingSpace(ps: seq<string>)
    requires |ps| > 0
    ensures TrimAll([[' '] + ps[0]] + ps[1..]) == TrimAll(ps)
  {
    TrimLeadingSpace(ps[0]);
    assert ([[' '] + ps[0]] + ps[1..])[1..] == ps[1..];
  }

  lemma TrimAllCons(a: string, rest: seq<string>)
    ensures TrimAll([a] + rest) == [Trim(a)] + TrimAll(rest)
  {
    assert ([a] + rest)[1..] == rest;
  }

  lemma JoinCommaSpace(items: seq<string>)
    requires |items| > 1
    ensures Join(items, ", ") == items[0] + [','] + ([' '] + Join(items[1..], ", "))
  {
    var tail := Join(items[1..], ", ");
    assert Join(items, ", ") == items[0] + ", " + tail;
    assert ", " == [','] + [' '];
  }

  /** Splitting a `", "`-joined list on commas and trimming gives the items back. */
  lemma {:induction false} SplitTrimJoin(items: seq<string>)
    requires |items| > 0
    requires forall p <- items :: ',' !in p && Trim(p) == p
    ensures TrimAll(Split(Join(items, ", "), ',')) == items
  {
    if |items| == 1 {
      SplitWithoutSeparator(items[0], ',');
    } else {
      var tail := Join(items[1..], ", ");
      var ps := Split(tail, ',');
      var spaced := Split([' '] + tail, ',');
      JoinCommaSpace(items);
      SplitAfterPiece(items[0], ',', [' '] + tail);
      assert Split(Join(items, ", "), ',') == [items[0]] + spaced;
      TrimAllCons(items[0], spaced);
      SplitCons(' ', tail, ',');
      TrimAllLeadingSpace(ps);
      assert TrimAll(spaced) == TrimAll(ps);
      assert forall p <- items[1..] :: p in items;
      SplitTrimJoin(items[1..]);
      assert TrimAll(ps) == items[1..];
      assert [items[0]] + items[1..] == items;
    }
  }

  lemma JoinedCapture(keyword: string, items: seq<string>, rest: string)
    requires |items| > 0
    requires forall p <- items :: NoLineTerminator(p)
    requires rest == [] || IsLineTerminator(rest[0])
    ensures Capture(Pattern(keyword) + Join(items, ", ") + rest, keyword) == Some(Join(items, ", "))
  {
    assert NoLineTerminator(", ") by { assert forall k :: 0 <= k < 2 ==> ", "[k] in {',', ' '}; }
    JoinNoLineTerminator(items, ", ");
    var joined := Join(items, ", ");
    assert NoLineTerminator(joined);
    CaptureAtStart(keyword, joined, rest);
  }

  /** A `!Keyword: a, b, c` line yields the items it lists. */
  lemma DirectiveListRoundTrip(keyword: string, items: seq<string>, rest: string)
    requires |items| > 0
    requires forall p <- items :: ',' !in p && Trim(p) == p && NoLineTerminator(p)
    requires rest == [] || IsLineTerminator(rest[0])
    ensures DirectiveList(Pattern(keyword) + Join(items, ", ") + rest, keyword) == items
  {
    JoinedCapture(keyword, items, rest);
    SplitTrimJoin(items);
    DirectiveListOfCapture(Pattern(keyword) + Join(items, ", ") + rest, keyword, Join(items, ", "));
  }

  /** `!Assignee: A, B` yields `["A", "B"]`. */
  lemma AssigneeExample(description: string)
    requires description == "!Assignee: A, B"
    ensures ExtractTaskAssignee(description) == ["A", "B"]
  {
    var items := ["A", "B"];
    TrimUnique("A", "A", 0);
    TrimUnique("B", "B", 0);
    assert Pattern("Assignee") + Join(items, ", ") + [] == description by {
      assert Join(items, ", ") == "A, B";
    }
    DirectiveListRoundTrip("Assignee", items, []);
  }

  // ---------------------------------------------------------------- project

  /** `_extractTaskProject`: the capture verbatim, untrimmed, or null. */
  function ExtractTaskProject(description: string): (r: Option<string>)
    ensures r.None? <==> forall i: nat :: !OccursAt(description, Pattern("Project"), i)
    ensures r.Some? ==> NoLineTerminator(r.value)
    ensures r.Some? ==> exists i: nat :: FirstMatchAt(description, Pattern("Project"), i, r.value)
  {
    var r := Capture(description, "Project");
    if r.Some? then
      CaptureIsFirstMatch(description, "Project", r.value);
      r
    else r
  }

  // ---------------------------------------------------------------- dev window

  /** `capture.split("-").map(d => d.trim())`. */
  function DevSegments(capture: string): (dates: seq<string>)
    ensures |dates| == multiset(capture)['-'] + 1
  {
    SplitCount(capture, '-');
    TrimAll(Split(capture, '-'))
  }

  /** The post-processing of the `!Dev:` capture: one segment is a deadline
      starting now; otherwise the first two segments are start and due. */
  function DevWindow(capture: string, now: int, parse: string -> Option<int>): (r: Option<Window>)
    ensures var dates := DevSegments(capture);
      if |dates| == 1 then
        (r.Some? <==> parse(dates[0]).Some?) && (r.Some? ==> r.value == Window(now, parse(dates[0]).value))
      else
        && (r.Some? <==> parse(dates[0]).Some? && parse(dates[1]).Some? && parse(dates[0]).value <= parse(dates[1]).value)
        && (r.Some? ==> r.value == Window(parse(dates[0]).value, parse(dates[1]).value) && r.value.start <= r.value.due)
  {
    var dates := DevSegments(capture);
    if |dates| < 2 then
      match parse(dates[0])
      case None => None
      case Some(due) => Some(Window(now, due))
    else
      match (parse(dates[0]), parse(dates[1]))
      case (Some(start), Some(due)) => if start > due then None else Some(Window(start, due))
      case _ => None
  }

  /** `_extractTaskDevTime`. */
  function ExtractTaskDevTime(description: string, now: int, parse: string -> Option<int>): (r: Option<Window>)
    ensures Capture(description, "Dev").None? ==> r.None?
    ensures r.Some? && multiset(Capture(description, "Dev").value)['-'] >= 1 ==> r.value.start <= r.value.due
    ensures r.Some? && multiset(Capture(description, "Dev").value)['-'] == 0 ==> r.value.start == now
    ensures Capture(description, "Dev").Some? ==> r == DevWindow(Capture(description, "Dev").value, now, parse)
  {
    match Capture(description, "Dev")
    case None => None
    case Some(c) => DevWindow(c, now, parse)
  }

  /** Only the first two segments matter once there are at least two. */
  lemma DevWindowFirstTwo(c1: string, c2: string, now: int, parse: string -> Option<int>)
    requires |DevSegments(c1)| >= 2 && |DevSegments(c2)| >= 2
    requires DevSegments(c1)[0] == DevSegments(c2)[0] && DevSegments(c1)[1] == DevSegments(c2)[1]
    ensures DevWindow(c1, now, parse) == DevWindow(c2, now, parse)
  {
  }

  /** The trimmed first two pieces of `a-b-...`. */
  lemma DevSegmentsOfPair(a: string, b: string, tail: seq<string>, c: string)
    requires Split(c, '-') == [a, b] + tail
    ensures |DevSegments(c)| >= 2 && DevSegments(c)[0] == Trim(a) && DevSegments(c)[1] == Trim(b)
  {
    TrimAllCons(a, [b] + tail);
    TrimAllCons(b, tail);
    assert [a, b] + tail == [a] + ([b] + tail);
  }

  /** Segments after the second are ignored, not rejected. */
  lemma DevIgnoresExtraSegments(a: string, b: string, more: string, now: int, parse: string -> Option<int>)
    requires '-' !in a && '-' !in b
    ensures DevWindow(a + "-" + b + "-" + more, now, parse) == DevWindow(a + "-" + b, now, parse)
    ensures |DevSegments(a + "-" + b + "-" + more)| == 2 + |DevSegments(more)|
  {
    var long := a + "-" + b + "-" + more;
    var short := a + "-" + b;
    assert long == a + ['-'] + (b + ['-'] + more);
    assert short == a + ['-'] + b;
    SplitAfterPiece(a, '-', b + ['-'] + more);
    SplitAfterPiece(b, '-', more);
    assert Split(long, '-') == [a, b] + Split(more, '-');
    SplitAfterPiece(a, '-', b);
    SplitWithoutSeparator(b, '-');
    assert Split(short, '-') == [a, b] + [];
    DevSegmentsOfPair(a, b, Split(more, '-'), long);
    DevSegmentsOfPair(a, b, [], short);
    DevWindowFirstTwo(long, short, now, parse);
  }

  /** An ISO date `2024-01-10` is three segments, so its window comes from
      parsing `2024` and `01`, not from the date itself. */
  lemma IsoDateIsThreeSegments(iso: string, now: int, parse: string -> Option<int>)
    requires iso == "2024-01-10"
    ensures DevWindow(iso, now, parse) == DevWindow("2024-01", now, parse)
    ensures |DevSegments(iso)| == 3
  {
    var year, month, day := "2024", "01", "10";
    assert iso == year + "-" + month + "-" + day && year + "-" + month == "2024-01";
    assert '-' !in year && '-' !in month && '-' !in day;
    DevIgnoresExtraSegments(year, month, day, now, parse);
    SplitWithoutSeparator(day, '-');
  }

  /** A capture without `-` is a single deadline: the window runs from now to it,
      whatever its order relative to now. */
  lemma DevSingleSegment(c: string, now: int, parse: string -> Option<int>)
    requires '-' !in c
    ensures DevSegments(c) == [Trim(c)]
    ensures DevWindow(c, now, parse) ==
      if parse(Trim(c)).Some? then Some(Window(now, parse(Trim(c)).value)) else None
  {
    SplitWithoutSeparator(c, '-');
  }

  /** A single deadline earlier than now still gives a window, with start after due. */
  lemma SingleDeadlineMayPrecedeNow(deadline: string, parse: string -> Option<int>)
    requires deadline == "2020" && parse(deadline) == Some(0)
    ensures DevWindow(deadline, 1, parse) == Some(Window(1, 0))
  {
    assert '-' !in deadline;
    assert TrimmedAt(deadline, deadline, 0) by {
      assert deadline[..0] == [] && deadline[|deadline|..] == [];
    }
    assert !IsTrimmable(deadline[0]) && !IsTrimmable(deadline[|deadline| - 1]);
    TrimUnique(deadline, deadline, 0);
    DevSingleSegment(deadline, 1, parse);
  }

  // ---------------------------------------------------------------- release window

  /** `d ? Date.parse(d) : null`, with null and NaN both `None` (both are falsy). */
  function ParseOrNull(d: Option<string>, parse: string -> Option<int>): (r: Option<int>)
    ensures r.Some? <==> d.Some? && d.value != "" && parse(d.value).Some?
    ensures r.Some? ==> r.value == parse(d.value).value
  {
    if d.None? || d.value == "" then None else parse(d.value)
  }

  /** The start after `if (!start || isNaN(start)) start = Date.now()`: a missing,
      unparseable or zero timestamp becomes now. */
  function EffectiveStart(startDate: Option<string>, now: int, parse: string -> Option<int>): (start: int)
    ensures ParseOrNull(startDate, parse).Some? && ParseOrNull(startDate, parse).value != 0 ==> start == ParseOrNull(startDate, parse).value
    ensures ParseOrNull(startDate, parse).None? || ParseOrNull(startDate, parse).value == 0 ==> start == now
  {
    var p := ParseOrNull(startDate, parse);
    if p.None? || p.value == 0 then now else p.value
  }

  /** `_extractTaskReleaseTime`: null unless the due date parses to a non-zero
      timestamp no earlier than the effective start. */
  function ExtractTaskReleaseTime(startDate: Option<string>, dueDate: Option<string>, now: int, parse: string -> Option<int>): (r: Option<Window>)
    ensures r.Some? ==> r.value.start <= r.value.due
    ensures r.Some? ==> r.value.start == EffectiveStart(startDate, now, parse)
    ensures r.Some? ==> dueDate.Some? && dueDate.value != "" && parse(dueDate.value) == Some(r.value.due) && r.value.due != 0
    ensures r.None? <==>
      || ParseOrNull(dueDate, parse).None?
      || ParseOrNull(dueDate, parse).value == 0
      || EffectiveStart(startDate, now, parse) > ParseOrNull(dueDate, parse).value
  {
    var start := EffectiveStart(startDate, now, parse);
    var due := ParseOrNull(dueDate, parse);
    if due.None? || due.value == 0 || start > due.value then None
    else Some(Window(start, due.value))
  }

  /** No start date and a parseable due date give the window from now to the due date. */
  lemma ReleaseWindowFromNow(due: string, now: int, parse: string -> Option<int>)
    requires due != "" && parse(due).Some? && parse(due).value != 0 && now <= parse(due).value
    ensures ExtractTaskReleaseTime(None, Some(due), now, parse) == Some(Window(now, parse(due).value))
  {
  }

  // ---------------------------------------------------------------- normaliser

  /** The composite id `{projectKey}-{issueKey}`. */
  function TaskId(projectKey: string, issueKey: string): (id: string)
    ensures |id| == |projectKey| + 1 + |issueKey|
    ensures id[..|projectKey|] == projectKey && id[|projectKey|] == '-' && id[|projectKey| + 1..] == issueKey
  {
    projectKey + "-" + issueKey
  }

  /** For project keys without a hyphen, the composite id determines key and issue. */
  lemma TaskIdInjective(k1: string, i1: string, k2: string, i2: string)
    requires '-' !in k1 && '-' !in k2
    requires TaskId(k1, i1) == TaskId(k2, i2)
    ensures k1 == k2 && i1 == i2
  {
  }

  /** `extractTaskInfo`: throws (TypeError) when `project` or `content` is missing;
      otherwise builds a task from the structural fields and the directives. */
  function ExtractTaskInfo(w: Webhook, now: int, parse: string -> Option<int>): (r: Result<Task, RequestError>)
    ensures r.Err? <==> w.project.None? || w.content.None?
    ensures r.Ok? ==> r.value.id == TaskId(w.project.value.projectKey, w.content.value.keyId)
    ensures r.Ok? ==> r.value.name == r.value.id + " " + w.content.value.summary
    ensures r.Ok? ==> r.value.priority == w.content.value.priority.name
    ensures r.Ok? ==> r.value.status == ExtractTaskStatus(w.content.value.description)
    ensures r.Ok? ==> r.value.project == ExtractTaskProject(w.content.value.description)
    ensures r.Ok? ==> r.value.devDueDate == ExtractTaskDevTime(w.content.value.description, now, parse)
    ensures r.Ok? ==>
      r.value.releaseDueDate == ExtractTaskReleaseTime(w.content.value.startDate, w.content.value.dueDate, now, parse)
    ensures r.Ok? ==> (r.value.parentTaskId.Some? <==> w.content.value.parentIssueId.Some? && w.content.value.parentIssueId.value != 0)
    ensures r.Ok? && r.value.parentTaskId.Some? ==>
      r.value.parentTaskId.value == TaskId(w.project.value.projectKey, NumberToString(w.content.value.parentIssueId.value))
    ensures r.Ok? ==> r.value.assignees == Some(ExtractTaskAssignee(w.content.value.description))
    ensures r.Ok? ==> r.value.tags == Some(ExtractTags(w.content.value.description))
    ensures r.Ok? ==> r.value.releaseDueDate.Some? ==> r.value.releaseDueDate.value.start <= r.value.releaseDueDate.value.due
  {
    if w.project.None? || w.content.None? then Err(MissingProjectOrContent)
    else
      var projectKey := w.project.value.projectKey;
      var content := w.content.value;
      var description := content.description;
      var taskId := TaskId(projectKey, content.keyId);
      var directiveAssignees := ExtractTaskAssignee(description);
      Ok(Task(
        id := taskId,
        name := taskId + " " + content.summary,
        priority := content.priority.name,
        status := ExtractTaskStatus(description),
        // an array is always truthy, so `|| [content.assignee?.name] || null` never applies
        assignees := Some(directiveAssignees),
        project := ExtractTaskProject(description),
        devDueDate := ExtractTaskDevTime(description, now, parse),
        releaseDueDate := ExtractTaskReleaseTime(content.startDate, content.dueDate, now, parse),
        parentTaskId :=
          if content.parentIssueId.Some? && content.parentIssueId.value != 0
          then Some(TaskId(projectKey, NumberToString(content.parentIssueId.value)))
          else None,
        tags := Some(ExtractTags(description))))
  }

  /** A task's id is a prefix of its name. */
  lemma TaskIdPrefixesName(w: Webhook, now: int, parse: string -> Option<int>)
    requires ExtractTaskInfo(w, now, parse).Ok?
    ensures ExtractTaskInfo(w, now, parse).value.id <= ExtractTaskInfo(w, now, parse).value.name
  {
  }

  /** The structural assignee never reaches a task: the list from the
      directive (possibly empty) is always used. */
  lemma AssigneeFallbackUnreachable(w: Webhook, other: Option<Named>, now: int, parse: string -> Option<int>)
    requires w.project.Some? && w.content.Some?
    ensures ExtractTaskInfo(w.(content := Some(w.content.value.(assignee := other))), now, parse) == ExtractTaskInfo(w, now, parse)
    ensures ExtractTaskInfo(w, now, parse).value.assignees.Some?
  {
  }
}
