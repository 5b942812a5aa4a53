/** Record shapes of the inbound issue-tracker webhook and of the normalised
    task, the marker category and the status vocabulary. */
module Consts {
  import opened Wrappers

  /** The issue's project; `projectKey` prefixes every task id. */
  datatype Project = Project(id: int, projectKey: string, name: string)

  /** An `{ id, name }` pair: priority, status, category and assignee. */
  datatype Named = Named(id: int, name: string)

  datatype Comment = Comment(id: int, content: string)

  /** The issue itself. `category` is optional because the gate must reject a
      body without it; `parentIssueId`, the dates and the assignee may be null. */
  datatype Content = Content(
    id: int,
    keyId: string,
    summary: string,
    description: string,
    comment: Comment,
    parentIssueId: Option<int>,
    startDate: Option<string>,
    dueDate: Option<string>,
    priority: Named,
    status: Named,
    category: Option<seq<Named>>,
    assignee: Option<Named>)

  /** The webhook body. `project` and `content` may be missing in a malformed body
      (`type` of the JSON body is `kind` here). */
  datatype Webhook = Webhook(id: int, project: Option<Project>, kind: int, content: Option<Content>)

  /** A date window; both ends are millisecond timestamps standing for the ISO strings. */
  datatype Window = Window(start: int, due: int)

  /** The normalised task. `id`, `name`, `priority` and `status` are always present;
      the other fields may be null. */
  datatype Task = Task(
    id: string,
    name: string,
    priority: string,
    status: TaskStatus,
    project: Option<string>,
    assignees: Option<seq<string>>,
    tags: Option<seq<string>>,
    devDueDate: Option<Window>,
    releaseDueDate: Option<Window>,
    parentTaskId: Option<string>)

  /** The category name that opts an issue into processing. */
  const GvnCategory: string := "GGJVN"

  datatype TaskStatus =
    | NotStarted | Pending | DependJp | InProgress | VnVerify | JpVerify | Reviewing | Done
  {
    /** The enum's string value, as sent to the Notion store. */
    function Label(): string {
      match this
      case NotStarted => "Not Started"
      case Pending => "Pending"
      case DependJp => "Depend JP"
      case InProgress => "In Progress"
      case VnVerify => "VN Verify"
      case JpVerify => "JP Verify"
      case Reviewing => "Reviewing"
      case Done => "Done"
    }
  }

  /** Directive keyword to status (own properties of the lookup object). */
  const StatusMapping: map<string, TaskStatus> := map[
    "open" := NotStarted,
    "pending" := Pending,
    "depend" := DependJp,
    "doing" := InProgress,
    "vnverify" := VnVerify,
    "jpverify" := JpVerify,
    "reviewing" := Reviewing,
    "done" := Done
  ]

  /** The names a plain object literal inherits from `Object.prototype`; looking
      one of them up in the mapping yields that inherited member, not `undefined`. */
  const InheritedMembers: set<string> := {
    "constructor", "hasOwnProperty", "isPrototypeOf", "propertyIsEnumerable",
    "toLocaleString", "toString", "valueOf", "__proto__",
    "__defineGetter__", "__defineSetter__", "__lookupGetter__", "__lookupSetter__"
  }

  /** The keyword that selects a status: the inverse of the mapping. */
  function Keyword(st: TaskStatus): (k: string)
    ensures k in StatusMapping && StatusMapping[k] == st
  {
    match st
    case NotStarted => "open"
    case Pending => "pending"
    case DependJp => "depend"
    case InProgress => "doing"
    case VnVerify => "vnverify"
    case JpVerify => "jpverify"
    case Reviewing => "reviewing"
    case Done => "done"
  }

  predicate IsLowerAscii(s: string) {
    forall k :: 0 <= k < |s| ==> 'a' <= s[k] <= 'z'
  }

  /** The keys of the mapping are the eight keywords. */
  lemma StatusMappingKeys()
    ensures StatusMapping.Keys == {"open", "pending", "depend", "doing", "vnverify", "jpverify", "reviewing", "done"}
  {
  }

  /** There are exactly eight keys: one per status. */
  lemma StatusMappingSize()
    ensures |StatusMapping| == 8
  {
    StatusMappingKeys();
    var s1 := {"open"};
    var s2 := s1 + {"pending"};
    var s3 := s2 + {"depend"};
    var s4 := s3 + {"doing"};
    var s5 := s4 + {"vnverify"};
    var s6 := s5 + {"jpverify"};
    var s7 := s6 + {"reviewing"};
    var s8 := s7 + {"done"};
    assert "pending" !in s1;
    assert "depend" !in s2;
    assert "doing" !in s3;
    assert "vnverify" !in s4;
    assert "jpverify" !in s5;
    assert "reviewing" !in s6;
    assert "done" !in s7;
    assert StatusMapping.Keys == s8;
  }

  /** Every key is lower-case, so a directive in any other case is not found. */
  lemma StatusMappingLowerCase()
    ensures forall k <- StatusMapping.Keys :: IsLowerAscii(k)
  {
    StatusMappingKeys();
  }

  /** No key is a member name inherited from `Object.prototype`. */
  lemma StatusMappingOwnKeysOnly()
    ensures StatusMapping.Keys !! InheritedMembers
  {
    StatusMappingLowerCase();
    StatusMappingShortKeys();
    InheritedMembersShape();
  }

  lemma StatusMappingShortKeys()
    ensures forall k <- StatusMapping.Keys :: |k| <= 9
  {
    StatusMappingKeys();
  }

  /** Each inherited member name is longer than any keyword or has a character
      other than a lower-case letter. */
  lemma InheritedMembersShape()
    ensures forall m <- InheritedMembers :: |m| > 9 || !IsLowerAscii(m)
  {
    assert !IsLowerAscii("toString") by { assert "toString"[2] == 'S'; }
    assert !IsLowerAscii("valueOf") by { assert "valueOf"[5] == 'O'; }
    assert !IsLowerAscii("__proto__") by { assert "__proto__"[0] == '_'; }
  }

  /** The mapping is a bijection from its keys onto the statuses. */
  lemma StatusMappingBijective()
    ensures forall st: TaskStatus :: Keyword(st) in StatusMapping && StatusMapping[Keyword(st)] == st
    ensures forall k <- StatusMapping.Keys :: Keyword(StatusMapping[k]) == k
    ensures forall k1 <- StatusMapping.Keys, k2 <- StatusMapping.Keys :: StatusMapping[k1] == StatusMapping[k2] ==> k1 == k2
  {
    StatusMappingKeys();
    forall k <- StatusMapping.Keys ensures Keyword(StatusMapping[k]) == k {
      assert k in {"open", "pending", "depend", "doing", "vnverify", "jpverify", "reviewing", "done"};
    }
  }

  /** The default status is also the image of the keyword `open`. */
  lemma DefaultIsOpen()
    ensures StatusMapping["open"] == NotStarted && Keyword(NotStarted) == "open"
  {
  }

  /** The eight labels are pairwise distinct. */
  lemma LabelsDistinct()
    ensures forall a: TaskStatus, b: TaskStatus :: a.Label() == b.Label() ==> a == b
  {
  }

  /** The marker category is the literal `GGJVN`. */
  lemma MarkerCategory()
    ensures GvnCategory == "GGJVN" && |GvnCategory| == 5
  {
  }
}
