/**
 * The records of the defect tracker that the status handlers and the update
 * serializer change: a defect, its history rows, and a user's profile.
 * Database rows become objects and values; the ORM itself is not modelled.
 */
module Models {
  import opened Wrappers

  type UserId = nat
  type ProjectId = nat

  /** A reading of the server clock (`timezone.now()`). */
  type Instant = int

  /** Keep the first 50 characters of a summary in a defect's display string. */
  const SummaryPreviewLength: nat := 50

  datatype Status = Open | Closed | Reopen | Approved | Invalid | Pending
  datatype Severity = S1 | S2 | S3 | S4 | S5 | S6
  datatype MentorState = MentorPending | MentorApproved | MentorInvalid
  datatype Role = Student | Mentor | Client

  /** The four defect fields a client may edit through the update serializer. */
  datatype EditableField = Summary | Priority | ActualResult | ExpectedResult

  /** One entry of an update's `changes` dictionary: `{'old': ..., 'new': ...}`. */
  datatype Change = Change(oldValue: string, newValue: string)

  datatype HistoryAction = CreatedAction | UpdatedAction | ApprovedAction | InvalidatedAction

  /** A `DefectHistory` row; `changes` is None where the row is created without one. */
  datatype HistoryEntry = HistoryEntry(
    action: HistoryAction,
    performedBy: UserId,
    changes: Option<map<EditableField, Change>>,
    comments: string,
    timestamp: Instant)

  /** Every mutable field of a defect at one moment, with its history rows in creation order. */
  datatype DefectFields = DefectFields(
    summary: string,
    priority: string,
    actualResult: string,
    expectedResult: string,
    stepsToReproduce: string,
    severity: Severity,
    status: Status,
    mentorState: MentorState,
    approvedBy: Option<UserId>,
    createdAt: Instant,
    updatedAt: Instant,
    approvedAt: Option<Instant>,
    history: seq<HistoryEntry>)

  /** `getattr(instance, field)` for an editable field. */
  function FieldValue(s: DefectFields, f: EditableField): string
  {
    match f
    case Summary => s.summary
    case Priority => s.priority
    case ActualResult => s.actualResult
    case ExpectedResult => s.expectedResult
  }

  /** `setattr(instance, f, v)`: field `f` holds `v`, and nothing else changes. */
  function WithField(s: DefectFields, f: EditableField, v: string): (t: DefectFields)
    ensures FieldValue(t, f) == v
    ensures forall g :: g != f ==> FieldValue(t, g) == FieldValue(s, g)
    ensures t.(summary := s.summary, priority := s.priority,
               actualResult := s.actualResult, expectedResult := s.expectedResult) == s
  {
    match f
    case Summary => s.(summary := v)
    case Priority => s.(priority := v)
    case ActualResult => s.(actualResult := v)
    case ExpectedResult => s.(expectedResult := v)
  }

  /**
   * The `approved_at` that `Defect.save` leaves behind: an approved defect
   * without a stamp gets `now`; an existing stamp is never overwritten; a
   * defect in any other status keeps what it had.
   */
  function ApprovalStampAfterSave(status: Status, approvedAt: Option<Instant>, now: Instant): (r: Option<Instant>)
    ensures status == Approved ==> r.Some?
    ensures approvedAt.Some? ==> r == approvedAt
    ensures status != Approved ==> r == approvedAt
    ensures status == Approved && approvedAt.None? ==> r == Some(now)
  {
    if status == Approved && approvedAt.None? then Some(now) else approvedAt
  }

  /** The fields after `Defect.save`: the approval stamp rule, and `updated_at` (auto_now) set to `now`. */
  function Saved(s: DefectFields, now: Instant): (t: DefectFields)
    ensures t.status == Approved ==> t.approvedAt.Some?
  {
    s.(approvedAt := ApprovalStampAfterSave(s.status, s.approvedAt, now), updatedAt := now)
  }

  /** The digit character of a number below ten. */
  function Digit(d: nat): (c: char)
    requires d < 10
    ensures '0' <= c <= '9'
  {
    ('0' as int + d) as char
  }

  /** `str(n)` for a non-negative integer: decimal digits, no leading zero. */
  function DecimalString(n: nat): (s: string)
    ensures |s| > 0
    ensures forall i :: 0 <= i < |s| ==> '0' <= s[i] <= '9'
    ensures s[0] == '0' ==> n == 0
    ensures |s| > 1 ==> s[0] != '0'
  {
    if n < 10 then [Digit(n)] else DecimalString(n / 10) + [Digit(n % 10)]
  }

  /** The number a string of decimal digits denotes. */
  function DecimalValue(s: string): nat
    requires forall i :: 0 <= i < |s| ==> '0' <= s[i] <= '9'
  {
    if s == [] then 0 else 10 * DecimalValue(s[..|s| - 1]) + (s[|s| - 1] as int - '0' as int)
  }

  /** The id in a defect's display string can be read back. */
  lemma {:induction false} DecimalStringRoundTrip(n: nat)
    ensures DecimalValue(DecimalString(n)) == n
  {
    var s := DecimalString(n);
    if n >= 10 {
      DecimalStringRoundTrip(n / 10);
      assert s[..|s| - 1] == DecimalString(n / 10);
    }
  }

  /**
   * `Defect.__str__`: "Defect #", the id, " - ", then the summary cut to its
   * first 50 characters.
   */
  function DefectDisplay(id: nat, summary: string): (r: string)
    ensures var digits := DecimalString(id);
      && 11 + |digits| <= |r| <= 11 + |digits| + |summary|
      && r[..8] == "Defect #"
      && r[8..8 + |digits|] == digits
      && r[8 + |digits|..11 + |digits|] == " - "
      && var shown := r[11 + |digits|..];
      && |shown| <= SummaryPreviewLength
      && shown == summary[..|shown|]
      && (|summary| <= SummaryPreviewLength ==> shown == summary)
      && (|summary| > SummaryPreviewLength ==> |shown| == SummaryPreviewLength)
  {
    var cut := if |summary| <= SummaryPreviewLength then |summary| else SummaryPreviewLength;
    "Defect #" + DecimalString(id) + " - " + summary[..cut]
  }

  /** A Django user, as far as the profile reads it. */
  datatype User = User(id: UserId, username: string, email: string)

  /** A user's profile. */
  datatype UserProfile = UserProfile(user: User, role: Role, firebaseUid: Option<string>)

  /** `UserProfile.full_name`: the user's username, whatever the rest of the profile holds. */
  function FullName(p: UserProfile): (r: string)
    ensures r == p.user.username
  {
    p.user.username
  }

  /** A defect row held in memory; the ORM's `save` becomes `Save`. */
  class Defect {
    const defectId: nat
    const project: ProjectId
    const createdBy: UserId
    var summary: string
    var priority: string
    var actualResult: string
    var expectedResult: string
    var stepsToReproduce: string
    var severity: Severity
    var status: Status
    var mentorState: MentorState
    var approvedBy: Option<UserId>
    var createdAt: Instant
    var updatedAt: Instant
    var approvedAt: Option<Instant>
    /** The defect's `DefectHistory` rows (`defect.history`), oldest first. */
    var history: seq<HistoryEntry>

    /** The current values of all mutable fields. */
    function Snapshot(): DefectFields
      reads this
    {
      DefectFields(summary, priority, actualResult, expectedResult, stepsToReproduce,
                   severity, status, mentorState, approvedBy, createdAt, updatedAt, approvedAt, history)
    }

    /** An approved defect carries an approval time. */
    predicate ApprovalStamped()
      reads this
    {
      status == Approved ==> approvedAt.Some?
    }

    /**
     * A new defect with the given entries and the model's defaults: status
     * OPEN, severity S4, mentor state Pending, no approval, no history.
     */
    constructor (id: nat, project: ProjectId, createdBy: UserId, summary: string, priority: string,
                 actualResult: string, expectedResult: string, stepsToReproduce: string, now: Instant)
      ensures defectId == id && this.project == project && this.createdBy == createdBy
      ensures Snapshot() == DefectFields(summary, priority, actualResult, expectedResult, stepsToReproduce,
                                         S4, Open, MentorPending, None, now, now, None, [])
      ensures ApprovalStamped()
    {
      defectId := id;
      this.project := project;
      this.createdBy := createdBy;
      this.summary := summary;
      this.priority := priority;
      this.actualResult := actualResult;
      this.expectedResult := expectedResult;
      this.stepsToReproduce := stepsToReproduce;
      severity := S4;
      status := Open;
      mentorState := MentorPending;
      approvedBy := None;
      createdAt := now;
      updatedAt := now;
      approvedAt := None;
      history := [];
    }

    /** `getattr(self, f)` for an editable field. */
    function Get(f: EditableField): (v: string)
      reads this
      ensures v == FieldValue(Snapshot(), f)
    {
      match f
      case Summary => summary
      case Priority => priority
      case ActualResult => actualResult
      case ExpectedResult => expectedResult
    }

    /** `setattr(self, f, v)` for an editable field. */
    method Set(f: EditableField, v: string)
      modifies this
      ensures Snapshot() == WithField(old(Snapshot()), f, v)
    {
      match f
      case Summary => summary := v;
      case Priority => priority := v;
      case ActualResult => actualResult := v;
      case ExpectedResult => expectedResult := v;
    }

    /** `Defect.save`: stamp an approved defect that has no approval time yet, and touch `updated_at`. */
    method Save(now: Instant)
      modifies this
      ensures Snapshot() == Saved(old(Snapshot()), now)
      ensures ApprovalStamped()
      ensures old(approvedAt).Some? ==> approvedAt == old(approvedAt)
      ensures old(status) != Approved ==> approvedAt == old(approvedAt)
    {
      if status == Approved && approvedAt.None? {
        approvedAt := Some(now);
      }
      updatedAt := now;
    }

    /** `Defect.__str__`. */
    function ToString(): (r: string)
      reads this
      ensures r == DefectDisplay(defectId, summary)
    {
      DefectDisplay(defectId, summary)
    }
  }
}
