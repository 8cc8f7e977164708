/**
 * The parts of the request handlers that decide something: the four status
 * transitions a mentor can apply to a defect, the status counts of the
 * statistics view, and the row numbering of the user dashboard.  The caller
 * is taken to be a mentor of the defect's project and the defect to exist;
 * looking both up, and building the HTTP response, are not modelled.
 */
module Views {
  import opened Wrappers
  import opened Models
  import Dedup

  /** The distance threshold the client views hand to the duplicate filter. */
  const AiFilterUniqueDefectsThreshold: real := 0.3

  /**
   * The client views' call `ai_filter_unique_defects(defects,
   * AI_FILTER_UNIQUE_DEFECTS_THRESHOLD)`: the filter with its threshold set
   * to the views' constant instead of its own default.
   */
  method UniqueDefectsForClient(defects: seq<Dedup.Record>, labels: seq<int>, parse: Dedup.Parser)
    returns (r: Result<seq<Dedup.Record>, Dedup.DedupError>, call: Option<Dedup.ModelCall>)
    requires |defects| >= 2 ==> |labels| == |defects|
    ensures |defects| < 2 ==> r == Ok(defects) && call.None?
    ensures call.Some? <==> |defects| >= 2
    ensures call.Some? ==> call.value.threshold == AiFilterUniqueDefectsThreshold
    ensures |defects| >= 2 ==> (r.Ok? <==> Dedup.SameLabelComparable(defects, labels, parse))
  {
    r, call := Dedup.FilterUniqueDefects(defects, labels, parse, AiFilterUniqueDefectsThreshold);
  }

  const MentorApproveComment: string := "Defect approved by mentor"
  const MentorInvalidateComment: string := "Defect marked as invalid by mentor"

  /**
   * What a handler answers: the serialized defect, a refusal with its HTTP
   * status and error text, a 200 reply carrying only a message, or the
   * `IntegrityError` the database raises for a history row whose comment is
   * NULL.
   */
  datatype Reply = DefectDetail | Refused(httpStatus: nat, error: string) | Notice(message: string) | NullCommentRejected

  /** The `comments` entry of the request body: missing, a JSON null, or a string. */
  datatype CommentEntry = NoComment | NullComment | CommentText(s: string)

  /**
   * `request.data.get('comments', default)`: the default when the entry is
   * missing, the text when there is one, and `None` for a JSON null, which
   * the NOT NULL `comments` column refuses.
   */
  function CommentOr(comments: CommentEntry, default: string): (c: Option<string>)
    ensures comments.NoComment? ==> c == Some(default)
    ensures comments.CommentText? ==> c == Some(comments.s)
    ensures c.None? <==> comments.NullComment?
  {
    match comments
    case NoComment => Some(default)
    case NullComment => None
    case CommentText(text) => Some(text)
  }

  /**
   * `mentor_defect_approve`: an APPROVED defect is refused with 400 and left
   * as it is; any other defect becomes APPROVED with mentor state Approved,
   * approved by the mentor now, is saved, and gains one APPROVED history row.
   * A null comment makes the history row fail; the handler runs in one
   * transaction, so the defect then stays as it was.
   */
  method MentorDefectApprove(d: Defect, mentor: UserId, comments: CommentEntry, now: Instant) returns (reply: Reply)
    modifies d
    ensures old(d.status) == Approved ==> reply == Refused(400, "Already approved") && d.Snapshot() == old(d.Snapshot())
    ensures old(d.status) != Approved && comments.NullComment? ==>
      reply == NullCommentRejected && d.Snapshot() == old(d.Snapshot())
    ensures old(d.status) != Approved && !comments.NullComment? ==> reply == DefectDetail && d.Snapshot() == old(d.Snapshot()).(
      status := Approved, mentorState := MentorApproved, approvedBy := Some(mentor),
      approvedAt := Some(now), updatedAt := now,
      history := old(d.history) + [HistoryEntry(ApprovedAction, mentor, None, CommentOr(comments, MentorApproveComment).value, now)])
    ensures old(d.ApprovalStamped()) ==> d.ApprovalStamped()
  {
    if d.status == Approved {
      return Refused(400, "Already approved");
    }
    var comment := CommentOr(comments, MentorApproveComment);
    if comment.None? {
      // the failed insert rolls the whole transaction back
      return NullCommentRejected;
    }
    d.status := Approved;
    d.mentorState := MentorApproved;
    d.approvedBy := Some(mentor);
    d.approvedAt := Some(now);
    d.Save(now);
    d.history := d.history + [HistoryEntry(ApprovedAction, mentor, None, comment.value, now)];
    reply := DefectDetail;
  }

  /**
   * `mentor_defect_invalidate`: an INVALID defect is refused with 400 and
   * left as it is; any other defect becomes INVALID with mentor state
   * Invalid, keeps its approver and approval time, is saved, and gains one
   * INVALIDATED history row.  A null comment makes the history row fail and
   * the transaction leaves the defect as it was.
   */
  method MentorDefectInvalidate(d: Defect, mentor: UserId, comments: CommentEntry, now: Instant) returns (reply: Reply)
    modifies d
    ensures old(d.status) == Invalid ==> reply == Refused(400, "Already invalidated") && d.Snapshot() == old(d.Snapshot())
    ensures old(d.status) != Invalid && comments.NullComment? ==>
      reply == NullCommentRejected && d.Snapshot() == old(d.Snapshot())
    ensures old(d.status) != Invalid && !comments.NullComment? ==> reply == DefectDetail && d.Snapshot() == old(d.Snapshot()).(
      status := Invalid, mentorState := MentorInvalid, updatedAt := now,
      history := old(d.history) + [HistoryEntry(InvalidatedAction, mentor, None, CommentOr(comments, MentorInvalidateComment).value, now)])
    ensures !comments.NullComment? ==> d.ApprovalStamped()
    ensures old(d.ApprovalStamped()) ==> d.ApprovalStamped()
  {
    if d.status == Invalid {
      return Refused(400, "Already invalidated");
    }
    var comment := CommentOr(comments, MentorInvalidateComment);
    if comment.None? {
      // the failed insert rolls the whole transaction back
      return NullCommentRejected;
    }
    d.status := Invalid;
    d.mentorState := MentorInvalid;
    d.Save(now);
    d.history := d.history + [HistoryEntry(InvalidatedAction, mentor, None, comment.value, now)];
    reply := DefectDetail;
  }

  /**
   * `approve_defect`: an APPROVED defect is left as it is and the answer
   * still succeeds; any other defect becomes APPROVED, approved by the
   * mentor now, with its mentor state untouched, is saved, and gains one
   * APPROVED history row.  There is no transaction: with a null comment the
   * saved approval stays and only the history row is missing.
   */
  method ApproveDefect(d: Defect, mentor: UserId, comments: CommentEntry, now: Instant) returns (reply: Reply)
    modifies d
    ensures old(d.status) == Approved ==> reply == Notice("Defect already approved") && d.Snapshot() == old(d.Snapshot())
    ensures old(d.status) != Approved ==>
      && reply == (if comments.NullComment? then NullCommentRejected else Notice("Defect approved successfully"))
      && d.Snapshot() == old(d.Snapshot()).(
           status := Approved, approvedBy := Some(mentor), approvedAt := Some(now), updatedAt := now,
           history := old(d.history) +
             if comments.NullComment? then []
             else [HistoryEntry(ApprovedAction, mentor, None, CommentOr(comments, MentorApproveComment).value, now)])
    ensures old(d.ApprovalStamped()) ==> d.ApprovalStamped()
  {
    if d.status == Approved {
      return Notice("Defect already approved");
    }
    d.status := Approved;
    d.approvedBy := Some(mentor);
    d.approvedAt := Some(now);
    d.Save(now);
    var comment := CommentOr(comments, MentorApproveComment);
    if comment.None? {
      return NullCommentRejected;
    }
    d.history := d.history + [HistoryEntry(ApprovedAction, mentor, None, comment.value, now)];
    reply := Notice("Defect approved successfully");
  }

  /**
   * `invalidate_defect`: an INVALID defect is left as it is and the answer
   * still succeeds; any other defect becomes INVALID, with nothing else
   * changed but the save's `updated_at`, and gains one INVALIDATED history
   * row.  There is no transaction: with a null comment the saved status
   * stays and only the history row is missing.
   */
  method InvalidateDefect(d: Defect, mentor: UserId, comments: CommentEntry, now: Instant) returns (reply: Reply)
    modifies d
    ensures old(d.status) == Invalid ==> reply == Notice("Defect already marked as invalid") && d.Snapshot() == old(d.Snapshot())
    ensures old(d.status) != Invalid ==>
      && reply == (if comments.NullComment? then NullCommentRejected else Notice("Defect marked as invalid"))
      && d.Snapshot() == old(d.Snapshot()).(
           status := Invalid, updatedAt := now,
           history := old(d.history) +
             if comments.NullComment? then []
             else [HistoryEntry(InvalidatedAction, mentor, None, CommentOr(comments, MentorInvalidateComment).value, now)])
    ensures d.ApprovalStamped()
  {
    if d.status == Invalid {
      return Notice("Defect already marked as invalid");
    }
    d.status := Invalid;
    d.Save(now);
    var comment := CommentOr(comments, MentorInvalidateComment);
    if comment.None? {
      return NullCommentRejected;
    }
    d.history := d.history + [HistoryEntry(InvalidatedAction, mentor, None, comment.value, now)];
    reply := Notice("Defect marked as invalid");
  }

  /** The number of defects in `ds` with status `s`. */
  function CountStatus(ds: seq<DefectFields>, s: Status): (n: nat)
    ensures n <= |ds|
    ensures n == 0 <==> forall i :: 0 <= i < |ds| ==> ds[i].status != s
  {
    if ds == [] then 0
    else CountStatus(ds[..|ds| - 1], s) + (if ds[|ds| - 1].status == s then 1 else 0)
  }

  /** The number of defects in `ds` with priority `p`. */
  function CountPriority(ds: seq<DefectFields>, p: string): (n: nat)
    ensures n <= |ds|
    ensures n == 0 <==> forall i :: 0 <= i < |ds| ==> ds[i].priority != p
  {
    if ds == [] then 0
    else CountPriority(ds[..|ds| - 1], p) + (if ds[|ds| - 1].priority == p then 1 else 0)
  }

  /** No defect has two statuses, so the three counts together never exceed the total. */
  lemma {:induction false} DisjointStatusCounts(ds: seq<DefectFields>)
    ensures CountStatus(ds, Approved) + CountStatus(ds, Pending) + CountStatus(ds, Invalid) <= |ds|
  {
    if ds != [] {
      DisjointStatusCounts(ds[..|ds| - 1]);
    }
  }

  /** The answer of the statistics view. */
  datatype Stats = Stats(
    totalDefects: nat,
    approvedDefects: nat,
    pendingDefects: nat,
    invalidDefects: nat,
    defectsByPriority: map<string, nat>)

  /**
   * `defect_stats` over the defects the caller may see: the total, the
   * numbers of APPROVED, PENDING and INVALID defects, and for every priority
   * that occurs the number of defects with it.
   */
  function DefectStats(ds: seq<DefectFields>): (r: Stats)
    ensures r.totalDefects == |ds|
    ensures r.approvedDefects == CountStatus(ds, Approved)
    ensures r.pendingDefects == CountStatus(ds, Pending)
    ensures r.invalidDefects == CountStatus(ds, Invalid)
    ensures r.approvedDefects + r.pendingDefects + r.invalidDefects <= r.totalDefects
    ensures forall p :: p in r.defectsByPriority <==> exists i :: 0 <= i < |ds| && ds[i].priority == p
    ensures forall p :: p in r.defectsByPriority ==> r.defectsByPriority[p] == CountPriority(ds, p)
    ensures forall p :: p in r.defectsByPriority ==> 1 <= r.defectsByPriority[p] <= r.totalDefects
  {
    DisjointStatusCounts(ds);
    var priorities := set i | 0 <= i < |ds| :: ds[i].priority;
    Stats(|ds|, CountStatus(ds, Approved), CountStatus(ds, Pending), CountStatus(ds, Invalid),
          map p | p in priorities :: CountPriority(ds, p))
  }

  /** One aggregated row of the dashboard query, already ordered by project name. */
  datatype ProjectCounts = ProjectCounts(projectName: string, numDefects: nat, numApproved: nat, numInvalid: nat)

  /** One row of the dashboard answer. */
  datatype DashboardRow = DashboardRow(slNo: nat, projectName: string, numDefects: nat, numApproved: nat, numInvalid: nat)

  /**
   * The numbering loop of `user_dashboard`: row k of the query becomes
   * dashboard row k with serial number k + 1, its counts copied.
   */
  method NumberDashboardRows(rows: seq<ProjectCounts>) returns (dashboard: seq<DashboardRow>)
    ensures |dashboard| == |rows|
    ensures forall k :: 0 <= k < |rows| ==> dashboard[k].slNo == k + 1
    ensures forall k :: 0 <= k < |rows| ==>
      && dashboard[k].projectName == rows[k].projectName
      && dashboard[k].numDefects == rows[k].numDefects
      && dashboard[k].numApproved == rows[k].numApproved
      && dashboard[k].numInvalid == rows[k].numInvalid
  {
    dashboard := [];
    var idx := 1;
    while idx <= |rows|
      invariant 1 <= idx <= |rows| + 1
      invariant |dashboard| == idx - 1
      invariant forall k :: 0 <= k < idx - 1 ==>
        dashboard[k] == DashboardRow(k + 1, rows[k].projectName, rows[k].numDefects, rows[k].numApproved, rows[k].numInvalid)
    {
      var row := rows[idx - 1];
      dashboard := dashboard + [DashboardRow(idx, row.projectName, row.numDefects, row.numApproved, row.numInvalid)];
      idx := idx + 1;
    }
  }
}
