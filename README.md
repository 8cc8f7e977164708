# Defect tracker core, modelled in Dafny

DefectTrackingToolBe is a Django REST back end for reporting software defects.
Students report defects against a project, mentors approve or invalidate them,
and clients see approved defects with near-duplicates filtered out. This project
models the parts of the `DefectTracking/App` package that decide something, and
proves what they promise:

- `dedup.dfy` (module `Dedup`) covers `ai_filter_unique_defects` and
  `convert_date_or_none`. This is the near-duplicate filter, which keeps one
  representative per cluster of similar defects.
  - The sentence encoder and the agglomerative clustering are not modelled.
    The cluster labels are an input, one per record.
  - The method reports what it would hand to them as a `ModelCall`: the
    comparison texts and the distance threshold.
  - `dateutil.parser.parse` is a parameter: any partial map from strings to
    timestamps.
  - Everything between is modelled exactly: the trivial batches, the text
    layout, the grouping into an insertion-ordered dictionary, and Python's
    `min` with the key "parsed date, else defect id".
  - A representative record is an input record of its group. Its key is the
    least in the group, ties go to the earliest record, and the output follows
    each label's first appearance.
  - Python's `min` raises `TypeError` when it must compare a date with an
    integer, or a naive datetime with an aware one. The model returns that
    error instead of inventing an order.
- `models.dfy` (module `Models`) covers the `Defect` record as a class with
  its mutable fields and its history rows, the approval stamp rule of
  `Defect.save`, `Defect.__str__`, `UserProfile.full_name`, and the field
  defaults of a new defect.
- `serializers.dfy` (module `Serializers`) covers:
  - the summary validator of defect creation, with Python's `str.strip`
    whitespace set;
  - the password check of registration;
  - `DefectUpdateSerializer.update`: the `changes` record, the field
    assignment, the save, and the conditional UPDATED history row.
- `views.dfy` (module `Views`) covers:
  - the four status handlers `mentor_defect_approve`,
    `mentor_defect_invalidate`, `approve_defect` and `invalidate_defect`;
  - the counts of `defect_stats`;
  - the row numbering of `user_dashboard`;
  - the 0.3 distance threshold the client views pass to the filter.
- `wrappers.dfy` holds `Option` and `Result`.

Inputs that are not computed here become parameters:
- the clock (`now`);
- the date parser;
- the cluster labels;
- the rows an ORM query returns.

A text entry of a defect row that holds `None` renders as `"None"` in the
comparison text, because the f-string does so. A missing entry renders as `""`.
The model keeps the two apart (`TextField.NullValue` and `TextField.Absent`).

A reader might expect a cluster with records dated 2024-01-03 and 2024-01-01
and one undated record (defect id 42) to give the 2024-01-01 record. It does
not. The undated record's key is the integer 42, so `min` compares a datetime
with an int and raises `TypeError`; `Dedup.MixedDateAndIdKeysRaise` proves that
the model's `min` fails on that group. The same happens for a `created_at` that
is a datetime object rather than a string, as in the `.values()` rows of the
client views. `parse` raises on it, the exception is swallowed, and the key
falls back to the defect id.

Two error paths of the code are modelled as they run:
- `DefectUpdateSerializer.update` reads `self.context['request']` only when
  something changed, after the save. `mentor_defect_detail`
  (DefectTracking/App/views.py:217-221) builds the serializer without a
  context. An edit through it that changes a field is therefore saved, then
  raises `KeyError`, and the UPDATED history row is never written.
  `Serializers.Update` takes the context's request user as an `Option` and
  states this case.
- A JSON `null` comment reaches `DefectHistory.objects.create` as `None`,
  which the NOT NULL `comments` column refuses with `IntegrityError`. The
  mentor handlers run in one transaction, so the defect is left as it was.
  `approve_defect` and `invalidate_defect` have no transaction, so their status
  change stays saved without its history row.

## Model

| member | source | states |
|---|---|---|
| Dedup.ComparisonText | DefectTracking/App/ai_utils.py:23-25 | the text is summary, one space, actual result, one space, expected result; the length and each slice are fixed; a missing entry is "" and a None entry is "None" |
| Dedup.ComparisonTextReadsOnlyTextFields | DefectTracking/App/ai_utils.py:23-25 | two records with the same three text entries have the same comparison text, whatever their id, date and other entries |
| Dedup.ConvertDateOrNone | DefectTracking/App/ai_utils.py:8-13 | a date exactly when `created_at` is a non-empty string the parser accepts, and then the parser's value; None for a missing, None, empty, rejected or non-string entry; never an error |
| Dedup.Comparable | DefectTracking/App/ai_utils.py:42 | Python's `<` on two keys answers, rather than raising `TypeError`, exactly for two ids, or two dates that are both naive or both aware |
| Dedup.Less | DefectTracking/App/ai_utils.py:42 | Python's `<` on comparable keys: ids by value, dates by instant; false on pairs where Python raises |
| Dedup.SortKey | DefectTracking/App/ai_utils.py:42 | the key is the parsed date when there is one, and otherwise the defect id |
| Dedup.MinOfPrefix | DefectTracking/App/ai_utils.py:42 | `min` over the first n elements succeeds exactly when every two of their keys are comparable; then it returns a position below n, no key is smaller than its key, and every earlier element has a strictly larger key |
| Dedup.MinPosition | DefectTracking/App/ai_utils.py:42 | `min` over a non-empty group succeeds iff all keys are pairwise comparable; then it returns the first element with the least key |
| Dedup.MixedDateAndIdKeysRaise | DefectTracking/App/ai_utils.py:42 | a group of two dated records and one undated record (id 42) makes `min` raise; it does not pick the earliest date |
| Dedup.OldestIsUnique | DefectTracking/App/ai_utils.py:42 | within one group at most one position has the least key with every earlier member strictly larger, so the representative is unique |
| Dedup.Distinct | DefectTracking/App/ai_utils.py:37-41 | the key order of `clusters`: it holds exactly the labels that occur, each once, so its length is at most the number of records |
| Dedup.DistinctFollowsFirstOccurrence | DefectTracking/App/ai_utils.py:37-41 | the keys come in strictly increasing order of each label's first occurrence |
| Dedup.DistinctOfInjective | DefectTracking/App/ai_utils.py:37-41 | when all labels differ, every record is its own group, in input order |
| Dedup.DistinctOfConstant | DefectTracking/App/ai_utils.py:37-41 | when all labels are equal, there is exactly one group |
| Dedup.MemberIndices | DefectTracking/App/ai_utils.py:37-39 | the positions labelled l, strictly increasing; a position is listed iff its label is l, so every index lands in exactly one group |
| Dedup.Members | DefectTracking/App/ai_utils.py:37-39 | the group of l is the records at those positions, in input order |
| Dedup.MembersExtend | DefectTracking/App/ai_utils.py:38-39 | reading one more record appends it to its own label's group and leaves every other group unchanged |
| Dedup.MembersOfAbsentLabel | DefectTracking/App/ai_utils.py:37-39 | a label that does not occur has an empty group (the defaultdict's fresh list) |
| Dedup.MembersOfPresentLabel | DefectTracking/App/ai_utils.py:37-39 | a label that occurs has a non-empty group, so `min` is never called on an empty group |
| Dedup.GroupStep | DefectTracking/App/ai_utils.py:38-39 | one turn of the grouping loop keeps the dictionary equal to the grouping of the labels read so far: key order, key set and every list |
| Dedup.GroupByLabel | DefectTracking/App/ai_utils.py:37-39 | after the loop the key order is the labels' first-appearance order, the keys are exactly the labels, and each list is that label's records in input order |
| Dedup.GroupUniformIff | DefectTracking/App/ai_utils.py:41-42 | `min` succeeds on the group of l iff every two records labelled l have comparable keys (both directions) |
| Dedup.SameLabelComparableIff | DefectTracking/App/ai_utils.py:41-42 | all same-label pairs are comparable iff every group's keys are pairwise comparable (both directions) |
| Dedup.MinPositionRepresents | DefectTracking/App/ai_utils.py:41-43 | the element `min` returns from a group is an input record of that label whose key is least in the group, and every earlier group member's key is strictly larger |
| Dedup.PickFails | DefectTracking/App/ai_utils.py:41-42 | when `min` raises on one group, not every two same-label records are comparable, so the whole filter raises |
| Dedup.PickStep | DefectTracking/App/ai_utils.py:41-43 | one turn of the second loop keeps `unique` equal to input records at positions of their labels, each the oldest of its group, with every group so far comparable |
| Dedup.PickedAll | DefectTracking/App/ai_utils.py:40-44 | after the last turn every two same-label records are comparable, and each collected record represents its label |
| Dedup.PickRepresentatives | DefectTracking/App/ai_utils.py:40-44 | the second loop fails iff some group holds two incomparable keys; otherwise it returns one representative per label, in key order |
| Dedup.FilterUniqueDefects | DefectTracking/App/ai_utils.py:15-44 | no records gives []; one record comes back unchanged; neither calls the encoder; otherwise it sends the comparison texts and the threshold (0.65 unless given), fails iff some group mixes incomparable keys, and returns as many records as there are distinct labels (at most N), in first-appearance order, each an input record representing its label |
| Models.WithField | DefectTracking/App/serializers.py:146-147 | `setattr` of an editable field: that field holds the new value and every other field is unchanged |
| Models.Defect.Get | DefectTracking/App/serializers.py:143 | `getattr` returns the field's current value |
| Models.Defect.Set | DefectTracking/App/serializers.py:147 | the defect's new state is its old state with one field replaced |
| Models.ApprovalStampAfterSave | DefectTracking/App/models.py:158-161 | an approved defect always ends with a stamp; a missing stamp on an approved defect becomes now; an existing stamp is never overwritten; a non-approved defect keeps its value |
| Models.Defect.Save | DefectTracking/App/models.py:152-161 | the new state is the old one with the approval stamp rule applied and `updated_at` set to now; an approved defect is stamped afterwards; an existing stamp and the stamp of a non-approved defect are unchanged |
| Models.Defect.constructor | DefectTracking/App/models.py:126-153 | a new defect has status OPEN, severity S4, mentor state Pending, no approver, no approval stamp, no history, and created and updated at now |
| Models.DecimalString | DefectTracking/App/models.py:156 | `str` of a non-negative id: a non-empty string of decimal digits; only 0 starts with '0', and then it is the single digit "0" |
| Models.DecimalStringRoundTrip | DefectTracking/App/models.py:156 | the digits in the display string read back as the id |
| Models.DefectDisplay | DefectTracking/App/models.py:155-156 | "Defect #", the id's digits, " - ", then a prefix of the summary of at most 50 characters: the whole summary when it is short enough, else exactly its first 50 |
| Models.Defect.ToString | DefectTracking/App/models.py:155-156 | `__str__` is the display string of the defect's own id and summary |
| Models.FullName | DefectTracking/App/models.py:36-38 | `full_name` is the user's username |
| Serializers.TrimStart | DefectTracking/App/serializers.py:95-97 | `lstrip`: a suffix of the input; everything dropped is whitespace and the first kept character is not |
| Serializers.TrimEnd | DefectTracking/App/serializers.py:95-97 | `rstrip`: a prefix of the input; everything dropped is whitespace and the last kept character is not |
| Serializers.Strip | DefectTracking/App/serializers.py:95-97 | `strip`: a contiguous stretch of the input with only whitespace on each side, neither starting nor ending with whitespace |
| Serializers.StripIdempotent | DefectTracking/App/serializers.py:97 | stripping twice is stripping once |
| Serializers.ValidateSummary | DefectTracking/App/serializers.py:93-97 | rejected with "Summary must be at least 10 characters long" iff the stripped value is shorter than 10; otherwise returns the stripped value |
| Serializers.ValidateSummaryIdempotent | DefectTracking/App/serializers.py:93-97 | an accepted summary, validated again, gives the same result |
| Serializers.ValidateRegistration | DefectTracking/App/serializers.py:26-29 | accepted iff password equals confirm_password, and then the attributes are returned unchanged; otherwise rejected with "Passwords don't match" |
| Serializers.ApplyEdits | DefectTracking/App/serializers.py:146-147 | every validated field holds its new value and every other field, editable or not, keeps its old value |
| Serializers.ApplyEditsDetermined | DefectTracking/App/serializers.py:146-147 | any state that agrees with the edits and keeps everything else is exactly the `ApplyEdits` result |
| Serializers.CollectChanges | DefectTracking/App/serializers.py:141-145 | `changes` has field f iff f is validated and its current value differs from the new one; each entry records the old and the new value |
| Serializers.AssignFields | DefectTracking/App/serializers.py:146-147 | after the loop the defect's state is `ApplyEdits` of its old state |
| Serializers.Update | DefectTracking/App/serializers.py:140-157 | `changes` as above, against the state before the call; afterwards the fields are those of `ApplyEdits`, saved at now; if `changes` is non-empty, one UPDATED row by the request's user is added, or, with no request in the context, the call raises after the save and adds no row; it raises in no other case |
| Views.UniqueDefectsForClient | DefectTracking/App/views.py:655 | the client views call the filter with the constant threshold 0.3 of line 22; batches below two come back unchanged without a model call; a larger one fails iff some group holds incomparable keys |
| Views.CommentOr | DefectTracking/App/views.py:255 | the request's comment when it has a string, the handler's default text when it has none, and None exactly for a JSON null |
| Views.MentorDefectApprove | DefectTracking/App/views.py:236-256 | an approved defect is refused with 400 "Already approved" and left unchanged; a null comment fails the history row and the transaction leaves the defect unchanged; otherwise it becomes APPROVED with mentor state Approved, approver and stamp set, is saved, and gains one APPROVED row; an approved defect stays stamped |
| Views.MentorDefectInvalidate | DefectTracking/App/views.py:259-276 | an invalid defect is refused with 400 "Already invalidated" and left unchanged; a null comment fails and the transaction leaves the defect unchanged; otherwise it becomes INVALID with mentor state Invalid, keeps approver and stamp, is saved, and gains one INVALIDATED row |
| Views.ApproveDefect | DefectTracking/App/views.py:449-469 | an approved defect is left as it is with "Defect already approved"; any other becomes APPROVED with approver and stamp, but its mentor state is untouched, and is saved; it gains one APPROVED row, or none when a null comment makes the insert fail after the save |
| Views.InvalidateDefect | DefectTracking/App/views.py:486-503 | an invalid defect is left as it is with "Defect already marked as invalid"; any other changes only its status (and the save's `updated_at`); it gains one INVALIDATED row, or none when a null comment makes the insert fail after the save |
| Views.CountStatus | DefectTracking/App/views.py:521-523 | the count is at most the total, and it is zero iff no defect has that status |
| Views.CountPriority | DefectTracking/App/views.py:525-526 | the count is at most the total, and it is zero iff no defect has that priority |
| Views.DisjointStatusCounts | DefectTracking/App/views.py:520-523 | approved + pending + invalid counts never exceed the total |
| Views.DefectStats | DefectTracking/App/views.py:520-533 | the total is the number of defects and each status count is that status's count, within the total; the priority map has exactly the priorities that occur, each with its count between 1 and the total |
| Views.NumberDashboardRows | DefectTracking/App/views.py:583-591 | one dashboard row per query row, in the same order, with serial numbers 1..n and the counts copied |

## Left out

- The sentence encoder and the agglomerative clustering are foreign floating-point computations. The labels are an input, so nothing depends on the threshold beyond its being handed on. Threshold monotonicity is therefore not stated.
- `dateutil.parser.parse` is a parameter. Which strings it accepts, and what it returns for them, is not modelled. A timestamp is a point on one time line plus its naive-or-aware flag.
- Dedup.FilterUniqueDefects: returns record values. It does not model that the output holds the very dict objects of the input (aliasing).
- Every record has a defect id, as all callers' queries select it. A missing `defect_id` would make the key None, and `min` would raise on it.
- The process-wide model loaded at import time, and concurrent calls that share it, are not modelled.
- HTTP and ORM machinery is not modelled:
  - request parsing and `Response` building;
  - the mentor, profile and role look-ups with their 403 and 404 answers;
  - `get_object_or_404`;
  - `transaction.atomic`, beyond the rollback of a failed history row in the mentor handlers, which the model shows by checking the comment before changing anything;
  - the querysets that pick the defects;
  - media URL rewriting.
  The handlers take the defect and the acting user as given.
- The `IntegrityError` of a null comment is the reply `NullCommentRejected`; the 500 answer the framework builds from it is not modelled.
- `mentor_defect_detail` itself, with its second UPDATED history row, is not modelled; only the serializer's `update` it calls is.
- The serialized defect in the mentor handlers' answer is the tag `DefectDetail`. Its fields are not built.
- One `now` stands for every clock reading in a handler: both `timezone.now()` and the save's `auto_now`.
- The `defect_stats` and `user_dashboard` queries are not modelled. Their rows are inputs, and the dashboard's `order_by('project__name')` ordering is assumed, not checked.
- Defect fields the core never reads are not modelled:
  - environment, application URL, video and screenshots;
  - the project and creator, which are kept only as ids.
- `DefectHistory` is kept as the defect's own sequence of rows. The order of a `changes` dictionary's keys is not kept, since a map has none.
- `__str__` of a defect that was never saved (id None) is not modelled. The id is a natural number.
- `DefectCreateSerializer.create`, its CREATED history row, and the other serializers are not modelled. So are DRF's declarative field checks, such as the 8-character `min_length` password rule, the e-mail format, and the username and e-mail uniqueness look-ups.
- `UserProfile` is a datatype carrying its role. The `student` role default and the profile's other fields are not modelled.
- Authentication, permissions, admin, URL routing, Swagger schemas, management commands and migrations are configuration or database plumbing, and are not modelled.
