/**
 * The checks and the update rule of the serializers: the summary validator
 * of defect creation, the password check of registration, and the
 * field-by-field update of a defect with its change record.
 */
module Serializers {
  import opened Wrappers
  import opened Models

  /** A `serializers.ValidationError` with its message. */
  datatype ValidationError = ValidationError(message: string)

  /** A summary must keep at least this many characters once stripped. */
  const MinSummaryLength: nat := 10

  const SummaryTooShort: string := "Summary must be at least 10 characters long"
  const PasswordMismatch: string := "Passwords don't match"
  const UpdateComment: string := "Defect updated"

  /**
   * The characters Python's `str.strip()` removes, those for which
   * `str.isspace()` holds: U+0009 to U+000D, U+001C to U+0020, U+0085,
   * U+00A0, U+1680, U+2000 to U+200A, U+2028, U+2029, U+202F, U+205F and
   * U+3000.
   */
  predicate IsSpace(c: char)
  {
    || ('\t' <= c <= '\r')
    || ('\U{001C}' <= c <= ' ')
    || c == '\U{0085}' || c == '\U{00A0}' || c == '\U{1680}'
    || ('\U{2000}' <= c <= '\U{200A}')
    || c == '\U{2028}' || c == '\U{2029}' || c == '\U{202F}' || c == '\U{205F}' || c == '\U{3000}'
  }

  /** `s.lstrip()`: the suffix of `s` left after dropping its leading whitespace. */
  function TrimStart(s: string): (r: string)
    ensures |r| <= |s| && r == s[|s| - |r|..]
    ensures forall i :: 0 <= i < |s| - |r| ==> IsSpace(s[i])
    ensures r != [] ==> !IsSpace(r[0])
  {
    if s != [] && IsSpace(s[0]) then TrimStart(s[1..]) else s
  }

  /** `s.rstrip()`: the prefix of `s` left after dropping its trailing whitespace. */
  function TrimEnd(s: string): (r: string)
    ensures |r| <= |s| && r == s[..|r|]
    ensures forall i :: |r| <= i < |s| ==> IsSpace(s[i])
    ensures r != [] ==> !IsSpace(r[|r| - 1])
  {
    if s != [] && IsSpace(s[|s| - 1]) then TrimEnd(s[..|s| - 1]) else s
  }

  /**
   * `s.strip()`: the stretch of `s` that starts after its leading
   * whitespace and ends before its trailing whitespace; it neither starts
   * nor ends with whitespace.
   */
  function Strip(s: string): (r: string)
    ensures |s| - |TrimStart(s)| + |r| <= |s|
    ensures forall k :: 0 <= k < |r| ==> r[k] == s[|s| - |TrimStart(s)| + k]
    ensures forall k :: 0 <= k < |s| - |TrimStart(s)| ==> IsSpace(s[k])
    ensures forall k :: |s| - |TrimStart(s)| + |r| <= k < |s| ==> IsSpace(s[k])
    ensures r != [] ==> !IsSpace(r[0]) && !IsSpace(r[|r| - 1])
  {
    TrimEnd(TrimStart(s))
  }

  /** Stripping a stripped string changes nothing. */
  lemma StripIdempotent(s: string)
    ensures Strip(Strip(s)) == Strip(s)
  {
    var r := Strip(s);
    assert TrimStart(r) == r;
    assert TrimEnd(r) == r;
  }

  /**
   * `DefectCreateSerializer.validate_summary`: refuse a summary shorter than
   * ten characters once stripped, and otherwise return it stripped.
   */
  function ValidateSummary(value: string): (r: Result<string, ValidationError>)
    ensures r.Err? <==> |Strip(value)| < MinSummaryLength
    ensures r.Err? ==> r.error == ValidationError(SummaryTooShort)
    ensures r.Ok? ==> r.value == Strip(value) && |r.value| >= MinSummaryLength
  {
    var stripped := Strip(value);
    if |stripped| < MinSummaryLength then Err(ValidationError(SummaryTooShort)) else Ok(stripped)
  }

  /** A summary the validator accepted passes it again unchanged. */
  lemma ValidateSummaryIdempotent(value: string)
    requires ValidateSummary(value).Ok?
    ensures ValidateSummary(ValidateSummary(value).value) == ValidateSummary(value)
  {
    StripIdempotent(value);
  }

  /** The fields a registration request carries. */
  datatype RegistrationAttrs = RegistrationAttrs(
    username: string,
    email: string,
    password: string,
    confirmPassword: string,
    project: ProjectId)

  /**
   * `UserRegistrationSerializer.validate`: refuse when the two passwords
   * differ, and otherwise hand the fields on unchanged.
   */
  function ValidateRegistration(attrs: RegistrationAttrs): (r: Result<RegistrationAttrs, ValidationError>)
    ensures r.Ok? <==> attrs.password == attrs.confirmPassword
    ensures r.Ok? ==> r.value == attrs
    ensures r.Err? ==> r.error == ValidationError(PasswordMismatch)
  {
    if attrs.password != attrs.confirmPassword then Err(ValidationError(PasswordMismatch)) else Ok(attrs)
  }

  /**
   * The fields after `setattr` of every entry of `edits`: an edited field
   * holds its new value, every other field, editable or not, is unchanged.
   */
  function ApplyEdits(s: DefectFields, edits: map<EditableField, string>): (t: DefectFields)
    ensures forall f :: FieldValue(t, f) == if f in edits then edits[f] else FieldValue(s, f)
    ensures SameOutsideEditable(s, t)
  {
    s.(summary := if Summary in edits then edits[Summary] else s.summary,
       priority := if Priority in edits then edits[Priority] else s.priority,
       actualResult := if ActualResult in edits then edits[ActualResult] else s.actualResult,
       expectedResult := if ExpectedResult in edits then edits[ExpectedResult] else s.expectedResult)
  }

  /** The two field sets agree on every field that is not editable. */
  predicate SameOutsideEditable(s: DefectFields, t: DefectFields)
  {
    t.(summary := s.summary, priority := s.priority,
       actualResult := s.actualResult, expectedResult := s.expectedResult) == s
  }

  /** Fields that agree with the edits and keep everything else are the result of `ApplyEdits`. */
  lemma ApplyEditsDetermined(s: DefectFields, edits: map<EditableField, string>, t: DefectFields)
    requires forall f :: FieldValue(t, f) == if f in edits then edits[f] else FieldValue(s, f)
    requires SameOutsideEditable(s, t)
    ensures t == ApplyEdits(s, edits)
  {
    assert FieldValue(t, Summary) == FieldValue(ApplyEdits(s, edits), Summary);
    assert FieldValue(t, Priority) == FieldValue(ApplyEdits(s, edits), Priority);
    assert FieldValue(t, ActualResult) == FieldValue(ApplyEdits(s, edits), ActualResult);
    assert FieldValue(t, ExpectedResult) == FieldValue(ApplyEdits(s, edits), ExpectedResult);
  }

  /**
   * The first loop of `DefectUpdateSerializer.update`: for every validated
   * field whose current value differs from the new one, record the old and
   * the new value.  The defect is only read.
   */
  method CollectChanges(instance: Defect, validated: map<EditableField, string>)
    returns (changes: map<EditableField, Change>)
    ensures forall f :: f in changes <==> f in validated && FieldValue(instance.Snapshot(), f) != validated[f]
    ensures forall f :: f in changes ==> changes[f] == Change(FieldValue(instance.Snapshot(), f), validated[f])
  {
    changes := map[];
    var pending := validated.Keys;
    while pending != {}
      invariant pending <= validated.Keys
      invariant forall f :: f in changes <==> f in validated && f !in pending && instance.Get(f) != validated[f]
      invariant forall f :: f in changes ==> changes[f] == Change(instance.Get(f), validated[f])
      decreases pending
    {
      var f :| f in pending;
      var oldValue := instance.Get(f);
      if oldValue != validated[f] {
        changes := changes[f := Change(oldValue, validated[f])];
      }
      pending := pending - {f};
    }
  }

  /**
   * The second loop of `DefectUpdateSerializer.update`: `setattr` every
   * validated field to its new value.
   */
  method AssignFields(instance: Defect, validated: map<EditableField, string>)
    modifies instance
    ensures instance.Snapshot() == ApplyEdits(old(instance.Snapshot()), validated)
  {
    ghost var before := instance.Snapshot();
    var pending := validated.Keys;
    while pending != {}
      invariant pending <= validated.Keys
      invariant forall g :: FieldValue(instance.Snapshot(), g) == (if g in validated && g !in pending then validated[g] else FieldValue(before, g))
      invariant SameOutsideEditable(instance.Snapshot(), before)
      decreases pending
    {
      var f :| f in pending;
      instance.Set(f, validated[f]);
      pending := pending - {f};
    }
    ApplyEditsDetermined(before, validated, instance.Snapshot());
  }

  /**
   * The `KeyError` of `self.context['request']` when the serializer was
   * built without a request in its context.
   */
  datatype UpdateError = MissingRequestContext

  /**
   * `DefectUpdateSerializer.update`.  `requestUser` is the user of the
   * request in the serializer's context, `None` when the context holds no
   * request.  `changes` holds exactly the fields of `validated` whose old
   * value differs from the new one, each with its old and its new value;
   * afterwards every field of `validated` holds its new value and every other
   * field is unchanged, and the defect has been saved.  If something changed,
   * one UPDATED history row by the request's user is added; with no request
   * in the context the lookup raises instead, after the save, and no row is
   * added.
   */
  method Update(instance: Defect, validated: map<EditableField, string>, requestUser: Option<UserId>, now: Instant)
    returns (changes: map<EditableField, Change>, raised: Option<UpdateError>)
    modifies instance
    ensures forall f :: f in changes <==> f in validated && FieldValue(old(instance.Snapshot()), f) != validated[f]
    ensures forall f :: f in changes ==> changes[f] == Change(FieldValue(old(instance.Snapshot()), f), validated[f])
    ensures raised.Some? <==> changes != map[] && requestUser.None?
    ensures instance.Snapshot() == Saved(ApplyEdits(old(instance.Snapshot()), validated), now).(
      history := old(instance.history) +
        if changes == map[] || requestUser.None? then []
        else [HistoryEntry(UpdatedAction, requestUser.value, Some(changes), UpdateComment, now)])
  {
    changes := CollectChanges(instance, validated);
    AssignFields(instance, validated);
    instance.Save(now);
    raised := None;
    if changes != map[] {
      match requestUser
      case None =>
        raised := Some(MissingRequestContext);
      case Some(user) =>
        instance.history := instance.history + [HistoryEntry(UpdatedAction, user, Some(changes), UpdateComment, now)];
    }
  }
}
