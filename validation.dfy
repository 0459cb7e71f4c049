/**
 * Shape validation of an emitted plan assignment: presence and type of each
 * field, collected as a list of error messages in a fixed field order, and
 * the coercion of a validated body into a typed fact.
 */
module Validation {
  import opened Wrappers
  import opened Types

  /** A field value, as far as the validator tells values apart: strings,
      null, and everything else (numbers, booleans, arrays, objects). An
      absent key stands for `undefined`. */
  datatype JsonValue = JString(str: string) | JNull | JOther

  /** The request body. To `typeof`, arrays are objects too: an array body is
      an Object none of whose keys is one of the field keys below. */
  datatype Body = Object(fields: map<string, JsonValue>) | Null | NotAnObject

  /** The fields the validator looks at, declared in the order it reports
      them. */
  datatype FieldName = Subject | Scope | PlanId | Origin | Reason | PolicyVersion | EffectiveAt | ExpiresAt {
    /** The field's key in the JSON body. */
    function Key(): string {
      match this
      case Subject => "subject"
      case Scope => "scope"
      case PlanId => "plan_id"
      case Origin => "origin"
      case Reason => "reason"
      case PolicyVersion => "policy_version"
      case EffectiveAt => "effective_at"
      case ExpiresAt => "expires_at"
    }

    /** The field's position in the report order. */
    function Rank(): nat {
      match this
      case Subject => 0
      case Scope => 1
      case PlanId => 2
      case Origin => 3
      case Reason => 4
      case PolicyVersion => 5
      case EffectiveAt => 6
      case ExpiresAt => 7
    }
  }

  const RequiredStringFields: seq<FieldName> := [Subject, Scope, PlanId, Origin, Reason, PolicyVersion]

  datatype ShapeError =
    | BodyNotObject
    | NotString(field: FieldName)
    | EmptyString(field: FieldName)
    | EffectiveAtInvalid
    | ExpiresAtNotStringOrNull
    | ExpiresAtInvalid

  /** The message text reported for each error. */
  function Message(e: ShapeError): string {
    match e
    case BodyNotObject => "Request body must be an object"
    case NotString(f) => "Field '" + f.Key() + "' must be a string"
    case EmptyString(f) => "Field '" + f.Key() + "' must not be empty"
    case EffectiveAtInvalid => "Field 'effective_at' must be a valid ISO timestamp"
    case ExpiresAtNotStringOrNull => "Field 'expires_at' must be a string or null"
    case ExpiresAtInvalid => "Field 'expires_at' must be a valid ISO timestamp or null"
  }

  function Messages(es: seq<ShapeError>): (ms: seq<string>)
    ensures |ms| == |es|
  {
    if es == [] then [] else Messages(es[..|es| - 1]) + [Message(es[|es| - 1])]
  }

  /** The i-th message renders the i-th error. */
  lemma {:induction false} MessagesRender(es: seq<ShapeError>, i: nat)
    requires i < |es|
    ensures Messages(es)[i] == Message(es[i])
    decreases |es|
  {
    if i < |es| - 1 {
      var init := es[..|es| - 1];
      MessagesRender(init, i);
      assert init[i] == es[i];
    }
  }

  lemma {:induction false} MessagesAppend(a: seq<ShapeError>, b: seq<ShapeError>)
    ensures Messages(a + b) == Messages(a) + Messages(b)
    decreases |b|
  {
    if b == [] {
      assert a + b == a;
    } else {
      var init, last := b[..|b| - 1], b[|b| - 1];
      assert (a + b)[..|a + b| - 1] == a + init;
      assert (a + b)[|a + b| - 1] == last;
      MessagesAppend(a, init);
    }
  }

  /** The rank of the field an error is about; the body error, which never
      appears beside a field error, ranks after all fields. */
  function Rank(e: ShapeError): nat {
    match e
    case BodyNotObject => 8
    case NotString(f) => f.Rank()
    case EmptyString(f) => f.Rank()
    case EffectiveAtInvalid => EffectiveAt.Rank()
    case ExpiresAtNotStringOrNull => ExpiresAt.Rank()
    case ExpiresAtInvalid => ExpiresAt.Rank()
  }

  // ---------------------------------------------------------------------
  // The per-field rules and the error list they build

  /** A required string field: one error if it is absent or not a string,
      one if it is the empty string, none otherwise. */
  function RequiredStringErrors(fields: map<string, JsonValue>, f: FieldName): seq<ShapeError> {
    if f.Key() !in fields || !fields[f.Key()].JString? then [NotString(f)]
    else if fields[f.Key()].str == "" then [EmptyString(f)]
    else []
  }

  function RequiredErrors(fields: map<string, JsonValue>, names: seq<FieldName>): seq<ShapeError> {
    if names == [] then []
    else RequiredErrors(fields, names[..|names| - 1]) + RequiredStringErrors(fields, names[|names| - 1])
  }

  /** `effective_at` must be a string that `Date.parse` accepts. */
  function EffectiveAtErrors(fields: map<string, JsonValue>, parsesAsDate: string -> bool): seq<ShapeError> {
    if "effective_at" !in fields || !fields["effective_at"].JString? then [NotString(EffectiveAt)]
    else if !parsesAsDate(fields["effective_at"].str) then [EffectiveAtInvalid]
    else []
  }

  /** `expires_at` may be absent or null; otherwise it must be a string that
      `Date.parse` accepts. */
  function ExpiresAtErrors(fields: map<string, JsonValue>, parsesAsDate: string -> bool): seq<ShapeError> {
    if "expires_at" !in fields || fields["expires_at"].JNull? then []
    else if !fields["expires_at"].JString? then [ExpiresAtNotStringOrNull]
    else if !parsesAsDate(fields["expires_at"].str) then [ExpiresAtInvalid]
    else []
  }

  /** The whole error list: a lone error for a body that is not an object (or
      is null), otherwise the six required strings, then `effective_at`, then
      `expires_at`. */
  function ShapeErrors(body: Body, parsesAsDate: string -> bool): seq<ShapeError> {
    match body
    case Object(fields) =>
      RequiredErrors(fields, RequiredStringFields) + EffectiveAtErrors(fields, parsesAsDate)
        + ExpiresAtErrors(fields, parsesAsDate)
    case _ => [BodyNotObject]
  }

  // ---------------------------------------------------------------------
  // The declarative reading of a valid body

  predicate IsNonEmptyString(fields: map<string, JsonValue>, key: string) {
    key in fields && fields[key].JString? && fields[key].str != ""
  }

  predicate IsDateString(fields: map<string, JsonValue>, key: string, parsesAsDate: string -> bool) {
    key in fields && fields[key].JString? && parsesAsDate(fields[key].str)
  }

  /** What a valid body is: an object whose six identity fields are non-empty
      strings, whose `effective_at` is a date string, and whose `expires_at`
      is absent, null or a date string. */
  predicate WellFormed(body: Body, parsesAsDate: string -> bool) {
    && body.Object?
    && (forall f | f in RequiredStringFields :: IsNonEmptyString(body.fields, f.Key()))
    && IsDateString(body.fields, "effective_at", parsesAsDate)
    && ("expires_at" !in body.fields || body.fields["expires_at"].JNull?
        || IsDateString(body.fields, "expires_at", parsesAsDate))
  }

  lemma {:induction false} RequiredErrorsEmpty(fields: map<string, JsonValue>, names: seq<FieldName>)
    ensures RequiredErrors(fields, names) == [] <==> forall f | f in names :: IsNonEmptyString(fields, f.Key())
    decreases |names|
  {
    if names != [] {
      var init, last := names[..|names| - 1], names[|names| - 1];
      assert names == init + [last];
      RequiredErrorsEmpty(fields, init);
      assert RequiredStringErrors(fields, last) == [] <==> IsNonEmptyString(fields, last.Key());
      assert (forall f | f in names :: IsNonEmptyString(fields, f.Key())) <==>
             (forall f | f in init :: IsNonEmptyString(fields, f.Key())) && IsNonEmptyString(fields, last.Key());
    }
  }

  /** A body passes validation exactly when it is well formed. */
  lemma ValidIffWellFormed(body: Body, parsesAsDate: string -> bool)
    ensures ShapeErrors(body, parsesAsDate) == [] <==> WellFormed(body, parsesAsDate)
  {
    if body.Object? {
      RequiredErrorsEmpty(body.fields, RequiredStringFields);
    }
  }

  // ---------------------------------------------------------------------
  // The validator

  lemma RequiredErrorsStep(fields: map<string, JsonValue>, i: nat)
    requires i < |RequiredStringFields|
    ensures RequiredErrors(fields, RequiredStringFields[..i + 1]) ==
            RequiredErrors(fields, RequiredStringFields[..i]) + RequiredStringErrors(fields, RequiredStringFields[i])
  {
    assert RequiredStringFields[..i + 1][..i] == RequiredStringFields[..i];
  }

  /** Builds the error list field by field, as the source does, and reports
      validity as "no errors". */
  method ValidatePlanAssignmentShape(body: Body, parsesAsDate: string -> bool) returns (valid: bool, errors: seq<string>)
    ensures errors == Messages(ShapeErrors(body, parsesAsDate))
    ensures valid <==> errors == []
    ensures valid <==> WellFormed(body, parsesAsDate)
    ensures !body.Object? ==> !valid && errors == ["Request body must be an object"]
  {
    if !body.Object? {
      return false, [Message(BodyNotObject)];
    }
    var fields := body.fields;
    errors := [];
    ghost var found: seq<ShapeError> := [];
    var i := 0;
    while i < |RequiredStringFields|
      invariant 0 <= i <= |RequiredStringFields|
      invariant found == RequiredErrors(fields, RequiredStringFields[..i])
      invariant errors == Messages(found)
    {
      var f := RequiredStringFields[i];
      ghost var step: seq<ShapeError> := [];
      if f.Key() !in fields || !fields[f.Key()].JString? {
        step := [NotString(f)];
        errors := errors + [Message(NotString(f))];
      } else if fields[f.Key()].str == "" {
        step := [EmptyString(f)];
        errors := errors + [Message(EmptyString(f))];
      }
      MessagesAppend(found, step);
      RequiredErrorsStep(fields, i);
      found := found + step;
      i := i + 1;
    }
    assert RequiredStringFields[..i] == RequiredStringFields;

    ghost var step := EffectiveAtErrors(fields, parsesAsDate);
    if "effective_at" !in fields || !fields["effective_at"].JString? {
      errors := errors + [Message(NotString(EffectiveAt))];
    } else if !parsesAsDate(fields["effective_at"].str) {
      errors := errors + [Message(EffectiveAtInvalid)];
    }
    MessagesAppend(found, step);
    found := found + step;
    assert errors == Messages(found);

    step := ExpiresAtErrors(fields, parsesAsDate);
    if "expires_at" in fields && !fields["expires_at"].JNull? {
      if !fields["expires_at"].JString? {
        errors := errors + [Message(ExpiresAtNotStringOrNull)];
      } else if !parsesAsDate(fields["expires_at"].str) {
        errors := errors + [Message(ExpiresAtInvalid)];
      }
    }
    MessagesAppend(found, step);
    found := found + step;
    assert errors == Messages(found);

    valid := |errors| == 0;
    ValidIffWellFormed(body, parsesAsDate);
  }

  // ---------------------------------------------------------------------
  // Field by field, in a fixed order

  /** The errors of the required strings are those of each field's rule. */
  lemma {:induction false} RequiredErrorsMembers(fields: map<string, JsonValue>, names: seq<FieldName>, e: ShapeError)
    ensures e in RequiredErrors(fields, names) <==>
              (e.NotString? || e.EmptyString?) && e.field in names && e in RequiredStringErrors(fields, e.field)
    decreases |names|
  {
    if names != [] {
      var init, last := names[..|names| - 1], names[|names| - 1];
      assert names == init + [last];
      RequiredErrorsMembers(fields, init, e);
    }
  }

  lemma ShapeErrorsMembers(fields: map<string, JsonValue>, parsesAsDate: string -> bool, e: ShapeError)
    ensures e in ShapeErrors(Object(fields), parsesAsDate) <==>
              || ((e.NotString? || e.EmptyString?) && e.field in RequiredStringFields
                  && e in RequiredStringErrors(fields, e.field))
              || e in EffectiveAtErrors(fields, parsesAsDate)
              || e in ExpiresAtErrors(fields, parsesAsDate)
  {
    RequiredErrorsMembers(fields, RequiredStringFields, e);
  }

  /** A required string field is judged on its own: it draws "must be a
      string" exactly when it is absent or not a string, and "must not be
      empty" exactly when it is "", whatever the other fields hold. */
  lemma RequiredFieldVerdict(fields: map<string, JsonValue>, parsesAsDate: string -> bool, f: FieldName)
    requires f in RequiredStringFields
    ensures NotString(f) in ShapeErrors(Object(fields), parsesAsDate) <==>
              f.Key() !in fields || !fields[f.Key()].JString?
    ensures EmptyString(f) in ShapeErrors(Object(fields), parsesAsDate) <==>
              f.Key() in fields && fields[f.Key()] == JString("")
  {
    ShapeErrorsMembers(fields, parsesAsDate, NotString(f));
    ShapeErrorsMembers(fields, parsesAsDate, EmptyString(f));
  }

  /** `effective_at` draws "must be a string" exactly when it is absent or
      not a string, and "must be a valid ISO timestamp" exactly when it is a
      string that does not parse as a date. */
  lemma EffectiveAtVerdict(fields: map<string, JsonValue>, parsesAsDate: string -> bool)
    ensures NotString(EffectiveAt) in ShapeErrors(Object(fields), parsesAsDate) <==>
              "effective_at" !in fields || !fields["effective_at"].JString?
    ensures EffectiveAtInvalid in ShapeErrors(Object(fields), parsesAsDate) <==>
              "effective_at" in fields && fields["effective_at"].JString? && !parsesAsDate(fields["effective_at"].str)
  {
    ShapeErrorsMembers(fields, parsesAsDate, NotString(EffectiveAt));
    ShapeErrorsMembers(fields, parsesAsDate, EffectiveAtInvalid);
  }

  /** An absent or null `expires_at` draws no error; any other non-string
      draws "must be a string or null", and a string that does not parse as a
      date draws "must be a valid ISO timestamp or null". */
  lemma ExpiresAtVerdict(fields: map<string, JsonValue>, parsesAsDate: string -> bool)
    ensures ExpiresAtNotStringOrNull in ShapeErrors(Object(fields), parsesAsDate) <==>
              "expires_at" in fields && fields["expires_at"].JOther?
    ensures ExpiresAtInvalid in ShapeErrors(Object(fields), parsesAsDate) <==>
              "expires_at" in fields && fields["expires_at"].JString? && !parsesAsDate(fields["expires_at"].str)
  {
    ShapeErrorsMembers(fields, parsesAsDate, ExpiresAtNotStringOrNull);
    ShapeErrorsMembers(fields, parsesAsDate, ExpiresAtInvalid);
  }

  /** Errors appear in strictly increasing field order. */
  predicate InFieldOrder(es: seq<ShapeError>) {
    forall i, j | 0 <= i < j < |es| :: Rank(es[i]) < Rank(es[j])
  }

  lemma InFieldOrderAppend(a: seq<ShapeError>, b: seq<ShapeError>, k: nat, m: nat)
    requires k <= m
    requires InFieldOrder(a) && InFieldOrder(b)
    requires forall i | 0 <= i < |a| :: Rank(a[i]) < k
    requires forall i | 0 <= i < |b| :: k <= Rank(b[i]) < m
    ensures InFieldOrder(a + b)
    ensures forall i | 0 <= i < |a + b| :: Rank((a + b)[i]) < m
  {
  }

  lemma {:induction false} RequiredErrorsRanked(fields: map<string, JsonValue>, k: nat)
    requires k <= |RequiredStringFields|
    ensures var es := RequiredErrors(fields, RequiredStringFields[..k]);
      InFieldOrder(es) && forall i | 0 <= i < |es| :: Rank(es[i]) < k
  {
    if k > 0 {
      RequiredErrorsStep(fields, k - 1);
      RequiredErrorsRanked(fields, k - 1);
      assert RequiredStringFields[k - 1].Rank() == k - 1;
      InFieldOrderAppend(RequiredErrors(fields, RequiredStringFields[..k - 1]),
                         RequiredStringErrors(fields, RequiredStringFields[k - 1]), k - 1, k);
    }
  }

  /** The errors of an object body come in the order subject, scope,
      plan_id, origin, reason, policy_version, effective_at, expires_at, and
      every one of them is about one of those eight fields. */
  lemma ErrorsInFieldOrder(fields: map<string, JsonValue>, parsesAsDate: string -> bool)
    ensures var es := ShapeErrors(Object(fields), parsesAsDate);
      InFieldOrder(es) && forall i | 0 <= i < |es| :: Rank(es[i]) < 8
  {
    RequiredErrorsRanked(fields, |RequiredStringFields|);
    assert RequiredStringFields[..|RequiredStringFields|] == RequiredStringFields;
    var required := RequiredErrors(fields, RequiredStringFields);
    var effective := EffectiveAtErrors(fields, parsesAsDate);
    var expires := ExpiresAtErrors(fields, parsesAsDate);
    assert |effective| <= 1 && forall i | 0 <= i < |effective| :: Rank(effective[i]) == 6;
    assert |expires| <= 1 && forall i | 0 <= i < |expires| :: Rank(expires[i]) == 7;
    InFieldOrderAppend(required, effective, 6, 7);
    InFieldOrderAppend(required + effective, expires, 7, 8);
  }

  lemma {:induction false} RankedIsShort(es: seq<ShapeError>, n: nat)
    requires InFieldOrder(es)
    requires forall i | 0 <= i < |es| :: Rank(es[i]) < n
    ensures |es| <= n
    decreases |es|
  {
    if es != [] {
      var init := es[..|es| - 1];
      var r := Rank(es[|es| - 1]);
      assert forall i | 0 <= i < |init| :: Rank(init[i]) < r by {
        forall i | 0 <= i < |init| ensures Rank(init[i]) < r {
          assert init[i] == es[i];
        }
      }
      RankedIsShort(init, r);
    }
  }

  /** At most one error per field, so at most eight in all. */
  lemma AtMostEightErrors(body: Body, parsesAsDate: string -> bool)
    ensures |ShapeErrors(body, parsesAsDate)| <= 8
  {
    if body.Object? {
      ErrorsInFieldOrder(body.fields, parsesAsDate);
      RankedIsShort(ShapeErrors(body, parsesAsDate), 8);
    }
  }

  // ---------------------------------------------------------------------
  // Coercion into a typed fact

  /** The value types the coercion's casts rely on. */
  predicate IsTyped(fields: map<string, JsonValue>) {
    && (forall f | f in RequiredStringFields :: f.Key() in fields && fields[f.Key()].JString?)
    && "effective_at" in fields && fields["effective_at"].JString?
    && ("expires_at" !in fields || fields["expires_at"].JNull? || fields["expires_at"].JString?)
  }

  /** The typed fact of a validated body; an absent or null `expires_at`
      becomes None. */
  function CoercePlanAssignmentFact(fields: map<string, JsonValue>): (fact: PlanAssignmentFact)
    requires IsTyped(fields)
    ensures fact.expiresAt.None? <==> "expires_at" !in fields || fields["expires_at"].JNull?
    ensures fact.expiresAt.Some? ==> fields["expires_at"] == JString(fact.expiresAt.value)
  {
    assert Subject in RequiredStringFields && Scope in RequiredStringFields && PlanId in RequiredStringFields;
    assert Origin in RequiredStringFields && Reason in RequiredStringFields && PolicyVersion in RequiredStringFields;
    PlanAssignmentFact(
      fields["subject"].str, fields["scope"].str, fields["plan_id"].str,
      fields["origin"].str, fields["reason"].str, fields["policy_version"].str,
      fields["effective_at"].str,
      if "expires_at" in fields && fields["expires_at"].JString? then Some(fields["expires_at"].str) else None)
  }

  /** The JSON body a client sends for a fact; no expiry is sent as null. */
  function EncodeFact(fact: PlanAssignmentFact): map<string, JsonValue> {
    map[
      "subject" := JString(fact.subject), "scope" := JString(fact.scope), "plan_id" := JString(fact.planId),
      "origin" := JString(fact.origin), "reason" := JString(fact.reason),
      "policy_version" := JString(fact.policyVersion), "effective_at" := JString(fact.effectiveAt),
      "expires_at" := if fact.expiresAt.Some? then JString(fact.expiresAt.value) else JNull]
  }

  /** Coercion recovers every fact from its JSON body. */
  lemma CoerceInvertsEncode(fact: PlanAssignmentFact)
    ensures IsTyped(EncodeFact(fact))
    ensures CoercePlanAssignmentFact(EncodeFact(fact)) == fact
  {
  }

  /** Coercion copies the seven string fields unchanged and turns an absent
      `expires_at` into null: re-encoding the fact gives back the body on all
      eight keys. */
  lemma EncodeInvertsCoerce(fields: map<string, JsonValue>)
    requires IsTyped(fields)
    ensures var body := EncodeFact(CoercePlanAssignmentFact(fields));
      && (forall f | f in RequiredStringFields + [EffectiveAt] :: body[f.Key()] == fields[f.Key()])
      && body["expires_at"] == if "expires_at" in fields then fields["expires_at"] else JNull
  {
  }

  /** A body that passes validation coerces to a fact whose six identity
      strings are non-empty and whose timestamps parse as dates. */
  lemma ValidatedFactIsComplete(body: Body, parsesAsDate: string -> bool)
    requires ShapeErrors(body, parsesAsDate) == []
    ensures body.Object? && IsTyped(body.fields)
    ensures var fact := CoercePlanAssignmentFact(body.fields);
      && fact.subject != "" && fact.scope != "" && fact.planId != ""
      && fact.origin != "" && fact.reason != "" && fact.policyVersion != ""
      && parsesAsDate(fact.effectiveAt)
      && (fact.expiresAt.Some? ==> parsesAsDate(fact.expiresAt.value))
  {
    ValidIffWellFormed(body, parsesAsDate);
    var fields := body.fields;
    assert IsNonEmptyString(fields, Subject.Key()) && IsNonEmptyString(fields, Scope.Key());
    assert IsNonEmptyString(fields, PlanId.Key()) && IsNonEmptyString(fields, Origin.Key());
    assert IsNonEmptyString(fields, Reason.Key()) && IsNonEmptyString(fields, PolicyVersion.Key());
  }

  /** Every fact with non-empty identity strings and parseable timestamps
      passes validation when sent as JSON. */
  lemma EncodedFactPasses(fact: PlanAssignmentFact, parsesAsDate: string -> bool)
    requires fact.subject != "" && fact.scope != "" && fact.planId != ""
    requires fact.origin != "" && fact.reason != "" && fact.policyVersion != ""
    requires parsesAsDate(fact.effectiveAt)
    requires fact.expiresAt.Some? ==> parsesAsDate(fact.expiresAt.value)
    ensures ShapeErrors(Object(EncodeFact(fact)), parsesAsDate) == []
  {
    var fields := EncodeFact(fact);
    assert forall f | f in RequiredStringFields :: IsNonEmptyString(fields, f.Key());
    assert WellFormed(Object(fields), parsesAsDate);
    ValidIffWellFormed(Object(fields), parsesAsDate);
  }
}
