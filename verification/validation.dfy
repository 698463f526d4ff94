/**
 * The validation layer: predicates over untrusted request bodies, and the two
 * validators that either copy the fields they accept or refuse the body.
 */
module Validation {
  import opened Outcomes
  import opened JsValue
  import opened RequestStatus

  /** A validator's verdict: a copied record, `null`, or the TypeError of reading a property of `undefined`/`null`. */
  datatype Checked<+T> = Accepted(value: T) | Refused | Threw

  /** The fields a create body contributes to a new record. */
  datatype MockCreateItemRequest = MockCreateItemRequest(requestorName: string, itemRequested: string)

  /** The fields an edit body contributes: the id exactly as sent, and a status string. */
  datatype MockEditStatusRequest = MockEditStatusRequest(id: Value, status: string)

  /** An optional numeric bound takes effect when present and non-zero, as the guard `lower && ...` reads it. */
  predicate BoundSet(b: Option<int>) {
    b.Some? && b.value != 0
  }

  /**
   * `isValidMockString`: a string that is not blank, whose untrimmed length
   * lies within the bounds that are set (both inclusive).
   */
  function IsValidMockString(v: Value, lower: Option<int>, upper: Option<int>): (ok: bool)
    ensures ok <==>
      && v.Str?
      && !IsBlank(v.s)
      && (BoundSet(lower) ==> lower.value <= Utf16Length(v.s))
      && (BoundSet(upper) ==> Utf16Length(v.s) <= upper.value)
  {
    if !v.Str? || Trim(v.s) == "" then false
    else if (BoundSet(lower) && Utf16Length(v.s) < lower.value)
         || (BoundSet(upper) && Utf16Length(v.s) > upper.value) then false
    else true
  }

  /** The strings `isValidMockName` accepts: not blank, 3 to 30 UTF-16 code units, blanks included. */
  predicate NameInBounds(s: string) {
    !IsBlank(s) && 3 <= Utf16Length(s) <= 30
  }

  /** The strings `isValidMockItemRequested` accepts: not blank, 2 to 100 UTF-16 code units, blanks included. */
  predicate ItemInBounds(s: string) {
    !IsBlank(s) && 2 <= Utf16Length(s) <= 100
  }

  /** `isValidMockName`: exactly the strings within the name bounds. */
  function IsValidMockName(name: Value): (ok: bool)
    ensures ok <==> name.Str? && NameInBounds(name.s)
  {
    IsValidMockString(name, Some(3), Some(30))
  }

  /** `isValidMockItemRequested`: exactly the strings within the item bounds. */
  function IsValidMockItemRequested(item: Value): (ok: bool)
    ensures ok <==> item.Str? && ItemInBounds(item.s)
  {
    IsValidMockString(item, Some(2), Some(100))
  }

  /** `isValidStatus`: the value is the string value of one of the four statuses. */
  function IsValidStatus(status: Value): (ok: bool)
    ensures ok <==> exists st: Status :: status == Str(ToString(st))
  {
    StatusValuesNotBlank();
    if status.Str? && status.s in Values then
      assert status == Str(ToString(FromString(status.s).value));
      IsValidMockString(status, None, None)
    else
      false
  }

  /** No status string is blank, so the non-blank check inside `isValidStatus` never rejects a member. */
  lemma StatusValuesNotBlank()
    ensures forall st: Status :: !IsBlank(ToString(st))
  {
    forall st: Status ensures !IsBlank(ToString(st)) {
      assert !IsJsWhitespace(ToString(st)[0]);
    }
  }

  /**
   * `validateCreateItemRequest`: both fields must be present, truthy and
   * within their bounds; the accepted record copies them verbatim and carries
   * nothing else of the body.
   */
  function ValidateCreateItemRequest(request: Value): (r: Checked<MockCreateItemRequest>)
    ensures r.Threw? <==> request.Undefined? || request.Null?
    ensures r.Accepted? <==>
      && !r.Threw?
      && IsValidMockName(Field(request, "requestorName"))
      && IsValidMockItemRequested(Field(request, "itemRequested"))
    ensures r.Accepted? ==>
      && Field(request, "requestorName") == Str(r.value.requestorName)
      && Field(request, "itemRequested") == Str(r.value.itemRequested)
  {
    match Property(request, "requestorName")
    case None => Threw
    case Some(name) =>
      var item := Field(request, "itemRequested");
      if !Truthy(name) || !Truthy(item) then Refused
      else if !IsValidMockName(name) || !IsValidMockItemRequested(item) then Refused
      else Accepted(MockCreateItemRequest(name.s, item.s))
  }

  /**
   * `validateEditStatusRequest`: `id` must be truthy and pass the store's id
   * format check, `status` must be a valid status; both are copied verbatim.
   * The format check, `ObjectId.isValid`, is the parameter `isValidId`.
   */
  function ValidateEditStatusRequest(request: Value, isValidId: Value -> bool): (r: Checked<MockEditStatusRequest>)
    ensures r.Threw? <==> request.Undefined? || request.Null?
    ensures r.Accepted? <==>
      && !r.Threw?
      && Truthy(Field(request, "id"))
      && isValidId(Field(request, "id"))
      && IsValidStatus(Field(request, "status"))
    ensures r.Accepted? ==>
      && r.value.id == Field(request, "id")
      && Field(request, "status") == Str(r.value.status)
      && FromString(r.value.status).Some?
  {
    match Property(request, "id")
    case None => Threw
    case Some(id) =>
      var status := Field(request, "status");
      if !Truthy(id) || !Truthy(status) then Refused
      else if !isValidId(id) || !IsValidStatus(status) then Refused
      else Accepted(MockEditStatusRequest(id, status.s))
  }

  /**
   * A non-blank string is truthy; as both length predicates refuse blank
   * strings, the falsy-field guard of `validateCreateItemRequest` never
   * refuses a field they accept.
   */
  lemma NonBlankIsTruthy(s: string)
    requires !IsBlank(s)
    ensures Truthy(Str(s))
  {
  }

  /** Fields other than `requestorName` and `itemRequested`, `status` among them, do not affect create validation. */
  lemma CreateIgnoresOtherFields(m: map<string, Value>, key: string, v: Value)
    requires key != "requestorName" && key != "itemRequested"
    ensures ValidateCreateItemRequest(Obj(m[key := v])) == ValidateCreateItemRequest(Obj(m))
  {
    assert Field(Obj(m[key := v]), "requestorName") == Field(Obj(m), "requestorName");
    assert Field(Obj(m[key := v]), "itemRequested") == Field(Obj(m), "itemRequested");
  }

  /** Lengths are those of the raw string: surrounding blanks count toward the bounds. */
  lemma NameLengthCountsBlanks()
    ensures IsValidMockName(Str(" ab"))
    ensures !IsValidMockName(Str("ab"))
    ensures !IsValidMockName(Str("   "))
  {
    var s := " ab";
    assert forall i | 0 <= i < |s| :: s[i] as int < 0x1_0000;
    assert Utf16Length(s) == 3;
    assert !IsJsWhitespace(s[1]);
    assert forall i | 0 <= i < |"ab"| :: "ab"[i] as int < 0x1_0000;
    assert Utf16Length("ab") == 2;
    assert IsBlank("   ");
  }
}
