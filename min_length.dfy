/**
 * `hasMinLength(property, minLength)`: a validator factory. The validator it
 * returns passes the request data through when `data[property]` is truthy and
 * at least `minLength` long, and otherwise raises a 400 error.
 */
module MinLength {
  import opened Wrappers
  import opened Js
  import opened Text

  /** The validator closure: the two arguments it captures. */
  datatype Validator = Validator(property: string, minLength: int)

  const Prefix := "hasMinLength"

  /** The validator's function name, `hasMinLength<PROPERTY>Of<minLength>`, fixed once when it is made. */
  function Name(v: Validator): (name: string)
    ensures |name| == |Prefix| + |v.property| + 2 + |IntToString(v.minLength)|
    ensures name[..|Prefix|] == Prefix
    ensures forall i :: 0 <= i < |v.property| ==> name[|Prefix| + i] == UpperChar(v.property[i])
  {
    Prefix + NameSuffix(v)
  }

  function NameSuffix(v: Validator): string
  {
    ToUpper(v.property) + "Of" + IntToString(v.minLength)
  }

  /** The message of the error the validator raises. */
  function ErrorMessage(v: Validator): string
  {
    "The '" + v.property + "' property must be at least " + IntToString(v.minLength) + " characters."
  }

  /** The test the validator applies to `data[property]`: `value && value.length >= minLength`. */
  predicate LongEnough(value: Option<Value>, minLength: int)
  {
    value.Some? && Truthy(value.value) && AtLeast(Length(value.value), minLength as real)
  }

  /** Why the validator refused its argument. */
  datatype Refusal =
    | Rejected(error: HttpError)
      /** `null[property]` threw a TypeError; the handler that renders it is not part of this model. */
    | Threw

  /**
   * Calling the validator. `None` is a call without an argument, which the
   * default parameter turns into `{}`; `null` gets no default.
   */
  function Apply(v: Validator, data: Option<Value>): (r: Result<Value, Refusal>)
    ensures r.Ok? ==> data == Some(r.value)
    ensures r == Err(Threw) <==> data == Some(Null)
    ensures r.Err? && r.error.Rejected? ==> r.error.error == HttpError(400, ErrorMessage(v))
  {
    var arg := data.GetOr(Object([]));
    if arg.Null? then Err(Threw)
    else if LongEnough(Property(arg, v.property), v.minLength) then Ok(arg)
    else Err(Rejected(HttpError(400, ErrorMessage(v))))
  }

  /** A truthy value of sufficient length is accepted, and the data comes back unchanged. */
  lemma AcceptsLongEnough(v: Validator, data: seq<Member>, value: Value)
    requires UniqueKeys(data) && Member(v.property, value) in data
    requires Truthy(value) && AtLeast(Length(value), v.minLength as real)
    ensures Apply(v, Some(Object(data))) == Ok(Object(data))
  {
    GetMember(data, v.property, value);
  }

  /** Any other value is refused with a 400. */
  lemma RejectsOtherwise(v: Validator, data: seq<Member>, value: Value)
    requires UniqueKeys(data) && Member(v.property, value) in data
    requires !(Truthy(value) && AtLeast(Length(value), v.minLength as real))
    ensures Apply(v, Some(Object(data))) == Err(Rejected(HttpError(400, ErrorMessage(v))))
  {
    GetMember(data, v.property, value);
  }

  /** A string is accepted exactly when it is non-empty and has at least `minLength` characters. */
  lemma StringRule(v: Validator, data: seq<Member>, text: string)
    requires UniqueKeys(data) && Member(v.property, Str(text)) in data
    ensures Apply(v, Some(Object(data))).Ok? <==> text != "" && |text| >= v.minLength
  {
    GetMember(data, v.property, Str(text));
  }

  /** An object is truthy and its own numeric `length` member is what the comparison reads. */
  lemma AcceptsObjectWithLength(v: Validator, data: seq<Member>, members: seq<Member>, n: real)
    requires UniqueKeys(data) && Member(v.property, Object(members)) in data
    requires UniqueKeys(members) && Member("length", Number(n)) in members && n >= v.minLength as real
    ensures Apply(v, Some(Object(data))) == Ok(Object(data))
  {
    GetMember(members, "length", Number(n));
    AcceptsLongEnough(v, data, Object(members));
  }

  /** An object without a `length` member compares `undefined` and is refused. */
  lemma RejectsObjectWithoutLength(v: Validator, data: seq<Member>, members: seq<Member>)
    requires UniqueKeys(data) && Member(v.property, Object(members)) in data
    requires "length" !in Keys(members)
    ensures Apply(v, Some(Object(data))) == Err(Rejected(HttpError(400, ErrorMessage(v))))
  {
    RejectsOtherwise(v, data, Object(members));
  }

  /** An empty string is refused whatever the minimum, even 0: it is falsy. */
  lemma RejectsEmptyString(v: Validator, data: seq<Member>)
    requires UniqueKeys(data) && Member(v.property, Str("")) in data
    ensures Apply(v, Some(Object(data))).Err?
  {
    RejectsOtherwise(v, data, Str(""));
  }

  /** An empty array is truthy, so with a minimum of 0 or less it is accepted. */
  lemma AcceptsEmptyArrayAtZero(v: Validator, data: seq<Member>)
    requires UniqueKeys(data) && Member(v.property, Array([])) in data && v.minLength <= 0
    ensures Apply(v, Some(Object(data))) == Ok(Object(data))
  {
    AcceptsLongEnough(v, data, Array([]));
  }

  /** A truthy value without a `length`, such as a non-zero number, is refused. */
  lemma RejectsNumber(v: Validator, data: seq<Member>, n: real)
    requires UniqueKeys(data) && Member(v.property, Number(n)) in data
    ensures Apply(v, Some(Object(data))).Err?
  {
    RejectsOtherwise(v, data, Number(n));
  }

  /** A missing property is refused. */
  lemma RejectsAbsent(v: Validator, data: seq<Member>)
    requires v.property !in Keys(data)
    ensures Apply(v, Some(Object(data))) == Err(Rejected(HttpError(400, ErrorMessage(v))))
  {
  }

  /** A call without an argument checks `{}` and is refused. */
  lemma RejectsNoArgument(v: Validator)
    ensures Apply(v, None) == Err(Rejected(HttpError(400, ErrorMessage(v))))
  {
    RejectsAbsent(v, []);
  }

  /** `null` gets no default: reading a property of it throws instead of the 400. */
  lemma NullArgumentThrows(v: Validator)
    ensures Apply(v, Some(Null)) == Err(Threw)
  {
  }

  /** A number or a boolean has no own properties, so its check is refused with the 400. */
  lemma RejectsScalarArgument(v: Validator, data: Value)
    requires data.Number? || data.Bool?
    ensures Apply(v, Some(data)) == Err(Rejected(HttpError(400, ErrorMessage(v))))
  {
  }

  /** A string argument has its characters as own properties: `hasMinLength("0", 1)("ab")` passes it through. */
  lemma StringArgumentIndex(text: string)
    requires text != []
    ensures Apply(Validator("0", 1), Some(Str(text))) == Ok(Str(text))
  {
    assert IsIndexKey("0") && ParseDigits("0") == 0;
    assert Property(Str(text), "0") == Some(Str([text[0]]));
  }

  /**
   * The name identifies the validator up to upper case: two validators with the
   * same name check the same minimum of the same upper-cased property.
   */
  lemma NameIdentifies(v: Validator, w: Validator)
    requires Name(v) == Name(w)
    ensures ToUpper(v.property) == ToUpper(w.property)
    ensures v.minLength == w.minLength
  {
    assert NameSuffix(v) == Name(v)[|Prefix|..];
    assert NameSuffix(w) == Name(w)[|Prefix|..];
    SplitAtOf(ToUpper(v.property), IntToString(v.minLength), ToUpper(w.property), IntToString(w.minLength));
    IntToStringInjective(v.minLength, w.minLength);
  }

  predicate IsLower(c: char) {
    'a' <= c <= 'z'
  }

  /** The index of the first lower-case letter of `s`, or `|s|` when it has none. */
  function FirstLower(s: string): (k: nat)
    ensures k <= |s|
    ensures forall i :: 0 <= i < k ==> !IsLower(s[i])
    ensures k < |s| ==> IsLower(s[k])
  {
    if s == [] || IsLower(s[0]) then 0 else 1 + FirstLower(s[1..])
  }

  /** In an upper-cased name, the first lower-case letter is the `f` of "Of". */
  lemma FirstLowerIsOf(a: string, m: string)
    requires forall i :: 0 <= i < |a| ==> !IsLower(a[i])
    ensures FirstLower(a + "Of" + m) == |a| + 1
  {
    var s := a + "Of" + m;
    assert s[|a| + 1] == 'f';
    assert forall i :: 0 <= i <= |a| ==> !IsLower(s[i]) by {
      forall i | 0 <= i <= |a| ensures !IsLower(s[i]) {
        if i < |a| {
          assert s[i] == a[i];
        }
      }
    }
  }

  /** Splitting an upper-cased name at its "Of" recovers both halves. */
  lemma SplitAtOf(a: string, m: string, b: string, n: string)
    requires forall i :: 0 <= i < |a| ==> !IsLower(a[i])
    requires forall i :: 0 <= i < |b| ==> !IsLower(b[i])
    requires a + "Of" + m == b + "Of" + n
    ensures a == b && m == n
  {
    var s := a + "Of" + m;
    FirstLowerIsOf(a, m);
    FirstLowerIsOf(b, n);
    assert a == s[..|a|] && b == s[..|b|];
    assert m == s[|a| + 2..] && n == s[|b| + 2..];
  }
}
