/**
 The expression-level logic of the form: which values count as filled, the
 required-field filters behind the progress bar and `validateForm`, the
 letters-only input check and the record built on submit.
 */
module FormLogic {
  import opened Text
  import opened Catalog

  /** Form data and stored records: field name to raw string value. */
  type Record = map<string, string>

  /** The key under which a submitted record carries its category. */
  const FormTypeKey: string := "formType"

  /** The fields whose input must match `^[a-zA-Z\s]*$`. */
  const LettersOnlyFields: set<string> := {"firstName", "lastName", "city", "cardholderName"}

  /** The value under `name` is present and has a non-whitespace character. */
  predicate Filled(data: Record, name: string)
  {
    name in data && !Blank(data[name])
  }

  /**
   `Filled` is the test `data[name] && data[name].trim() !== ""`: an absent
   value is undefined and an empty one is falsy, and trimming the empty
   string gives the empty string.
   */
  lemma FilledIsTrimTest(data: Record, name: string)
    ensures Filled(data, name) <==> name in data && data[name] != "" && Trim(data[name]) != ""
  {
    if name in data {
      TrimEmptyIffBlank(data[name]);
    }
  }

  /** Every required field of `fields` is filled in `data`. */
  predicate AllRequiredFilled(fields: seq<Field>, data: Record)
  {
    forall i :: 0 <= i < |fields| && fields[i].required ==> Filled(data, fields[i].name)
  }

  /** `fields.filter(field => field.required)`. */
  function RequiredFields(fields: seq<Field>): (r: seq<Field>)
    ensures |r| <= |fields|
    ensures forall j :: 0 <= j < |r| ==> r[j].required
  {
    if fields == [] then []
    else (if fields[0].required then [fields[0]] else []) + RequiredFields(fields[1..])
  }

  /** The filter keeps exactly the required fields of the list. */
  lemma {:induction false} RequiredFieldsExact(fields: seq<Field>)
    ensures forall f :: f in RequiredFields(fields) <==> f in fields && f.required
  {
    if fields != [] {
      RequiredFieldsExact(fields[1..]);
      assert fields == [fields[0]] + fields[1..];
    }
  }

  /** A list with a required field keeps at least one field through the filter. */
  lemma {:induction false} RequiredFieldsNonEmpty(fields: seq<Field>)
    requires HasRequired(fields)
    ensures |RequiredFields(fields)| > 0
  {
    if !fields[0].required {
      var i :| 0 <= i < |fields| && fields[i].required;
      assert fields[1..][i - 1].required;
      RequiredFieldsNonEmpty(fields[1..]);
    }
  }

  /** The required fields are filled exactly when the first one (if required) and the rest are. */
  lemma AllRequiredFilledSplit(fields: seq<Field>, data: Record)
    requires fields != []
    ensures AllRequiredFilled(fields, data) <==>
      (fields[0].required ==> Filled(data, fields[0].name)) && AllRequiredFilled(fields[1..], data)
  {
    if AllRequiredFilled(fields[1..], data) && (fields[0].required ==> Filled(data, fields[0].name)) {
      forall i | 0 < i < |fields| && fields[i].required ensures Filled(data, fields[i].name) {
        assert fields[i] == fields[1..][i - 1];
      }
    }
  }

  /** `requiredFields.filter(filled).length`: how many required fields are filled. */
  function FilledCount(fields: seq<Field>, data: Record): (n: nat)
    ensures n <= |RequiredFields(fields)|
    ensures n == |RequiredFields(fields)| <==> AllRequiredFilled(fields, data)
  {
    if fields == [] then 0
    else
      AllRequiredFilledSplit(fields, data);
      (if fields[0].required && Filled(data, fields[0].name) then 1 else 0) + FilledCount(fields[1..], data)
  }

  /** Facts about `filled / required * 100` for `filled <= required`. */
  lemma {:induction false} PercentBounds(filled: nat, required: nat)
    requires 0 < required && filled <= required
    ensures 0.0 <= (filled as real / required as real) * 100.0 <= 100.0
    ensures (filled as real / required as real) * 100.0 == 100.0 <==> filled == required
  {
    var f, q := filled as real, required as real;
    var ratio := f / q;
    assert ratio * q == f;
    assert 0.0 <= ratio <= 1.0;
    if ratio == 1.0 { assert f == q; }
  }

  /** Dividing by the same positive count keeps the order of the numerators. */
  lemma {:induction false} PercentMonotone(a: nat, b: nat, required: nat)
    requires 0 < required && a <= b
    ensures (a as real / required as real) * 100.0 <= (b as real / required as real) * 100.0
  {
    var q := required as real;
    var x, y := a as real / q, b as real / q;
    assert x * q == a as real && y * q == b as real;
    assert x <= y;
  }

  /**
   `(filledFields.length / requiredFields.length) * 100`, in exact rational
   arithmetic. The denominator is non-zero for every catalog category.
   */
  function Progress(fields: seq<Field>, data: Record): (p: real)
    requires HasRequired(fields)
    ensures 0.0 <= p <= 100.0
    ensures p == 100.0 <==> AllRequiredFilled(fields, data)
  {
    var filled := FilledCount(fields, data);
    var required := |RequiredFields(fields)|;
    RequiredFieldsNonEmpty(fields);
    PercentBounds(filled, required);
    (filled as real / required as real) * 100.0
  }

  /** Filling in more values never lowers the count of filled required fields. */
  lemma {:induction false} FilledCountMonotone(fields: seq<Field>, d1: Record, d2: Record)
    requires forall name :: Filled(d1, name) ==> Filled(d2, name)
    ensures FilledCount(fields, d1) <= FilledCount(fields, d2)
  {
    if fields != [] {
      FilledCountMonotone(fields[1..], d1, d2);
    }
  }

  /**
   Progress is monotone: storing a non-blank value under any name never makes
   it go down, whatever the category.
   */
  lemma ProgressMonotone(fields: seq<Field>, data: Record, name: string, value: string)
    requires HasRequired(fields)
    requires Trim(value) != ""
    ensures Progress(fields, data) <= Progress(fields, data[name := value])
  {
    TrimEmptyIffBlank(value);
    FilledCountMonotone(fields, data, data[name := value]);
    RequiredFieldsNonEmpty(fields);
    PercentMonotone(FilledCount(fields, data), FilledCount(fields, data[name := value]), |RequiredFields(fields)|);
  }

  /**
   `formFields.filter(field => field.required && !filled)`: the required fields
   that `validateForm` reports as missing, in form order.
   */
  function Missing(fields: seq<Field>, data: Record): (r: seq<Field>)
    ensures |r| <= |fields|
    ensures forall j :: 0 <= j < |r| ==> r[j].required && !Filled(data, r[j].name)
    ensures r == [] <==> AllRequiredFilled(fields, data)
  {
    if fields == [] then []
    else
      AllRequiredFilledSplit(fields, data);
      (if fields[0].required && !Filled(data, fields[0].name) then [fields[0]] else [])
      + Missing(fields[1..], data)
  }

  /**
   Every required field is either counted as filled by the progress bar or
   reported missing by `validateForm`, never both.
   */
  lemma {:induction false} FilledPlusMissing(fields: seq<Field>, data: Record)
    ensures FilledCount(fields, data) + |Missing(fields, data)| == |RequiredFields(fields)|
  {
    if fields != [] {
      FilledPlusMissing(fields[1..], data);
    }
  }

  /** `validateForm`'s verdict: nothing is missing. */
  function Validate(fields: seq<Field>, data: Record): (ok: bool)
    ensures ok <==> AllRequiredFilled(fields, data)
  {
    |Missing(fields, data)| == 0
  }

  /** Validation passes exactly when the progress bar would show 100. */
  lemma ValidateIffProgressFull(fields: seq<Field>, data: Record)
    requires HasRequired(fields)
    ensures Validate(fields, data) <==> Progress(fields, data) == 100.0
  {
  }

  /**
   The check `handleInputChange` makes before storing a value: names in the
   letters-only set accept only ASCII letters and whitespace.
   */
  function Accepts(name: string, value: string): (ok: bool)
    ensures ok <==> (name in LettersOnlyFields ==> forall i :: 0 <= i < |value| ==> IsLetterOrSpace(value[i]))
  {
    name !in LettersOnlyFields || LettersOnly(value)
  }

  /** `{ ...formData, formType }`: the record stored on submit. */
  function Tag(data: Record, category: string): (r: Record)
    ensures r.Keys == data.Keys + {FormTypeKey}
    ensures r[FormTypeKey] == category
    ensures forall k :: k in data && k != FormTypeKey ==> r[k] == data[k]
  {
    data[FormTypeKey := category]
  }

  /** Tagging a record that already carries its category gives it back unchanged. */
  lemma TagAlreadyTagged(data: Record, category: string)
    requires FormTypeKey in data && data[FormTypeKey] == category
    ensures Tag(data, category) == data
  {
  }
}
