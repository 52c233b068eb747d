// The state of the air-fryer entry form (`formData` and `errors`) and the handlers that
// change it: a keystroke in an input, a keystroke in the PIN input, and submission.

module FormState {
  import opened Text
  import opened Masks
  import opened Validation

  /** A message is on screen for `f`: `errors[f]` is set and not "". */
  predicate Shown(errors: map<Field, string>, f: Field) {
    f in errors && errors[f] != ""
  }

  /** Every message on screen is the error the field's current value has. */
  predicate Consistent(d: FormData, errors: map<Field, string>) {
    forall f :: Shown(errors, f) ==> FieldError(f, d.Get(f)) == Some(errors[f])
  }

  /** "Clear error when user starts typing": a shown message for `f` becomes ""; a field
      without one is left alone. */
  function ClearError(errors: map<Field, string>, f: Field): (r: map<Field, string>)
    ensures r.Keys == errors.Keys
    ensures !Shown(r, f)
    ensures forall g :: g != f && g in errors ==> r[g] == errors[g]
  {
    if Shown(errors, f) then errors[f := ""] else errors
  }

  /** The error map of a validation is consistent with the values it checked. */
  lemma ValidateConsistent(d: FormData)
    ensures Consistent(d, Validate(d))
  {
    var m := Validate(d);
    forall f | Shown(m, f) ensures FieldError(f, d.Get(f)) == Some(m[f]) {
      ValidateRecords(d, f);
    }
  }

  /** Typing into one field keeps every message on screen truthful: the edited field's
      message is cleared, and the other fields keep both their values and their messages. */
  lemma ChangeKeepsConsistent(d: FormData, errors: map<Field, string>, f: Field, v: string)
    ensures Consistent(d, errors) ==> Consistent(d.With(f, v), ClearError(errors, f))
  {
    if Consistent(d, errors) {
      var r := ClearError(errors, f);
      var d' := d.With(f, v);
      forall g | Shown(r, g) ensures FieldError(g, d'.Get(g)) == Some(r[g]) {
        assert g != f;
        assert Shown(errors, g);
        assert d'.Get(g) == d.Get(g);
      }
    }
  }

  /** The form component: the six values and the messages shown under the inputs. */
  class AirFryerForm {
    var formData: FormData
    var errors: map<Field, string>

    /** Every message on screen describes the value it sits under. */
    predicate Valid()
      reads this
    {
      Consistent(formData, errors)
    }

    /** `useState` with six empty values and `{}` for the errors. */
    constructor ()
      ensures formData == EmptyForm && errors == map[]
      ensures Valid()
    {
      formData := EmptyForm;
      errors := map[];
    }

    /** `validateForm`: checks the six fields in order, replaces the error map with the
        messages found, and reports whether there were none. */
    method ValidateForm() returns (valid: bool)
      modifies this`errors
      ensures errors == Validate(formData)
      ensures valid <==> forall f :: FieldError(f, formData.Get(f)) == None
      ensures Valid()
    {
      var d := formData;
      var newErrors: map<Field, string> := map[];
      newErrors := CheckField(newErrors, d, FirstName);
      newErrors := CheckField(newErrors, d, LastName);
      newErrors := CheckField(newErrors, d, PhoneNumber);
      newErrors := CheckField(newErrors, d, Email);
      newErrors := CheckField(newErrors, d, CostGuess);
      newErrors := CheckField(newErrors, d, SpidrPin);
      errors := newErrors;
      valid := |newErrors| == 0;
      NoKeys(newErrors);
      ValidIffNoFieldError(d);
      ValidateConsistent(d);
    }

    /** `handleInputChange`: stores the typed value in the named field, through the phone
        mask or the cost mask for those two fields, and clears that field's message if one
        is shown. */
    method HandleInputChange(name: Field, value: string)
      modifies this
      ensures formData == old(formData).With(name,
        if name == PhoneNumber then PhoneMask(value)
        else if name == CostGuess then CostMask(value)
        else value)
      ensures errors == ClearError(old(errors), name)
      ensures old(Valid()) ==> Valid()
    {
      var newValue := MaskInput(name, value);
      ChangeKeepsConsistent(formData, errors, name, newValue);
      ghost var cleared := ClearError(errors, name);
      formData := formData.With(name, newValue);
      if Shown(errors, name) {
        errors := errors[name := ""];
      }
      assert errors == cleared;
    }

    /** `handleSpidrPinChange`: stores the formatted PIN and clears the PIN's message if
        one is shown. */
    method HandleSpidrPinChange(value: string)
      modifies this
      ensures formData == old(formData).With(SpidrPin, FormatSpidrPin(value))
      ensures errors == ClearError(old(errors), SpidrPin)
      ensures old(Valid()) ==> Valid()
    {
      var formatted := FormatSpidrPin(value);
      ChangeKeepsConsistent(formData, errors, SpidrPin, formatted);
      ghost var cleared := ClearError(errors, SpidrPin);
      formData := formData.With(SpidrPin, formatted);
      if Shown(errors, SpidrPin) {
        errors := errors[SpidrPin := ""];
      }
      assert errors == cleared;
    }

    /** `handleSubmit`: validates, and submits exactly when validation found no error. */
    method HandleSubmit() returns (submitted: bool)
      modifies this`errors
      ensures errors == Validate(formData)
      ensures submitted <==> forall f :: FieldError(f, formData.Get(f)) == None
      ensures Valid()
    {
      submitted := ValidateForm();
    }
  }

  /** The masking part of `handleInputChange`: the value as typed, except that the phone
      number keeps its first ten digits and the cost guess goes through the cost mask. */
  method MaskInput(name: Field, value: string) returns (newValue: string)
    ensures newValue ==
      if name == PhoneNumber then PhoneMask(value)
      else if name == CostGuess then CostMask(value)
      else value
  {
    newValue := value;
    if name == PhoneNumber {
      newValue := Slice(DigitsOnly(value), 0, 10);
      assert newValue == PhoneMask(value);
    }
    if name == CostGuess {
      newValue := Filter(value, IsCostChar);
      var parts := SplitDots(newValue);
      if |parts| > 2 {
        newValue := parts[0] + "." + Concat(parts[1..]);
      }
      if |parts| > 1 && parts[1] != [] {
        newValue := parts[0] + "." + Slice(parts[1], 0, 2);
      }
      assert newValue == CostMask(value);
    }
  }

  /** One block of `validateForm`: the "required" message when the trimmed value is
      empty, else the format message when the format check fails (the names have none),
      else nothing. */
  method CheckField(m: map<Field, string>, d: FormData, f: Field) returns (r: map<Field, string>)
    ensures r == Check(m, d, f)
    ensures forall g :: g != f ==> (g in r <==> g in m)
    ensures forall g :: g != f && g in m ==> r[g] == m[g]
    ensures f in r <==> f in m || FieldError(f, d.Get(f)).Some?
  {
    var value := d.Get(f);
    if Trim(value) == [] {
      r := m[f := RequiredMessage(f)];
    } else if !WellFormed(f, value) {
      r := m[f := InvalidMessage(f)];
    } else {
      r := m;
    }
  }

  /** `Object.keys(m).length === 0` holds exactly for the empty map. */
  lemma NoKeys(m: map<Field, string>)
    ensures |m| == 0 <==> m == map[]
  {
    if |m| != 0 {
      assert m.Keys != {};
    }
  }
}
