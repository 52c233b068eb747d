// Submit-time validation of the air-fryer entry form (`validateForm`): the four regular
// expressions written out as predicates, the per-field error message, and the error map.

module Validation {
  import opened Text
  import opened Masks

  datatype Option<T> = None | Some(value: T)

  /** The six inputs of the form, the keys of `FormData`. */
  datatype Field = FirstName | LastName | PhoneNumber | Email | CostGuess | SpidrPin

  const AllFields: set<Field> := {FirstName, LastName, PhoneNumber, Email, CostGuess, SpidrPin}

  /** The form's current values, one string per field. */
  datatype FormData = FormData(
    firstName: string,
    lastName: string,
    phoneNumber: string,
    email: string,
    costGuess: string,
    spidrPin: string)
  {
    /** `formData[f]` */
    function Get(f: Field): (v: string) {
      match f
      case FirstName => firstName
      case LastName => lastName
      case PhoneNumber => phoneNumber
      case Email => email
      case CostGuess => costGuess
      case SpidrPin => spidrPin
    }

    /** `{...formData, [f]: v}` */
    function With(f: Field, v: string): (d: FormData)
      ensures d.Get(f) == v
      ensures forall g :: g != f ==> d.Get(g) == Get(g)
    {
      match f
      case FirstName => this.(firstName := v)
      case LastName => this.(lastName := v)
      case PhoneNumber => this.(phoneNumber := v)
      case Email => this.(email := v)
      case CostGuess => this.(costGuess := v)
      case SpidrPin => this.(spidrPin := v)
    }
  }

  /** The form as first shown: every field empty. */
  const EmptyForm := FormData("", "", "", "", "", "")

  // ---------------------------------------------------------------------------
  // The patterns

  /** Characters `[\s\-()]` that the phone check strips before matching. */
  predicate IsPhoneSeparator(c: char) {
    IsSpace(c) || c == '-' || c == '(' || c == ')'
  }

  predicate NotPhoneSeparator(c: char) {
    !IsPhoneSeparator(c)
  }

  /** `phone.replace(/[\s\-()]/g, "")` */
  function StripPhoneSeparators(s: string): (r: string) {
    Filter(s, NotPhoneSeparator)
  }

  /** `/^[+]?[1-9][\d]{0,15}$/`: an optional '+', then 1 to 16 digits of which the first
      is not '0'. */
  predicate PhonePattern(s: string) {
    var t := if |s| > 0 && s[0] == '+' then s[1..] else s;
    1 <= |t| <= 16 && '1' <= t[0] <= '9' && AllDigits(t)
  }

  /** Characters matched by `[^\s@]`. */
  predicate EmailChars(s: string) {
    forall k :: 0 <= k < |s| ==> !IsSpace(s[k]) && s[k] != '@'
  }

  /** `/^[^\s@]+@[^\s@]+\.[^\s@]+$/`, decided at the first '@': a non-empty local part
      before it, and after it a part free of whitespace and '@' with a '.' that is neither
      its first nor its last character. */
  predicate EmailPattern(s: string) {
    var at := IndexOf(s, '@');
    0 < at && at + 3 <= |s| && EmailChars(s[..at]) && EmailChars(s[at + 1..])
    && '.' in s[at + 2..|s| - 1]
  }

  /** The regular expression read literally: some '@' and some later '.' cut the string
      into three non-empty runs of `[^\s@]`. */
  ghost predicate EmailRegex(s: string) {
    exists at, dot :: 0 < at && at + 1 < dot < |s| - 1 && s[at] == '@' && s[dot] == '.'
      && EmailChars(s[..at]) && EmailChars(s[at + 1..dot]) && EmailChars(s[dot + 1..])
  }

  /** A run of `[^\s@]` characters stays one when cut. */
  lemma EmailCharsSlice(t: string, lo: nat, hi: nat)
    requires EmailChars(t) && lo <= hi <= |t|
    ensures EmailChars(t[lo..hi])
  {
    assert forall k :: 0 <= k < hi - lo ==> t[lo..hi][k] == t[lo + k];
  }

  /** Two runs of `[^\s@]` joined by a '.' make one run. */
  lemma EmailCharsAroundDot(t: string, i: nat)
    requires i < |t| && t[i] == '.' && EmailChars(t[..i]) && EmailChars(t[i + 1..])
    ensures EmailChars(t)
  {
    forall k | 0 <= k < |t| ensures !IsSpace(t[k]) && t[k] != '@' {
      if k < i {
        assert t[k] == t[..i][k];
      } else if k > i {
        assert t[k] == t[i + 1..][k - i - 1];
      }
    }
  }

  /** Every string the first-'@' check accepts matches the regular expression. */
  lemma EmailPatternSound(s: string)
    requires EmailPattern(s)
    ensures EmailRegex(s)
  {
    var at := IndexOf(s, '@');
    IndexOfSpec(s, '@');
    var t := s[at + 1..];
    var j :| 0 <= j < |s[at + 2..|s| - 1]| && s[at + 2..|s| - 1][j] == '.';
    var dot := at + 2 + j;
    assert s[dot] == '.';
    EmailCharsSlice(t, 0, dot - at - 1);
    assert s[at + 1..dot] == t[0..dot - at - 1];
    EmailCharsSlice(t, dot - at, |t|);
    assert s[dot + 1..] == t[dot - at..|t|];
    assert 0 < at && at + 1 < dot < |s| - 1 && s[at] == '@' && s[dot] == '.'
      && EmailChars(s[..at]) && EmailChars(s[at + 1..dot]) && EmailChars(s[dot + 1..]);
  }

  /** Every string matching the regular expression passes the first-'@' check. */
  lemma EmailPatternComplete(s: string, a: nat, dot: nat)
    requires 0 < a && a + 1 < dot < |s| - 1 && s[a] == '@' && s[dot] == '.'
    requires EmailChars(s[..a]) && EmailChars(s[a + 1..dot]) && EmailChars(s[dot + 1..])
    ensures EmailPattern(s)
  {
    assert '@' !in s[..a] by {
      assert forall k :: 0 <= k < a ==> s[..a][k] != '@';
    }
    IndexOfAt(s, '@', a);
    var t := s[a + 1..];
    assert t[..dot - a - 1] == s[a + 1..dot];
    assert t[dot - a..] == s[dot + 1..];
    EmailCharsAroundDot(t, dot - a - 1);
    assert s[a + 2..|s| - 1][dot - a - 2] == '.';
  }

  /** Deciding at the first '@' gives the same answer as the regular expression. */
  lemma EmailPatternIsRegex(s: string)
    ensures EmailPattern(s) <==> EmailRegex(s)
  {
    if EmailPattern(s) {
      EmailPatternSound(s);
    }
    if EmailRegex(s) {
      var a: nat, dot: nat :| 0 < a && a + 1 < dot < |s| - 1 && s[a] == '@' && s[dot] == '.'
        && EmailChars(s[..a]) && EmailChars(s[a + 1..dot]) && EmailChars(s[dot + 1..]);
      EmailPatternComplete(s, a, dot);
    }
  }

  /** `/^\$?\d+(\.\d{2})?$/`: an optional '$', one or more digits, and optionally a '.'
      followed by exactly two digits. */
  predicate CostPattern(s: string) {
    var t := if |s| > 0 && s[0] == '$' then s[1..] else s;
    (|t| >= 1 && AllDigits(t))
    || (|t| >= 4 && AllDigits(t[..|t| - 3]) && t[|t| - 3] == '.' && AllDigits(t[|t| - 2..]))
  }

  /** `/^\d{4}-\d{4}-\d{4}-\d{4}$/` */
  predicate PinPattern(s: string) {
    |s| == 19 && forall k :: 0 <= k < 19 ==>
      if k == 4 || k == 9 || k == 14 then s[k] == '-' else IsDigit(s[k])
  }

  // ---------------------------------------------------------------------------
  // Errors

  function RequiredMessage(f: Field): (msg: string) {
    match f
    case FirstName => "First name is required"
    case LastName => "Last name is required"
    case PhoneNumber => "Phone number is required"
    case Email => "Email is required"
    case CostGuess => "Cost guess is required"
    case SpidrPin => "Spidr PIN is required"
  }

  function InvalidMessage(f: Field): (msg: string) {
    match f
    case FirstName => ""
    case LastName => ""
    case PhoneNumber => "Please enter a valid phone number"
    case Email => "Please enter a valid email address"
    case CostGuess => "Please enter a valid dollar amount"
    case SpidrPin => "Please enter PIN in format: ####-####-####-####"
  }

  /** The format check of a non-blank value; the names have none. */
  predicate WellFormed(f: Field, v: string) {
    match f
    case FirstName => true
    case LastName => true
    case PhoneNumber => PhonePattern(StripPhoneSeparators(v))
    case Email => EmailPattern(v)
    case CostGuess => CostPattern(v)
    case SpidrPin => PinPattern(v)
  }

  /** The message `validateForm` records for one field: "required" when the trimmed value
      is empty, the format message when the format check fails, and nothing otherwise. */
  function FieldError(f: Field, v: string): (e: Option<string>)
    ensures e == None <==> !IsBlank(v) && WellFormed(f, v)
    ensures IsBlank(v) ==> e == Some(RequiredMessage(f))
    ensures !IsBlank(v) && !WellFormed(f, v) ==> e == Some(InvalidMessage(f))
  {
    TrimEmptyIffBlank(v);
    if Trim(v) == [] then Some(RequiredMessage(f))
    else if !WellFormed(f, v) then Some(InvalidMessage(f))
    else None
  }

  /** One check of `validateForm`: `m` with `f`'s message recorded when `f` has one. */
  function Check(m: map<Field, string>, d: FormData, f: Field): (r: map<Field, string>) {
    match FieldError(f, d.Get(f))
    case None => m
    case Some(e) => m[f := e]
  }

  /** The error map `validateForm` builds, checking the fields in the order of the form. */
  function Validate(d: FormData): (errors: map<Field, string>) {
    var m1 := Check(map[], d, FirstName);
    var m2 := Check(m1, d, LastName);
    var m3 := Check(m2, d, PhoneNumber);
    var m4 := Check(m3, d, Email);
    var m5 := Check(m4, d, CostGuess);
    Check(m5, d, SpidrPin)
  }

  /** `m` holds `f`'s message exactly when `f` has one. */
  predicate Records(m: map<Field, string>, d: FormData, f: Field) {
    && (f in m <==> FieldError(f, d.Get(f)).Some?)
    && (f in m ==> m[f] == FieldError(f, d.Get(f)).value)
  }

  /** A check records its own field and leaves the others' entries alone. */
  lemma CheckRecords(m: map<Field, string>, d: FormData, f: Field, g: Field)
    ensures g == f && g !in m ==> Records(Check(m, d, f), d, g)
    ensures g != f ==> (Records(Check(m, d, f), d, g) <==> Records(m, d, g))
    ensures g != f ==> (g in Check(m, d, f) <==> g in m)
    ensures g != f && g in m ==> Check(m, d, f)[g] == m[g]
  {
    var r := Check(m, d, f);
    match FieldError(f, d.Get(f))
    case None =>
      assert r == m;
    case Some(e) =>
      assert r == m[f := e];
  }

  /** The error map has one entry per field that has an error, holding that error. */
  lemma ValidateSpec(d: FormData)
    ensures forall f :: f in Validate(d) <==> FieldError(f, d.Get(f)).Some?
    ensures forall f :: f in Validate(d) ==> Validate(d)[f] == FieldError(f, d.Get(f)).value
  {
    var m := Validate(d);
    forall g ensures g in m <==> FieldError(g, d.Get(g)).Some? {
      ValidateRecords(d, g);
    }
    forall g | g in m ensures m[g] == FieldError(g, d.Get(g)).value {
      ValidateRecords(d, g);
    }
  }

  /** Each field's entry in the error map is its error. */
  lemma ValidateRecords(d: FormData, g: Field)
    ensures Records(Validate(d), d, g)
  {
    var m1 := Check(map[], d, FirstName);
    var m2 := Check(m1, d, LastName);
    var m3 := Check(m2, d, PhoneNumber);
    var m4 := Check(m3, d, Email);
    var m5 := Check(m4, d, CostGuess);
    CheckRecords(map[], d, FirstName, g);
    CheckRecords(m1, d, LastName, g);
    CheckRecords(m2, d, PhoneNumber, g);
    CheckRecords(m3, d, Email, g);
    CheckRecords(m4, d, CostGuess, g);
    CheckRecords(m5, d, SpidrPin, g);
  }

  // ---------------------------------------------------------------------------
  // Properties of validation

  /** The form passes exactly when no field has an error. */
  lemma ValidIffNoFieldError(d: FormData)
    ensures Validate(d) == map[] <==> forall f :: FieldError(f, d.Get(f)) == None
  {
    ValidateSpec(d);
    if Validate(d) != map[] {
      var f :| f in Validate(d);
    }
  }

  /** Submitting the empty form reports all six "required" messages and nothing else. */
  lemma EmptyFormErrors()
    ensures Validate(EmptyForm) == map[
      FirstName := "First name is required",
      LastName := "Last name is required",
      PhoneNumber := "Phone number is required",
      Email := "Email is required",
      CostGuess := "Cost guess is required",
      SpidrPin := "Spidr PIN is required"]
    ensures |Validate(EmptyForm)| == 6
  {
    var m := Validate(EmptyForm);
    ValidateSpec(EmptyForm);
    assert forall f :: EmptyForm.Get(f) == "";
    assert m.Keys == AllFields;
    assert |AllFields| == 6;
  }

  /** A field's error depends on that field's value alone. */
  lemma ErrorIsLocal(d1: FormData, d2: FormData, f: Field)
    requires d1.Get(f) == d2.Get(f)
    ensures f in Validate(d1) <==> f in Validate(d2)
    ensures f in Validate(d1) ==> Validate(d1)[f] == Validate(d2)[f]
  {
    ValidateSpec(d1);
    ValidateSpec(d2);
  }

  /** Changing one field leaves every other field's error as it was. */
  lemma ChangeIsLocal(d: FormData, f: Field, v: string, g: Field)
    requires g != f
    ensures g in Validate(d.With(f, v)) <==> g in Validate(d)
    ensures g in Validate(d) ==> Validate(d.With(f, v))[g] == Validate(d)[g]
  {
    ErrorIsLocal(d.With(f, v), d, g);
  }

  // ---------------------------------------------------------------------------
  // Masks against validation

  /** A stored phone number passes the phone check exactly when it is non-empty and does
      not start with '0'. */
  lemma PhoneMaskValid(value: string)
    ensures var m := PhoneMask(value);
      FieldError(PhoneNumber, m) == None <==> m != [] && m[0] != '0'
  {
    var m := PhoneMask(value);
    assert IsBlank(m) <==> m == [] by {
      if m != [] {
        assert IsDigit(m[0]);
      }
    }
    assert StripPhoneSeparators(m) == m by {
      forall k | 0 <= k < |m| ensures NotPhoneSeparator(m[k]) {
        assert IsDigit(m[k]);
      }
      FilterKeepsAll(m, NotPhoneSeparator);
    }
  }

  /** The phone check admits numbers of up to 16 digits, which the phone mask, capped at
      ten digits, can never store. */
  lemma PhonePatternExceedsMask()
    ensures PhonePattern("12345678901")
    ensures forall value :: PhoneMask(value) != "12345678901"
  {
    var s := "12345678901";
    assert AllDigits(s) by {
      assert forall k :: 0 <= k < |s| ==> IsDigit(s[k]);
    }
  }

  /** A stored PIN passes the PIN check exactly when the typed value held 16 digits or more. */
  lemma PinFormatValid(value: string)
    ensures FieldError(SpidrPin, FormatSpidrPin(value)) == None <==> |DigitsOnly(value)| >= 16
  {
    var r := FormatSpidrPin(value);
    var n := PinDigitCount(value);
    PinLayout(value);
    PinShape(value);
    if |DigitsOnly(value)| >= 16 {
      assert n == 16 && |r| == 19;
      assert !IsBlank(r) by {
        assert IsDigit(r[0]);
      }
      assert PinPattern(r);
    } else {
      assert |r| < 19;
    }
  }

  /** On a string of digits and at most one '.', the cost check passes exactly when some
      digit comes before the dot and the dot, if any, is followed by exactly two digits. */
  lemma CostPatternDigitsDot(r: string)
    requires forall k :: 0 <= k < |r| ==> IsCostChar(r[k])
    requires AtMostOneDot(r)
    ensures var i := IndexOf(r, '.');
      CostPattern(r) <==> 0 < i && (i == |r| || i + 3 == |r|)
  {
    var i := IndexOf(r, '.');
    IndexOfSpec(r, '.');
    assert r != [] ==> r[0] != '$';
    forall k | 0 <= k < i ensures IsDigit(r[k]) {
      assert r[..i][k] == r[k];
    }
    assert forall k :: i < k < |r| ==> IsDigit(r[k]);
    if |r| >= 1 && AllDigits(r) {
      assert '.' !in r by {
        forall k | 0 <= k < |r| ensures r[k] != '.' {
          assert IsDigit(r[k]);
        }
      }
    } else if |r| >= 4 && AllDigits(r[..|r| - 3]) && r[|r| - 3] == '.' {
      var head := r[..|r| - 3];
      assert '.' !in head by {
        forall k | 0 <= k < |head| ensures head[k] != '.' {
          assert IsDigit(head[k]);
        }
      }
      IndexOfAt(r, '.', |r| - 3);
    }
    if 0 < i && i + 3 == |r| {
      var head, tail := r[..i], r[i + 1..];
      assert forall k :: 0 <= k < |head| ==> head[k] == r[k];
      assert forall k :: 0 <= k < |tail| ==> tail[k] == r[i + 1 + k];
      assert r[|r| - 2..] == tail;
    }
  }

  /** A stored cost guess passes the cost check exactly when it has a digit before its
      dot and, if it has a dot, exactly two digits after it. */
  lemma CostMaskValid(value: string)
    ensures var r := CostMask(value);
      var i := IndexOf(r, '.');
      FieldError(CostGuess, r) == None <==> 0 < i && (i == |r| || i + 3 == |r|)
  {
    var r := CostMask(value);
    CostMaskShape(value);
    CostPatternDigitsDot(r);
    if r != [] {
      assert !IsSpace(r[0]);
    }
  }

  /** A form whose other fields are all valid but whose email is wrong: only the email
      has an error. */
  lemma OnlyBadEmailReported(d: FormData)
    requires d.email == "not-an-email"
    requires forall f :: f != Email ==> FieldError(f, d.Get(f)) == None
    ensures Validate(d) == map[Email := "Please enter a valid email address"]
  {
    ExampleEmail(d.email);
    ValidateSingleError(d, Email);
  }

  /** A concrete filling: "Ada", "Lovelace", "5551234567", "299.99" and
      "1234-5678-9012-3456" are all valid, so a bad email is the only error. */
  lemma ExampleFilledForm(d: FormData)
    requires d.firstName == "Ada" && d.lastName == "Lovelace" && d.phoneNumber == "5551234567"
    requires d.email == "not-an-email" && d.costGuess == "299.99"
    requires d.spidrPin == "1234-5678-9012-3456"
    ensures Validate(d) == map[Email := "Please enter a valid email address"]
  {
    ExampleName(d.firstName);
    ExampleName(d.lastName);
    ExamplePhone(d.phoneNumber);
    ExampleCost(d.costGuess);
    ExamplePin(d.spidrPin);
    OnlyBadEmailReported(d);
  }

  /** When exactly one field has an error, the error map holds that error alone. */
  lemma ValidateSingleError(d: FormData, g: Field)
    requires forall f :: f != g ==> FieldError(f, d.Get(f)) == None
    requires FieldError(g, d.Get(g)).Some?
    ensures Validate(d) == map[g := FieldError(g, d.Get(g)).value]
  {
    SingleKey(d, g);
    ValidateRecords(d, g);
    SingletonMap(Validate(d), g, FieldError(g, d.Get(g)).value);
  }

  /** When exactly one field has an error, it is the only key of the error map. */
  lemma SingleKey(d: FormData, g: Field)
    requires forall f :: f != g ==> FieldError(f, d.Get(f)) == None
    requires FieldError(g, d.Get(g)).Some?
    ensures forall f :: f in Validate(d) <==> f == g
  {
    forall f ensures f in Validate(d) <==> f == g {
      ValidateRecords(d, f);
    }
  }

  lemma SingletonMap(m: map<Field, string>, g: Field, e: string)
    requires forall f :: f in m <==> f == g
    requires g in m && m[g] == e
    ensures m == map[g := e]
  {
    assert m.Keys == {g};
  }

  lemma ExampleName(v: string)
    requires v == "Ada" || v == "Lovelace"
    ensures FieldError(FirstName, v) == None && FieldError(LastName, v) == None
  {
    assert v[0] == 'A' || v[0] == 'L';
  }

  lemma ExamplePhone(v: string)
    requires v == "5551234567"
    ensures FieldError(PhoneNumber, v) == None
  {
    assert AllDigits(v) by {
      assert forall k :: 0 <= k < |v| ==> IsDigit(v[k]);
    }
    FilterKeepsAll(v, IsDigit);
    assert PhoneMask(v) == v;
    PhoneMaskValid(v);
  }

  lemma ExampleEmail(v: string)
    requires v == "not-an-email"
    ensures FieldError(Email, v) == Some("Please enter a valid email address")
  {
    assert '@' !in v;
    assert v[0] == 'n';
  }

  lemma ExampleCost(v: string)
    requires v == "299.99"
    ensures FieldError(CostGuess, v) == None
  {
    assert v[0] == '2';
    assert v[..|v| - 3] == "299" && v[|v| - 2..] == "99";
    assert AllDigits("299") by {
      assert forall k :: 0 <= k < 3 ==> IsDigit("299"[k]);
    }
    assert AllDigits("99") by {
      assert forall k :: 0 <= k < 2 ==> IsDigit("99"[k]);
    }
  }

  lemma ExamplePin(v: string)
    requires v == "1234-5678-9012-3456"
    ensures FieldError(SpidrPin, v) == None
  {
    assert v[0] == '1';
    forall k | 0 <= k < 19
      ensures if k == 4 || k == 9 || k == 14 then v[k] == '-' else IsDigit(v[k])
    {
    }
  }
}
