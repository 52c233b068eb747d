# Air-fryer entry form: input masks and validation

This project models the logic of the `AirFryerForm` React component: the keystroke
masks it applies to what a user types, and the checks it runs when the form is
submitted. The form has six text fields: first name, last name, phone number, email,
cost guess and Spidr PIN. It keeps their values in `formData` and the message shown
under each input in `errors`.

- `Text` (text.dfy) holds the character classes and the JavaScript string operations
  the component uses:
  - `replace(/[^…]/g, "")` is `Filter`;
  - `slice` is `Slice`;
  - `trim` is `Trim`.
- `Masks` (masks.dfy) holds the three masks:
  - the phone mask keeps the digits and cuts them to ten;
  - the cost mask keeps digits and dots, merges extra dots away, and cuts the
    decimals to two when the piece right after the first dot is non-empty;
  - `formatSpidrPin` groups the first 16 digits as `####-####-####-####`.

  The cost mask is modelled with the handler's own `split(".")` and `join` steps. It is
  proved equal to a reference definition that needs no splitting (`CostMaskSpec`).
- `Validation` (validation.dfy) holds the six per-field checks of `validateForm`:
  - the four regular expressions are written as predicates over characters;
  - each field gets its message (`FieldError`);
  - the error map holds one entry per failing field (`Validate`).
- `FormState` (formstate.dfy) holds the component's state as the class `AirFryerForm`.
  Its methods are `ValidateForm`, `HandleInputChange`, `HandleSpidrPinChange` and
  `HandleSubmit`. The class keeps one invariant: every message on screen is the error
  of the value it sits under (`Consistent`).

Behaviour of the code as written that the model keeps and proves:

- **Phone length.** The phone check allows an optional '+' and 1 to 16 digits, the first
  not '0': `[1-9][\d]{0,15}` (`src/components/AirFryerForm.tsx:40`). The phone mask
  never stores more than ten digits, so the check admits numbers that no keystroke can
  produce (`PhonePatternExceedsMask`). The phone input itself declares `maxLength={15}`
  (`src/components/AirFryerForm.tsx:213`); the check as written admits 16 digits, and
  the model follows the check.
- **Cost decimals.** The cost mask cuts the decimals to two only when the piece right
  after the first dot is non-empty. `1..345` is therefore stored as `1.345`, and masking
  that again gives `1.34`, so the mask is not idempotent (`CostMaskEmptySegmentExample`,
  `CostMaskNotIdempotent`).
- **Email matching.** The email regular expression is decided at the first '@'
  (`EmailPattern`). It is proved equivalent to the expression read literally
  (`EmailPatternIsRegex`).

## Model

| member | source | states |
|---|---|---|
| Text.Filter | src/components/AirFryerForm.tsx:75 | `s.replace(/[^K]/g, "")`: the kept characters in order; the result is never longer than the input (its meaning is stated by the three lemmas below) |
| Text.FilterKept | src/components/AirFryerForm.tsx:75 | every character `replace(/[^K]/g, "")` keeps satisfies K and occurs in the input |
| Text.FilterKeepsAll | src/components/AirFryerForm.tsx:81 | a string made only of kept characters passes the filter unchanged |
| Text.FilterAppend | src/components/AirFryerForm.tsx:109 | filtering a concatenation filters each part, in order |
| Text.Slice | src/components/AirFryerForm.tsx:75 | definition, no contract: `s.slice(lo, hi)` with both bounds clamped to the length; SlicePrefix states that `slice(0, n)` is the prefix of length min(n, length) |
| Text.SlicePrefix | src/components/AirFryerForm.tsx:89 | `s.slice(0, n)` is a prefix of `s` of length min(n, length of `s`) |
| Text.Trim | src/components/AirFryerForm.tsx:29 | definition, no contract: `s.trim()`, whitespace removed at both ends; its meaning is TrimEmptyIffBlank |
| Text.TrimEmptyIffBlank | src/components/AirFryerForm.tsx:29 | `!s.trim()` holds exactly when every character of `s` is whitespace |
| Masks.DigitsOnly | src/components/AirFryerForm.tsx:75 | definition, no contract: `replace(/[^0-9]/g, "")` (and `replace(/\D/g, "")` at line 109), the digits of the value in order; its meaning is DigitsOnlyDigits with FilterKept and FilterKeepsAll |
| Masks.DigitsOnlyDigits | src/components/AirFryerForm.tsx:75 | removing the non-digits leaves only digits |
| Masks.PhoneMask | src/components/AirFryerForm.tsx:75 | the stored phone number is all digits, has min(10, number of digits typed) characters, and is a prefix of the typed digits |
| Masks.SplitDots | src/components/AirFryerForm.tsx:83 | `s.split(".")` always has at least one piece; SplitJoinRoundTrip and SplitDotsDotFree together fix it as the split |
| Masks.Concat | src/components/AirFryerForm.tsx:85 | definition, no contract: `parts.join("")`; its meaning for the split pieces is SplitConcat |
| Masks.SplitJoinRoundTrip | src/components/AirFryerForm.tsx:83 | joining the pieces of `split(".")` with "." gives back the string |
| Masks.SplitConcat | src/components/AirFryerForm.tsx:85 | joining the pieces with "" is the string with every dot removed |
| Masks.SplitAtFirstDot | src/components/AirFryerForm.tsx:83 | the first piece is the text before the first dot, and the remaining pieces are the split of the text after it |
| Masks.SplitDotsDotFree | src/components/AirFryerForm.tsx:83 | no piece of `split(".")` contains a dot |
| Masks.CostMask | src/components/AirFryerForm.tsx:79-91 | definition, no contract: the handler's own steps (filter, split, fold the pieces after the first dot, cut `parts[1]` to two); its meaning is CostMaskSpec, CostMaskShape, CostMaskTruncates and CostMaskKeepsAfterEmptySegment |
| Masks.CostMaskSpec | src/components/AirFryerForm.tsx:79-91 | the handler's split-and-join cost mask equals the reference: the kept text up to its first dot, then '.' and the fraction kept from the rest |
| Masks.CostMaskShape | src/components/AirFryerForm.tsx:79-91 | the stored cost has only digits and '.'; it has at most one '.'; its integer part is the kept input up to its first dot and is all digits; it has a dot exactly when the kept input does |
| Masks.CostMaskTruncates | src/components/AirFryerForm.tsx:88-90 | when `parts[1]` is non-empty, the stored cost has a dot followed by a prefix of `parts[1]` of at most two characters |
| Masks.CostMaskKeepsAfterEmptySegment | src/components/AirFryerForm.tsx:84-90 | when `parts[1]` is empty, nothing is truncated: every non-dot character after the first dot is kept |
| Masks.CostMaskEmptySegmentExample | src/components/AirFryerForm.tsx:79-91 | `1..345` is stored as `1.345` |
| Masks.CostMaskNotIdempotent | src/components/AirFryerForm.tsx:79-91 | masking the stored `1.345` again changes it, so the cost mask is not idempotent |
| Masks.FormatSpidrPin | src/components/AirFryerForm.tsx:107-120 | definition, no contract: the four length cases of `formatSpidrPin`; its meaning is PinLayout, PinShape, PinDigits and PinIdempotent |
| Masks.PinLayout | src/components/AirFryerForm.tsx:107-120 | the formatted PIN has `n + (n - 1) / 4` characters for n kept digits; it has a '-' at every fifth position and the typed digits, in order, everywhere else |
| Masks.PinCharacters | src/components/AirFryerForm.tsx:112-119 | the formatted PIN has at most 19 characters; it has '-' exactly at the positions among 4, 9 and 14 that it has, and digits everywhere else |
| Masks.PinEnd | src/components/AirFryerForm.tsx:112-119 | the formatted PIN never ends with '-' |
| Masks.PinShape | src/components/AirFryerForm.tsx:107-120 | at most 19 characters, hyphens only at 4, 9 and 14, digits elsewhere, no trailing hyphen |
| Masks.PinDigits | src/components/AirFryerForm.tsx:107-120 | removing the hyphens (or keeping the digits) of the formatted PIN gives the first min(16, number of digits) typed digits |
| Masks.PinIdempotent | src/components/AirFryerForm.tsx:107-120 | formatting an already formatted PIN changes nothing |
| Validation.FormData.With | src/components/AirFryerForm.tsx:93-96 | `{...prev, [name]: v}` sets the named field to v and leaves the other five as they were |
| Validation.StripPhoneSeparators | src/components/AirFryerForm.tsx:41 | definition, no contract: `replace(/[\s\-()]/g, "")`; it leaves a string of digits unchanged, which the proof of PhoneMaskValid uses |
| Validation.PhonePattern | src/components/AirFryerForm.tsx:40 | definition, no contract: `/^[+]?[1-9][\d]{0,15}$/` as a predicate; tied to the mask by PhoneMaskValid and PhonePatternExceedsMask |
| Validation.EmailPattern | src/components/AirFryerForm.tsx:49 | definition, no contract: `/^[^\s@]+@[^\s@]+\.[^\s@]+$/` decided at the first '@'; proved equal to the literal reading by EmailPatternIsRegex |
| Validation.CostPattern | src/components/AirFryerForm.tsx:55 | definition, no contract: `/^\$?\d+(\.\d{2})?$/` as a predicate; tied to the mask by CostPatternDigitsDot and CostMaskValid |
| Validation.PinPattern | src/components/AirFryerForm.tsx:61 | definition, no contract: `/^\d{4}-\d{4}-\d{4}-\d{4}$/` as a predicate; tied to the PIN formatter by PinFormatValid |
| Validation.EmailPatternSound | src/components/AirFryerForm.tsx:49 | every string the first-'@' check accepts matches the email regular expression |
| Validation.EmailPatternComplete | src/components/AirFryerForm.tsx:49 | every string matching the email regular expression passes the first-'@' check |
| Validation.EmailPatternIsRegex | src/components/AirFryerForm.tsx:49 | the first-'@' check and the regular expression accept the same strings |
| Validation.RequiredMessage | src/components/AirFryerForm.tsx:29-60 | definition, no contract: the six "… is required" strings, one per field; FieldError states when it is recorded |
| Validation.InvalidMessage | src/components/AirFryerForm.tsx:44-62 | definition, no contract: the four "Please enter …" strings of lines 44, 50, 56 and 62; it gives "" for the two names, a value never recorded because WellFormed holds for every name (FieldError's third ensures only applies where WellFormed fails) |
| Validation.WellFormed | src/components/AirFryerForm.tsx:39-62 | definition, no contract: which format check each field gets, none for the names; FieldError states that a non-blank value has no error exactly when it holds |
| Validation.FieldError | src/components/AirFryerForm.tsx:29-63 | a field has no error exactly when its value is not blank and passes its format check; a blank value gets the field's "required" message; a non-blank value that fails its format check gets the field's "Please enter …" message |
| Validation.Check | src/components/AirFryerForm.tsx:29-63 | definition, no contract: one `if` block of `validateForm`, recording the field's FieldError when it has one; its meaning is CheckRecords |
| Validation.CheckRecords | src/components/AirFryerForm.tsx:29-63 | a check records its own field's error in a map without it, and leaves every other field's presence and entry as they were |
| Validation.Validate | src/components/AirFryerForm.tsx:26-66 | definition, no contract: the six checks in the order of the form, starting from `{}`; its meaning is ValidateSpec |
| Validation.ValidateSpec | src/components/AirFryerForm.tsx:26-66 | the error map has an entry exactly for each field that has an error, and that entry is the field's message |
| Validation.ValidateRecords | src/components/AirFryerForm.tsx:26-66 | each field's entry in the error map is its own error, whatever the other checks record |
| Validation.ValidIffNoFieldError | src/components/AirFryerForm.tsx:65-66 | the error map is empty exactly when no field has an error |
| Validation.EmptyFormErrors | src/components/AirFryerForm.tsx:26-63 | submitting the empty form gives the six "required" messages and nothing else |
| Validation.ErrorIsLocal | src/components/AirFryerForm.tsx:26-63 | a field's entry in the error map depends only on that field's value |
| Validation.ChangeIsLocal | src/components/AirFryerForm.tsx:26-63 | changing one field leaves every other field's entry in the error map as it was |
| Validation.PhoneMaskValid | src/components/AirFryerForm.tsx:37-45 | a stored phone number passes the phone check exactly when it is non-empty and does not start with '0' |
| Validation.PhonePatternExceedsMask | src/components/AirFryerForm.tsx:40 | the phone check accepts an 11-digit number that the ten-digit phone mask can never store |
| Validation.CostPatternDigitsDot | src/components/AirFryerForm.tsx:55 | on a string of digits and at most one '.', the cost check passes exactly when a digit precedes the dot and the dot, if present, is followed by exactly two characters |
| Validation.CostMaskValid | src/components/AirFryerForm.tsx:53-57 | a stored cost guess passes the cost check exactly when it has a digit before its dot and either no dot or exactly two digits after it |
| Validation.PinFormatValid | src/components/AirFryerForm.tsx:59-63 | a stored PIN passes the PIN check exactly when the typed value had at least 16 digits |
| Validation.ValidateSingleError | src/components/AirFryerForm.tsx:26-66 | when exactly one field has an error, the error map holds that one message |
| Validation.OnlyBadEmailReported | src/components/AirFryerForm.tsx:26-66 | every form whose other five fields have no error and whose email is `not-an-email` reports only "Please enter a valid email address" |
| Validation.ExampleFilledForm | src/components/AirFryerForm.tsx:26-66 | the filling "Ada", "Lovelace", "5551234567", "299.99", "1234-5678-9012-3456" is valid in every field but the email `not-an-email`, so only the email message is reported |
| FormState.ClearError | src/components/AirFryerForm.tsx:98-104 | clearing keeps the same keys; the field's message is no longer shown; every other entry is unchanged |
| FormState.ValidateConsistent | src/components/AirFryerForm.tsx:65 | right after validation, every message shown is the error of the value under it |
| FormState.ChangeKeepsConsistent | src/components/AirFryerForm.tsx:93-104 | after a keystroke, every message shown is still the error of the value under it |
| FormState.MaskInput | src/components/AirFryerForm.tsx:70-91 | the value to store is the phone mask for the phone number, the cost mask for the cost guess, and the typed value for every other field |
| FormState.CheckField | src/components/AirFryerForm.tsx:29-63 | one block of `validateForm` records the field's message when it has one and touches no other field |
| FormState.AirFryerForm.constructor | src/components/AirFryerForm.tsx:15-24 | the form starts with six empty values and no messages |
| FormState.AirFryerForm.ValidateForm | src/components/AirFryerForm.tsx:26-67 | the error map becomes the form's error map, and the result is true exactly when no field has an error |
| FormState.AirFryerForm.HandleInputChange | src/components/AirFryerForm.tsx:69-105 | only the named field changes; it gets the phone mask, the cost mask or the raw value; only that field's shown message is cleared |
| FormState.AirFryerForm.HandleSpidrPinChange | src/components/AirFryerForm.tsx:122-137 | only the PIN changes, to the formatted value; only the PIN's shown message is cleared |
| FormState.AirFryerForm.HandleSubmit | src/components/AirFryerForm.tsx:139-146 | the form submits exactly when validation finds no error, and the messages become the form's error map |

## Left out

- `src/components/NetworkBg.tsx` is not part of this model. It is a decorative canvas
  animation built on floating-point motion, random seeding and frame scheduling.
- JSX rendering and CSS classes are left out. So are the input attributes: `type`,
  `maxLength`, `minLength`, `pattern`, and the `onKeyDown` handlers that suppress `e`,
  `E`, `+` and `-`. They are browser behaviour that limits what reaches the handlers.
  The model lets the handlers receive any string.
- `console.log`, `alert` and `preventDefault` in `handleSubmit` are I/O. The model
  returns whether the form was submitted instead.
- React's asynchronous, batched state setters are modelled as immediate, atomic
  updates of the fields.
- Whitespace (`\s` and `trim`) is restricted to the ASCII whitespace characters plus
  no-break space and the byte-order mark. Other Unicode spaces are not modelled.
- The regular-expression engine is not modelled. Each pattern is written out as a
  predicate over characters.
- FormState.AirFryerForm.HandleInputChange: the source accepts any input `name`. The
  model takes one of the six field names, the only names the form's inputs carry.
