# Storefront page scripts, modelled in Dafny

This project models the client-side script of a web storefront. The script lives in
`static/js/main.js`. The modelled parts are:

- the inline form validator, `validateField`, and the two helpers that show and remove its
  feedback node;
- the `blur`, `input` and `submit` listeners that `initForms` installs;
- the user dropdown, which opens and closes;
- `showLoading`, `hideLoading` and the loading state of submit buttons;
- the confirmation on the links that remove an item from the cart.

The page is treated as plain data:

- A form control is a `Field`: its value, its `required` attribute and its `type`.
- A form is its fields in document order.
- Each field carries two marker classes, `is-valid` and `is-invalid`, held as `Marks`.
- Each field points to its parent element. A parent's children are a sequence of `Node`s, and some
  of them may be `.invalid-feedback` nodes.

Modules:

- `Text`: the whitespace set that `String.prototype.trim` and the regular-expression class `\s`
  share (ECMAScript WhiteSpace and LineTerminator), and trimming. It also gives the UTF-16 length
  that JavaScript reports for a string.
- `EmailPattern`: the language of `/^[^\s@]+@[^\s@]+\.[^\s@]+$/` and a direct description of it.
  It also has a scan that the model's `Validation.Decide` runs in place of `emailRegex.test`,
  proved to accept exactly that language.
- `Validation`: the decision made inside `validateField`.
  - The code runs the three checks one after the other, and a later message overwrites an earlier
    one. The model does the same.
  - The three rules exclude one another, so this gives the same result as "the first failure wins".
- `Dom`: a parent's children, the query for the first feedback node, and removing and showing the
  feedback node. It also holds the markers and the query for the first field marked invalid.
- `Forms`: class `Form`, holding the fields, their markers, their parents and the parents'
  children.
  - Its methods are `validateField` with its two helpers, and the blur, input and submit listeners.
  - The submit listener is a loop over the required fields. It is proved against the functions
    `SubmitMarks` and `SubmitParents`, and lemmas state the result field by field.
- `Dropdown`: class `UserDropdown`, holding the `show` class of the panel.
- `Loading`: class `Button`, holding the `loading` class, `disabled` and the children.
- `Cart`: the click on a remove link.

Where a plain reading of the page's behaviour and the code differ, the model follows the code:

- One would read the rules as "the first failure wins". The code lets the last message win.
  `DecideIsFirstFailure` proves that the two agree.
- Submission is meant to move focus to "the first invalid field". The code focuses the
  first element of the form carrying `is-invalid`. That element may be a field that is not
  required and was refused earlier on blur.
  - `SubmitFocusMayBeOptional` gives such a case.
  - `SubmitFocusFirstRefused` states when the two readings coincide.
- An optional e-mail field is checked on blur only. The input listener does not validate. It
  only clears `is-invalid` and the feedback node.

## Model

| member | source | states |
|---|---|---|
| Text.TrimStart | static/js/main.js:174 | the leading half of `trim()`; its properties are stated by TrimStartSpec and TrimStartPadded |
| Text.TrimEnd | static/js/main.js:174 | the trailing half of `trim()`; its properties are stated by TrimEndSpec and TrimEndPadded |
| Text.Trim | static/js/main.js:174 | `String.prototype.trim`; its properties are stated by TrimSpec, TrimEmptyIff, TrimIdempotent and TrimPadded |
| Text.TrimStartSpec | static/js/main.js:174 | dropping leading whitespace keeps a suffix of the value, what is dropped is all whitespace, and the result does not start with whitespace |
| Text.TrimEndSpec | static/js/main.js:174 | dropping trailing whitespace keeps a prefix, what is dropped is all whitespace, and the result does not end with whitespace |
| Text.TrimSpec | static/js/main.js:174 | `trim()` returns a slice of the value with only whitespace on either side, and the slice neither starts nor ends with whitespace |
| Text.TrimEmptyIff | static/js/main.js:174 | a value trims to the empty string exactly when it is all whitespace |
| Text.TrimIdempotent | static/js/main.js:174 | trimming twice is trimming once |
| Text.TrimPadded | static/js/main.js:174 | trimming a whitespace-padded string that has no whitespace at its ends gives that string back |
| Text.TrimStartPadded | static/js/main.js:174 | dropping leading whitespace from whitespace + s, where s does not start with whitespace, gives s |
| Text.TrimEndPadded | static/js/main.js:174 | dropping trailing whitespace from s + whitespace, where s does not end with whitespace, gives s |
| Text.Utf16Length | static/js/main.js:198 | `value.length` counts UTF-16 code units: at least the number of characters and at most twice it, and exactly that number when every character is in the Basic Multilingual Plane |
| EmailPattern.MatchesEmailRegex | static/js/main.js:189 | the language of `/^[^\s@]+@[^\s@]+\.[^\s@]+$/`; EmailRegexIff states it directly, and EmailAccepted to EmailDotPlacementRefused give examples |
| EmailPattern.EmailTest | static/js/main.js:190 | the scan that stands in for `emailRegex.test(value)`; EmailTestIff and EmailTestMatchesRegex prove it equal to the pattern's language |
| EmailPattern.EmailRegexIff | static/js/main.js:189 | a string matches the e-mail pattern exactly when it has no whitespace and exactly one '@', not at the start, followed later by a dot that is neither right after the '@' nor last |
| EmailPattern.SegmentOf | static/js/main.js:189 | a non-empty slice free of whitespace and '@' matches the piece `[^\s@]+` |
| EmailPattern.FirstIndex | static/js/main.js:189-190 | a helper of the scan: the returned position holds the character, or is the length when it is absent, and no earlier position holds it |
| EmailPattern.LacksIff | static/js/main.js:189-190 | the recursive "no occurrence of c" test agrees with the quantified statement |
| EmailPattern.NoSpaceIff | static/js/main.js:189-190 | the recursive "no whitespace" test agrees with the quantified statement |
| EmailPattern.EmailTestIff | static/js/main.js:189-190 | the scan that stands in for `emailRegex.test(value)` accepts exactly the strings of the e-mail shape |
| EmailPattern.EmailTestMatchesRegex | static/js/main.js:189-190 | the scan accepts exactly the language of `/^[^\s@]+@[^\s@]+\.[^\s@]+$/` |
| EmailPattern.EmailAccepted | static/js/main.js:189 | "a@b.com" matches the pattern |
| EmailPattern.EmailWithDottedDomainAccepted | static/js/main.js:189 | "a@b.c.d" matches the pattern |
| EmailPattern.EmailWithoutDotRefused | static/js/main.js:189 | "a@b" does not match |
| EmailPattern.EmailDoubleAtRefused | static/js/main.js:189 | "a@@b.com" does not match |
| EmailPattern.EmailDotPlacementRefused | static/js/main.js:189 | "a@.com" and "a@b." do not match: their only dot is right after the '@' or last |
| EmailPattern.EmailLooseDotsAccepted | static/js/main.js:189 | "a@b..c", "a@.b.c" and "a@b.c." match: the pattern does not ask for non-empty domain labels |
| Validation.Fails | static/js/main.js:182-202 | whether one of the three rules fires on the trimmed value; AtMostOneRuleFires, RequiredBlankRefused, EmailRule and PasswordRule state what each rule means |
| Validation.Decide | static/js/main.js:174-202 | the decision is "valid" exactly when none of the three rules fires, and a refusal names a rule that fires |
| Validation.Validate | static/js/main.js:174-202 | `isValid` holds exactly when no rule fires; when it fails, the message is that of a rule that fires; when it holds, the message is empty |
| Validation.AtMostOneRuleFires | static/js/main.js:182-202 | the required, e-mail and password rules exclude one another |
| Validation.DecideIsFirstFailure | static/js/main.js:182-202 | the code's "last message wins" gives the same decision as "first failure wins" |
| Validation.ValidateIsFirstFailure | static/js/main.js:182-202 | the (isValid, message) pair is that of the first rule that fires, or (true, "") |
| Validation.RequiredBlankRefused | static/js/main.js:174-185 | a required field that is empty or whitespace-only is refused with "Este campo é obrigatório." |
| Validation.OptionalBlankAccepted | static/js/main.js:182-202 | a blank field that is not required is accepted whatever its type |
| Validation.EmailRule | static/js/main.js:188-194 | a non-blank e-mail field is accepted exactly when its trimmed value has the e-mail shape, and is otherwise refused with the e-mail message |
| Validation.PasswordRule | static/js/main.js:197-202 | a non-blank password field is accepted exactly when its trimmed value is at least 6 code units long, and is otherwise refused with the password message |
| Validation.FivePasswordCharsRefused | static/js/main.js:197-202 | a 5-character password is refused |
| Validation.SixPasswordCharsAccepted | static/js/main.js:197-202 | a 6-character password is accepted |
| Validation.PaddedPasswordRefused | static/js/main.js:174-202 | surrounding whitespace does not count towards the password length |
| Validation.PasswordExample | static/js/main.js:174-202 | a padded Basic Multilingual Plane password is refused exactly when its unpadded length is below 6, whether it is required or not |
| Validation.EmailWithoutDotField | static/js/main.js:188-194 | the field value "a@b" is refused with the e-mail message |
| Validation.EmailField | static/js/main.js:188-194 | "a@b.com" is accepted |
| Validation.EmailDottedDomainField | static/js/main.js:188-194 | "a@b.c.d" is accepted |
| Validation.EmailDoubleAtField | static/js/main.js:188-194 | "a@@b.com" is refused with the e-mail message |
| Validation.EmailExample | static/js/main.js:174-194 | an e-mail value with no whitespace at its ends is accepted exactly when it matches the pattern, and is otherwise refused with the e-mail message |
| Validation.Unpadded | static/js/main.js:174 | a value with no whitespace at its ends is its own trim |
| Dom.FirstFeedback | static/js/main.js:235 | `querySelector('.invalid-feedback')` finds the first feedback child in order, or none if there is none |
| Dom.RemoveFirstFeedback | static/js/main.js:234-239 | with no feedback node the children are unchanged; otherwise exactly the first feedback node is cut out |
| Dom.CountAppend | static/js/main.js:231 | feedback counts and the other children add up over concatenation |
| Dom.NoFeedbackIff | static/js/main.js:235-236 | the query finds nothing exactly when there are no feedback nodes |
| Dom.RemoveFirstFeedbackCounts | static/js/main.js:234-239 | removing takes away one feedback node when there is one, and keeps every other child in order |
| Dom.ShowFeedback | static/js/main.js:218-232 | remove-first, then append a feedback node; ShowFeedbackCounts and ShowFeedbackIdempotent state its effect |
| Dom.ShowFeedbackCounts | static/js/main.js:218-232 | after showing feedback, the last child is the new feedback node, the count goes from 0 to 1 or stays as it was, and other children are kept |
| Dom.RemoveFirstFeedbackIdempotent | static/js/main.js:234-239 | with at most one feedback node, removing twice is removing once, and none is left |
| Dom.ShowFeedbackIdempotent | static/js/main.js:218-232 | with at most one feedback node, showing the same message twice is showing it once |
| Dom.FirstInvalid | static/js/main.js:163 | `form.querySelector('.is-invalid')` finds the first field in document order marked invalid, or none if there is none |
| Dom.MarksAfter | static/js/main.js:205-213 | exactly one of the two markers is set, and `is-invalid` is set exactly when the field was refused |
| Dom.ChildrenAfter | static/js/main.js:204-213 | the parent's children after validateField; ChildrenAfterCount, ChildrenAfterShape and ChildrenAfterIdempotent state its effect |
| Dom.ChildrenAfterCount | static/js/main.js:204-213 | starting from at most one feedback node, validation leaves none on acceptance and exactly one on refusal, and keeps every other child |
| Dom.ChildrenAfterShape | static/js/main.js:204-213 | on refusal the last child is the feedback node holding the failed rule |
| Dom.ChildrenAfterIdempotent | static/js/main.js:204-239 | with at most one feedback node, applying the same decision twice leaves the children as applying it once, and still at most one feedback node |
| Forms.Form.constructor | static/js/main.js:129-131 | the form starts out holding the given fields, markers, parents and children |
| Forms.Form.RemoveFieldFeedback | static/js/main.js:234-239 | only the field's parent changes, and it loses its first feedback node |
| Forms.Form.ShowFieldFeedback | static/js/main.js:218-232 | only the field's parent changes: remove-first, then append a feedback node for the reason |
| Forms.Form.ValidateField | static/js/main.js:173-216 | the return value is the field's decision; only the field's markers (set by MarksAfter) and its parent's children (set by ChildrenAfter) change |
| Forms.Form.OnBlur | static/js/main.js:133-135 | blur runs validateField on the field, and a consistent form stays consistent |
| Forms.Form.OnInput | static/js/main.js:137-144 | the new value is stored, `is-invalid` is cleared, `is-valid` is untouched, the first feedback node is removed, and nothing is re-validated |
| Forms.Form.OnSubmit | static/js/main.js:150-168 | submission is cancelled exactly when some required field is refused; the markers and children are those of the full loop; focus goes to the first field marked invalid, and there is one whenever submission is cancelled |
| Forms.Form.ValidateRequiredFields | static/js/main.js:151-158 | every required field is validated in document order with no early exit, and `isValid` ends as RequiredValid over all fields |
| Forms.UpdateKeepsConsistent | static/js/main.js:204-213 | replacing one field's markers and its unshared parent's children by a pair that agree keeps the form consistent |
| Forms.ValidateFieldKeepsConsistent | static/js/main.js:204-213 | validateField keeps the agreement between `is-invalid` and exactly one feedback node |
| Forms.InputKeepsConsistent | static/js/main.js:137-144 | the input listener keeps that agreement |
| Forms.Form.ValidateFieldTwice | static/js/main.js:204-239 | validateField called twice on an unchanged field, from at most one feedback node: both calls return the same value, the form ends as one call leaves it, and the parent holds at most one feedback node |
| Forms.Decisions | static/js/main.js:154-155 | there is one decision per field |
| Forms.RequiredValidIff | static/js/main.js:152-158 | after k fields, `isValid` holds exactly when every required field among them was accepted |
| Forms.SubmitMarks | static/js/main.js:154-158 | the loop keeps one marker pair per field |
| Forms.SubmitMarksAt | static/js/main.js:154-158 | after k fields, each required field among them carries its own decision's markers, and every other field keeps its markers |
| Forms.SubmitParents | static/js/main.js:154-158 | the loop keeps the set of parents |
| Forms.SubmitParentsUntouched | static/js/main.js:154-158 | a parent that holds no required field among the first k keeps its children |
| Forms.SubmitParentsAt | static/js/main.js:154-158 | with unshared parents, each required field's parent holds what that field's validation left, and other parents are untouched |
| Forms.SubmitValidOutcome | static/js/main.js:152-160 | after the whole loop, `isValid` holds exactly when every required field was accepted |
| Forms.SubmitMarksOutcome | static/js/main.js:154-158 | after the whole loop, each required field carries its own decision's markers, and the others keep theirs |
| Forms.SubmitFocusOutcome | static/js/main.js:160-166 | if a required field was refused, the query for `.is-invalid` finds a field to focus |
| Forms.SubmitFocusFirstRefused | static/js/main.js:160-166 | if no optional field was marked invalid beforehand, focus goes to the first refused required field, and none when none was refused |
| Forms.SubmitFocusMayBeOptional | static/js/main.js:160-166 | an optional field marked invalid earlier on blur takes the focus ahead of the required field that cancelled submission |
| Forms.SubmitParentsOutcome | static/js/main.js:154-158 | after the whole loop, a parent holding no required field keeps its children |
| Forms.SubmitSeparateOutcome | static/js/main.js:154-158 | after the whole loop, with unshared parents, each required field's parent holds what its validation left, and other parents are untouched |
| Forms.SubmitKeepsConsistent | static/js/main.js:150-168 | the submit listener keeps a consistent form consistent |
| Dropdown.AfterClick | static/js/main.js:26-36 | the `show` class after a click; ToggleTwice, CloseIdempotent, OthersUnchanged and OnlyButtonOpens state its behaviour |
| Dropdown.AfterKey | static/js/main.js:39-43 | the `show` class after a keydown; CloseIdempotent and OthersUnchanged state its behaviour |
| Dropdown.UserDropdown.constructor | static/js/main.js:18-25 | the dropdown starts with the given wiring and `show` state |
| Dropdown.UserDropdown.Click | static/js/main.js:26-36 | a click on the button toggles `show`, a click outside the container clears it, a click elsewhere inside leaves it, and an unwired dropdown never changes |
| Dropdown.UserDropdown.KeyDown | static/js/main.js:39-43 | Escape clears `show` and any other key leaves it |
| Dropdown.ToggleTwice | static/js/main.js:26-29 | two clicks on the button restore `show`, and one click flips it |
| Dropdown.CloseIdempotent | static/js/main.js:32-43 | an outside click or Escape leaves the panel closed, and repeating it changes nothing |
| Dropdown.OthersUnchanged | static/js/main.js:32-43 | a click inside the container but off the button, and a key other than Escape, leave `show` unchanged |
| Dropdown.OnlyButtonOpens | static/js/main.js:26-36 | only a click on the button opens the panel |
| Loading.Shown | static/js/main.js:242-245 | the state showLoading leaves; ShowHide states it |
| Loading.Hidden | static/js/main.js:247-250 | the state hideLoading leaves; ShowHide and SpinnersAccumulate state it |
| Loading.Clicked | static/js/main.js:114-124 | the state the submit button's click listener leaves; ClickEffect and SpinnersAccumulate state it |
| Loading.SpinnerCountAppend | static/js/main.js:120-122 | appending a child adds one to the spinner count exactly when the child is a spinner |
| Loading.Button.constructor | static/js/main.js:112-113 | the button starts in the given state |
| Loading.Button.ShowLoading | static/js/main.js:242-245 | the `loading` class is set and the button is disabled; its children are untouched |
| Loading.Button.HideLoading | static/js/main.js:247-250 | the `loading` class is cleared and the button is enabled; its children are untouched |
| Loading.Button.OnClick | static/js/main.js:114-124 | when the form is valid, the button becomes loading and disabled and gains a spinner; otherwise nothing changes |
| Loading.ShowHide | static/js/main.js:242-250 | showing twice is showing once, hiding after showing gives an enabled button that is not loading, and only those two flags change |
| Loading.ClickEffect | static/js/main.js:114-124 | a click with an invalid form changes nothing; with a valid one the button is loading and disabled, its old children stay in front, and one spinner is appended last |
| Loading.SpinnersAccumulate | static/js/main.js:114-124 | hideLoading does not remove the spinner, so click, hide and click leaves two more spinners |
| Cart.Contains | static/js/main.js:102 | the selector `[href*="remover_do_carrinho"]` as a substring test; RemoveLinkExample and OtherLinkExample state it |
| Cart.OnLinkClick | static/js/main.js:102-108 | the dialog is shown exactly for links whose href contains "remover_do_carrinho", and navigation is cancelled exactly when it was shown and declined |
| Cart.RemoveLinkExample | static/js/main.js:102 | the marker counts wherever it appears in the href: with any text before and after it, the user is asked |
| Cart.OtherLinkExample | static/js/main.js:102 | "/carrinho" does not carry the marker |

## Left out

- initMessages, which adds close buttons and auto-dismisses success alerts, is not modelled. It is
  timers and animation (`setTimeout`, `slideOut`).
- showNotification is not modelled. It is timers and animation.
- Inline styles, the hover opacity handlers and the injected `<style>` block are not modelled
  because they are cosmetic. For the same reason, only the reason of a feedback node is modelled,
  not its styling. Its text is `Validation.Message(reason)`.
- The `DOMContentLoaded` wiring and the real DOM queries are not modelled.
  - The fields of a `Form` are the form's elements that are `.form-control`s or carry
    `required`, in document order. The submit listener validates every field with `required`,
    whatever its class. The focus query also looks at every field, not only `.form-control`s.
  - `[required]` is the field's `required` flag.
  - Forms.Form.OnBlur and Forms.Form.OnInput can be called on any field. The page attaches the
    blur and input listeners only to `.form-control`s, so on a page a required element of
    another class (a `select`, say) is only ever validated on submit.
  - A remove link is one whose href contains the marker.
- `parentNode.querySelector('.invalid-feedback')` searches all descendants of the parent. The model
  searches only the parent's direct children: a feedback node nested deeper is not seen.
- Event propagation is not modelled. `stopPropagation` on the dropdown button appears only as
  "the document listener does not react to a click on the button" (`Target.OnButton`).
- `focus()` is not modelled as an effect. OnSubmit returns the position it would focus.
- `confirm()` is a boolean parameter of `Cart.OnLinkClick`, and the dialog's text is not
  modelled.
- `form.checkValidity()` is a boolean parameter of `Loading.Button.OnClick`.
- `userDropdown.contains(e.target)` is folded into the `Target` of the click.
- The regular expression is not run by a regex engine. `EmailPattern.EmailTest` is a hand-written
  scan, and `EmailPattern.EmailTestMatchesRegex` proves it equal to the pattern's language.
- Strings are sequences of Unicode scalar values, so a lone surrogate in a field value cannot be
  represented. `Text.Utf16Length` counts two units for a character outside the Basic
  Multilingual Plane, as `length` does.
- The per-field consistency (`Forms.ConsistentState`: at most one marker, and exactly one feedback
  node exactly when `is-invalid` is set) is only claimed when no two fields share a parent
  (`Forms.Separate`). With a shared parent, one field's feedback node can be removed by another
  field's validation.
- Forms.Form.OnSubmit: its ensures states the new markers and children through `SubmitMarks` and
  `SubmitParents`.
  - The field-by-field reading is in `SubmitMarksOutcome`, `SubmitParentsOutcome` and
    `SubmitSeparateOutcome`.
  - focus, the "first invalid field", is in `SubmitFocusFirstRefused`.
- The browser does not deliver clicks to a disabled button, and the `.loading` rule sets
  `pointer-events: none`. Neither is modelled: `Loading.Button.OnClick` describes the listener
  itself.
- Dropdown.UserDropdown: a page without the container, the button or the panel is modelled by the
  `wired` flag. An unwired dropdown never reacts.
