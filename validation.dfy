/**
  The pure decision inside validateField: from a field's value, its `required`
  attribute and its `type`, whether the field is valid and which message to show.
*/
module Validation {
  import opened Wrappers
  import opened Text
  import opened EmailPattern

  /** What the validator reads of a form control. */
  datatype Field = Field(value: string, required: bool, inputType: string)

  /** The pair (isValid, message) the validator computes. */
  datatype Verdict = Verdict(isValid: bool, message: string)

  const RequiredMessage := "Este campo é obrigatório."
  const EmailMessage := "Por favor, insira um email válido."
  const PasswordMessage := "A senha deve ter pelo menos 6 caracteres."
  const MinPasswordLength := 6

  /** The three rules a value can break. */
  datatype Failure = RequiredEmpty | InvalidEmail | ShortPassword

  function Message(f: Failure): string {
    match f
    case RequiredEmpty => RequiredMessage
    case InvalidEmail => EmailMessage
    case ShortPassword => PasswordMessage
  }

  /** Whether rule `f` fires for `field`; every rule looks at the trimmed value. */
  predicate Fails(field: Field, f: Failure) {
    var t := Trim(field.value);
    match f
    case RequiredEmpty => field.required && t == []
    case InvalidEmail => field.inputType == "email" && t != [] && !EmailTest(t)
    case ShortPassword =>
      field.inputType == "password" && t != [] && Utf16Length(t) < MinPasswordLength
  }

  /** validateField's decision as the code computes it: the three checks run
      in turn on the trimmed value, and a later failure overwrites an earlier
      one. `None` is "valid". */
  function Decide(field: Field): (r: Option<Failure>)
    ensures r.None? <==>
      !Fails(field, RequiredEmpty) && !Fails(field, InvalidEmail) && !Fails(field, ShortPassword)
    ensures r.Some? ==> Fails(field, r.value)
  {
    var value := Trim(field.value);
    var r1 := if field.required && value == [] then Some(RequiredEmpty) else None;
    var r2 :=
      if field.inputType == "email" && value != [] && !EmailTest(value)
      then Some(InvalidEmail) else r1;
    var r3 :=
      if field.inputType == "password" && value != [] && Utf16Length(value) < MinPasswordLength
      then Some(ShortPassword) else r2;
    r3
  }

  /** The pair (isValid, message) validateField ends with: an empty message when
      the field is valid, otherwise the message of the failed rule. */
  function Validate(field: Field): (v: Verdict)
    ensures v.isValid <==>
      !Fails(field, RequiredEmpty) && !Fails(field, InvalidEmail) && !Fails(field, ShortPassword)
    ensures !v.isValid ==> exists f: Failure :: Fails(field, f) && v.message == Message(f)
    ensures v.isValid ==> v.message == ""
  {
    match Decide(field)
    case None => Verdict(true, "")
    case Some(f) => Verdict(false, Message(f))
  }

  /** The rules exclude one another: the required rule needs an empty value, the
      other two a non-empty one, and a field has a single type. */
  lemma AtMostOneRuleFires(field: Field, f: Failure, g: Failure)
    requires Fails(field, f) && Fails(field, g)
    ensures f == g
  {
  }

  /** The rule order read as "first failure wins". */
  function FirstFailure(field: Field): Option<Failure> {
    if Fails(field, RequiredEmpty) then Some(RequiredEmpty)
    else if Fails(field, InvalidEmail) then Some(InvalidEmail)
    else if Fails(field, ShortPassword) then Some(ShortPassword)
    else None
  }

  /** Because the rules exclude one another, the code's "last write wins" gives
      the same decision as "first failure wins". */
  lemma DecideIsFirstFailure(field: Field)
    ensures Decide(field) == FirstFailure(field)
  {
    var r := Decide(field);
    if r.Some? {
      forall g | Fails(field, g) ensures g == r.value { AtMostOneRuleFires(field, r.value, g); }
    }
  }

  lemma ValidateIsFirstFailure(field: Field)
    ensures Validate(field) == match FirstFailure(field)
                                case None => Verdict(true, "")
                                case Some(f) => Verdict(false, Message(f))
  {
    DecideIsFirstFailure(field);
  }

  /** A required field that is empty or only whitespace is refused with the
      required-field message. */
  lemma RequiredBlankRefused(field: Field)
    requires field.required && AllSpace(field.value)
    ensures Validate(field) == Verdict(false, RequiredMessage)
  {
    TrimEmptyIff(field.value);
    ValidateIsFirstFailure(field);
  }

  /** A blank field that is not required is accepted, whatever its type. */
  lemma OptionalBlankAccepted(field: Field)
    requires !field.required && AllSpace(field.value)
    ensures Validate(field) == Verdict(true, "")
  {
    TrimEmptyIff(field.value);
  }

  /** A non-blank e-mail field is accepted exactly when its trimmed value has the
      e-mail shape, and is otherwise refused with the e-mail message. */
  lemma EmailRule(field: Field)
    requires field.inputType == "email" && !AllSpace(field.value)
    ensures Validate(field).isValid <==> HasEmailShape(Trim(field.value))
    ensures !Validate(field).isValid ==> Validate(field).message == EmailMessage
  {
    TrimEmptyIff(field.value);
    EmailTestIff(Trim(field.value));
    ValidateIsFirstFailure(field);
  }

  /** A non-blank password field is accepted exactly when its trimmed value is at
      least six UTF-16 code units long, and is otherwise refused with the
      password message. */
  lemma PasswordRule(field: Field)
    requires field.inputType == "password" && !AllSpace(field.value)
    ensures Validate(field).isValid <==> Utf16Length(Trim(field.value)) >= MinPasswordLength
    ensures !Validate(field).isValid ==> Validate(field).message == PasswordMessage
  {
    TrimEmptyIff(field.value);
    ValidateIsFirstFailure(field);
  }

  /** The boundary: five characters are too few, six are enough, and
      surrounding whitespace is not counted. */
  lemma FivePasswordCharsRefused()
    ensures Validate(Field("12345", true, "password")) == Verdict(false, PasswordMessage)
  {
    PasswordExample("", "12345", "");
  }

  lemma SixPasswordCharsAccepted()
    ensures Validate(Field("123456", true, "password")) == Verdict(true, "")
  {
    PasswordExample("", "123456", "");
  }

  lemma PaddedPasswordRefused()
    ensures Validate(Field(" 12345\n", false, "password")) == Verdict(false, PasswordMessage)
  {
    assert " " + "12345" + "\n" == " 12345\n";
    assert AllSpace(" ") && AllSpace("\n");
    PasswordExample(" ", "12345", "\n");
  }

  lemma PasswordExample(pre: string, s: string, post: string)
    requires AllSpace(pre) && AllSpace(post) && s != []
    requires !IsSpace(s[0]) && !IsSpace(s[|s| - 1])
    requires forall k | 0 <= k < |s| :: s[k] as int < 0x1_0000
    ensures Validate(Field(pre + s + post, true, "password")) ==
            if |s| < 6 then Verdict(false, PasswordMessage) else Verdict(true, "")
    ensures Validate(Field(pre + s + post, false, "password")) ==
            if |s| < 6 then Verdict(false, PasswordMessage) else Verdict(true, "")
  {
    TrimPadded(pre, s, post);
    var short := |s| < 6;
    forall required: bool
      ensures Validate(Field(pre + s + post, required, "password")) ==
              if short then Verdict(false, PasswordMessage) else Verdict(true, "")
    {
      var field := Field(pre + s + post, required, "password");
      assert Trim(field.value) == s;
      assert Utf16Length(s) == |s|;
      assert !Fails(field, RequiredEmpty) && !Fails(field, InvalidEmail);
      assert Fails(field, ShortPassword) == short;
      ValidateIsFirstFailure(field);
    }
  }

  /** The e-mail examples, seen through the whole validator. */
  lemma EmailWithoutDotField()
    ensures Validate(Field("a@b", false, "email")) == Verdict(false, EmailMessage)
  {
    EmailWithoutDotRefused();
    EmailExample("a@b", false);
  }

  lemma EmailField()
    ensures Validate(Field("a@b.com", true, "email")) == Verdict(true, "")
  {
    EmailAccepted();
    EmailExample("a@b.com", true);
  }

  lemma EmailDottedDomainField()
    ensures Validate(Field("a@b.c.d", true, "email")) == Verdict(true, "")
  {
    EmailWithDottedDomainAccepted();
    EmailExample("a@b.c.d", true);
  }

  lemma EmailDoubleAtField()
    ensures Validate(Field("a@@b.com", true, "email")) == Verdict(false, EmailMessage)
  {
    EmailDoubleAtRefused();
    EmailExample("a@@b.com", true);
  }

  lemma EmailExample(s: string, required: bool)
    requires s != [] && !IsSpace(s[0]) && !IsSpace(s[|s| - 1])
    ensures Validate(Field(s, required, "email")) ==
            if MatchesEmailRegex(s) then Verdict(true, "") else Verdict(false, EmailMessage)
  {
    var field := Field(s, required, "email");
    Unpadded(s);
    assert !Fails(field, RequiredEmpty) && !Fails(field, ShortPassword);
    EmailTestMatchesRegex(s);
    assert Fails(field, InvalidEmail) == !MatchesEmailRegex(s);
    ValidateIsFirstFailure(field);
  }

  lemma Unpadded(s: string)
    requires s == [] || (!IsSpace(s[0]) && !IsSpace(s[|s| - 1]))
    ensures Trim(s) == s
  {
    TrimPadded("", s, "");
    assert "" + s + "" == s;
  }
}
