/** The contact form on the details step: a name of at least two characters,
    a well-formed email address, and an optional phone number with no rule. */
module ContactForm {
  import opened Types

  /** What the form submits. The phone field may be left out. */
  datatype FormValues = FormValues(name: string, email: string, phone: Option<string>)

  /** The field-level errors the form can show. */
  datatype FieldError = NameTooShort | InvalidEmail

  const MinNameLength := 2

  /** The message shown under the offending field. */
  function Message(e: FieldError): string {
    match e
    case NameTooShort => "Name must be at least 2 characters."
    case InvalidEmail => "Please enter a valid email address."
  }

  /** The length the validation library measures: UTF-16 code units, so a
      character outside the Basic Multilingual Plane counts twice. */
  function Utf16Length(s: string): (n: nat)
    ensures |s| <= n <= 2 * |s|
    ensures n == |s| <==> forall i :: 0 <= i < |s| ==> s[i] as int <= 0xFFFF
  {
    if s == [] then 0
    else (if s[0] as int > 0xFFFF then 2 else 1) + Utf16Length(s[1..])
  }

  /** Checks every field and reports all failures, name first. The email rule
      belongs to the validation library and is passed in as `validEmail`. */
  function Validate(v: FormValues, validEmail: string -> bool): (r: Result<FormValues, seq<FieldError>>)
    ensures r.Ok? <==> Utf16Length(v.name) >= MinNameLength && validEmail(v.email)
    ensures r.Ok? ==> r.value == v
    ensures r.Err? ==> r.error != []
    ensures r.Err? ==> (NameTooShort in r.error <==> Utf16Length(v.name) < MinNameLength)
    ensures r.Err? ==> (InvalidEmail in r.error <==> !validEmail(v.email))
  {
    var errors := (if Utf16Length(v.name) < MinNameLength then [NameTooShort] else [])
                + (if validEmail(v.email) then [] else [InvalidEmail]);
    if errors == [] then Ok(v) else Err(errors)
  }

  /** The messages a submission shows, one per failing field, name first. */
  function Messages(v: FormValues, validEmail: string -> bool): (m: seq<string>)
    ensures m == [] <==> Validate(v, validEmail).Ok?
    ensures Message(NameTooShort) in m <==> Utf16Length(v.name) < MinNameLength
    ensures Message(InvalidEmail) in m <==> !validEmail(v.email)
    ensures |m| <= 2
  {
    match Validate(v, validEmail)
    case Ok(_) => []
    case Err(errors) =>
      var m := seq(|errors|, i requires 0 <= i < |errors| => Message(errors[i]));
      assert Message(NameTooShort) != Message(InvalidEmail);
      assert errors == [NameTooShort] || errors == [InvalidEmail] || errors == [NameTooShort, InvalidEmail];
      assert |m| == |errors| && forall i :: 0 <= i < |m| ==> m[i] == Message(errors[i]);
      m
  }

  /** The phone number never decides the outcome. */
  lemma PhoneIsFree(v: FormValues, phone: Option<string>, validEmail: string -> bool)
    ensures Validate(v.(phone := phone), validEmail).Ok? == Validate(v, validEmail).Ok?
  {
  }

  /** A two-character name is the shortest accepted; one character is refused
      with the name error alone when the email is fine. */
  lemma NameBoundary(email: string, validEmail: string -> bool)
    requires validEmail(email)
    ensures Validate(FormValues("Jo", email, None), validEmail).Ok?
    ensures Validate(FormValues("J", email, None), validEmail) == Err([NameTooShort])
  {
    assert [NameTooShort] + [] == [NameTooShort];
  }

  /** A name made of one character outside the Basic Multilingual Plane, such
      as an emoji, already has the two code units the rule asks for. */
  lemma AstralNameAccepted(email: string, validEmail: string -> bool)
    requires validEmail(email)
    ensures Validate(FormValues("\U{1F600}", email, None), validEmail).Ok?
    ensures |"\U{1F600}"| < MinNameLength
  {
    assert Utf16Length("\U{1F600}") == 2;
  }
}
