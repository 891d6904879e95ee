/** The contact form on the home page: per-field validation, editing a
    field, and what a send attempt does to the form. Sending itself is a
    parameter (the mail service's reply). */
module ContactForm {
  import opened Core
  import opened Text

  datatype Field = Name | Phone | Email | Message

  datatype FormData = FormData(name: string, phone: string, email: string, message: string)

  /** One optional message per field; `None` is an absent key. */
  datatype FormErrors = FormErrors(name: Option<string>, phone: Option<string>, email: Option<string>, message: Option<string>)

  datatype Status = Success | Failure

  /** The form's state: values, errors, and the banner of the last send. */
  datatype Contact = Contact(form: FormData, errors: FormErrors, status: Option<Status>)

  /** What the mail service did: answered with an HTTP status, or threw. */
  datatype SendReply = Responded(code: int) | Threw

  const EmptyForm: FormData := FormData([], [], [], [])
  const NoErrors: FormErrors := FormErrors(None, None, None, None)

  function Value(f: FormData, field: Field): (v: string)
  {
    match field
    case Name => f.name
    case Phone => f.phone
    case Email => f.email
    case Message => f.message
  }

  function ErrorOf(e: FormErrors, field: Field): (err: Option<string>)
  {
    match field
    case Name => e.name
    case Phone => e.phone
    case Email => e.email
    case Message => e.message
  }

  // ------------------------------------------------------- email pattern

  predicate NoSpaceOrAt(s: string)
  {
    forall k :: 0 <= k < |s| ==> !IsSpace(s[k]) && s[k] != '@'
  }

  /** `s` splits as `L @ A . B` at positions `i` and `j`, with `L`, `A` and
      `B` non-empty and free of whitespace and `@`. */
  predicate PatternSplit(s: string, i: int, j: int)
  {
    && 0 < i && i + 1 < j && j + 1 < |s|
    && s[i] == '@' && s[j] == '.'
    && NoSpaceOrAt(s[..i]) && NoSpaceOrAt(s[i + 1..j]) && NoSpaceOrAt(s[j + 1..])
  }

  /** `/^[^\s@]+@[^\s@]+\.[^\s@]+$/.test(s)`. */
  predicate EmailPattern(s: string)
  {
    exists i, j | 0 < i < |s| && 0 < j < |s| :: PatternSplit(s, i, j)
  }

  /** First position of `c` in `s`, or -1. */
  function IndexOf(s: string, c: char): (r: int)
    ensures -1 <= r < |s|
    ensures r == -1 <==> c !in s
    ensures r >= 0 ==> s[r] == c && c !in s[..r]
  {
    if |s| == 0 then -1
    else if s[0] == c then 0
    else
      var r := IndexOf(s[1..], c);
      if r == -1 then -1
      else
        assert s[..r + 1] == [s[0]] + s[1..][..r];
        r + 1
  }

  /** A dot with at least one character on each side. */
  predicate HasInnerDot(d: string)
  {
    exists j | 0 < j < |d| - 1 :: d[j] == '.'
  }

  /** The pattern in plain words: no whitespace, exactly one `@`, something
      before it, and after it a dot with something on each side. */
  predicate EmailShape(s: string)
  {
    && NoSpace(s)
    && Count(s, '@') == 1
    && var a := IndexOf(s, '@');
       a > 0 && HasInnerDot(s[a + 1..])
  }

  lemma NoSpaceOrAtParts(s: string, i: nat, j: nat)
    requires i <= j <= |s|
    requires NoSpaceOrAt(s[i..j])
    ensures forall k :: i <= k < j ==> !IsSpace(s[k]) && s[k] != '@'
  {
    forall k | i <= k < j
      ensures !IsSpace(s[k]) && s[k] != '@'
    {
      assert s[i..j][k - i] == s[k];
    }
  }

  lemma PatternHasNoSpace(s: string, i: int, j: int)
    requires PatternSplit(s, i, j)
    ensures NoSpace(s)
  {
    NoSpaceOrAtParts(s, 0, i);
    NoSpaceOrAtParts(s, i + 1, j);
    NoSpaceOrAtParts(s, j + 1, |s|);
    assert s[..i] == s[0..i];
    assert s[j + 1..] == s[j + 1..|s|];
    forall k | 0 <= k < |s|
      ensures !IsSpace(s[k])
    {
      if k != i && k != j {
        assert !IsSpace(s[k]);
      }
    }
  }

  lemma PatternHasOneAt(s: string, i: int, j: int)
    requires PatternSplit(s, i, j)
    ensures Count(s, '@') == 1 && IndexOf(s, '@') == i
  {
    var front := s[..i];
    var back := s[i + 1..];
    NoSpaceOrAtParts(s, i + 1, j);
    NoSpaceOrAtParts(s, j + 1, |s|);
    assert s[j + 1..] == s[j + 1..|s|];
    assert '@' !in back by {
      forall k | 0 <= k < |back|
        ensures back[k] != '@'
      {
        assert back[k] == s[i + 1 + k];
      }
    }
    assert '@' !in front;
    assert s == front + [s[i]] + back;
    CountConcat(front + [s[i]], back, '@');
    CountConcat(front, [s[i]], '@');
  }

  lemma PatternGivesShape(s: string, i: int, j: int)
    requires PatternSplit(s, i, j)
    ensures EmailShape(s)
  {
    PatternHasNoSpace(s, i, j);
    PatternHasOneAt(s, i, j);
    assert s[i + 1..][j - i - 1] == '.';
  }

  lemma ShapeGivesPattern(s: string)
    requires EmailShape(s)
    ensures EmailPattern(s)
  {
    var i := IndexOf(s, '@');
    var d := s[i + 1..];
    var jd :| 0 < jd < |d| - 1 && d[jd] == '.';
    var j := i + 1 + jd;
    assert s[j] == '.';
    assert s == s[..i] + [s[i]] + d;
    CountConcat(s[..i] + [s[i]], d, '@');
    CountConcat(s[..i], [s[i]], '@');
    assert Count(d, '@') == 0;
    assert forall k :: i < k < |s| ==> s[k] != '@' by {
      forall k | i < k < |s|
        ensures s[k] != '@'
      {
        assert d[k - i - 1] in d;
      }
    }
    assert forall k :: 0 <= k < i ==> s[k] != '@' by {
      forall k | 0 <= k < i
        ensures s[k] != '@'
      {
        assert s[..i][k] in s[..i];
      }
    }
    assert PatternSplit(s, i, j);
  }

  /** The regular expression accepts exactly the strings of `EmailShape`. */
  lemma EmailPatternIff(s: string)
    ensures EmailPattern(s) <==> EmailShape(s)
  {
    if EmailPattern(s) {
      var i, j :| 0 < i < |s| && 0 < j < |s| && PatternSplit(s, i, j);
      PatternGivesShape(s, i, j);
    }
    if EmailShape(s) {
      ShapeGivesPattern(s);
    }
  }

  // ---------------------------------------------------------- validation

  /** The error of a required field: present exactly when the trimmed
      value is empty, that is when the value is all whitespace. */
  function RequiredError(value: string, message: string): (r: Option<string>)
    ensures r.Some? <==> AllSpace(value)
    ensures r.Some? ==> r.value == message
  {
    TrimEmptyIffAllSpace(value);
    if Trim(value) == [] then Some(message) else None
  }

  /** The email's error: required on the trimmed value, then the pattern on
      the raw value. */
  function EmailError(email: string): (r: Option<string>)
    ensures AllSpace(email) ==> r == Some("Email is required")
    ensures !AllSpace(email) ==> (r.Some? <==> !EmailShape(email))
    ensures !AllSpace(email) && r.Some? ==> r == Some("Email is invalid")
  {
    TrimEmptyIffAllSpace(email);
    EmailPatternIff(email);
    if Trim(email) == [] then Some("Email is required")
    else if !EmailPattern(email) then Some("Email is invalid")
    else None
  }

  /** `validateForm`: the new error map and whether it is empty. */
  function Validate(form: FormData): (r: (FormErrors, bool))
    ensures r.1 <==> r.0 == NoErrors
    ensures r.0.name.Some? <==> AllSpace(form.name)
    ensures r.0.phone.Some? <==> AllSpace(form.phone)
    ensures r.0.message.Some? <==> AllSpace(form.message)
    ensures AllSpace(form.email) ==> r.0.email == Some("Email is required")
    ensures !AllSpace(form.email) ==>
              && (r.0.email.Some? <==> !EmailShape(form.email))
              && (r.0.email.Some? ==> r.0.email == Some("Email is invalid"))
  {
    var errors := FormErrors(
      RequiredError(form.name, "Name is required"),
      RequiredError(form.phone, "Phone number is required"),
      EmailError(form.email),
      RequiredError(form.message, "Message is required"));
    (errors, errors.name.None? && errors.phone.None? && errors.email.None? && errors.message.None?)
  }

  /** An email with a leading blank passes the required check (the trimmed
      value is not empty) but fails the pattern, which sees the blank. */
  lemma LeadingBlankEmailIsInvalid(name: string, phone: string, message: string)
    ensures Validate(FormData(name, phone, " a@b.co", message)).0.email == Some("Email is invalid")
  {
    var s := " a@b.co";
    assert s[1] == 'a' && !IsSpace('a');
    assert IsSpace(s[0]);
  }

  /** A plain address passes. */
  lemma PlainEmailIsValid(name: string, phone: string, message: string)
    ensures Validate(FormData(name, phone, "a@b.co", message)).0.email.None?
  {
    var s := "a@b.co";
    assert !AllSpace(s) by {
      assert s[0] == 'a' && !IsSpace('a');
    }
    assert NoSpaceOrAt(s[..1]) by {
      assert s[..1] == "a" && !IsSpace('a');
    }
    assert NoSpaceOrAt(s[2..3]) by {
      assert s[2..3] == "b" && !IsSpace('b');
    }
    assert NoSpaceOrAt(s[4..]) by {
      assert s[4..] == "co" && !IsSpace('c') && !IsSpace('o');
    }
    assert PatternSplit(s, 1, 3);
    EmailPatternIff(s);
    assert EmailShape(s);
  }

  // -------------------------------------------------------------- events

  /** `handleChange`: the field takes the typed value and loses its error
      message; all other values and errors stay. */
  function HandleChange(c: Contact, field: Field, value: string): (r: Contact)
    ensures Value(r.form, field) == value
    ensures !Truthy(ErrorOf(r.errors, field))
    ensures forall g :: g != field ==> Value(r.form, g) == Value(c.form, g) && ErrorOf(r.errors, g) == ErrorOf(c.errors, g)
    ensures r.status == c.status
  {
    var form := match field
      case Name => c.form.(name := value)
      case Phone => c.form.(phone := value)
      case Email => c.form.(email := value)
      case Message => c.form.(message := value);
    var errors := if !Truthy(ErrorOf(c.errors, field)) then c.errors
      else match field
        case Name => c.errors.(name := None)
        case Phone => c.errors.(phone := None)
        case Email => c.errors.(email := None)
        case Message => c.errors.(message := None);
    Contact(form, errors, c.status)
  }

  /** `handleSubmit`: an invalid form only shows its errors (the previous
      banner stays); a valid one is sent, and a 200 reply shows success and
      clears the form while anything else shows an error and keeps it. */
  function HandleSubmit(c: Contact, reply: SendReply): (r: Contact)
    ensures !Validate(c.form).1 ==> r == c.(errors := Validate(c.form).0)
    ensures Validate(c.form).1 ==> r.errors == NoErrors
    ensures Validate(c.form).1 && reply == Responded(200) ==> r.status == Some(Success) && r.form == EmptyForm
    ensures Validate(c.form).1 && reply != Responded(200) ==> r.status == Some(Failure) && r.form == c.form
  {
    var (errors, ok) := Validate(c.form);
    if !ok then c.(errors := errors)
    else if reply == Responded(200) then Contact(EmptyForm, errors, Some(Success))
    else Contact(c.form, errors, Some(Failure))
  }

  /** After a reply of 200 the form fails validation until refilled: a valid
      form was sent and emptied, an invalid one was kept. So a second click
      cannot send the same message twice. */
  lemma SentFormIsBlank(c: Contact)
    ensures !Validate(HandleSubmit(c, Responded(200)).form).1
  {
  }
}
