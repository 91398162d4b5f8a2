/** The contact form's validator: four fields are checked in a fixed order,
    each contributing at most one message to an error list, and a failed
    validation is reported in one error banner listing the messages. */
module ContactForm {
  import opened Wrappers
  import opened JsText
  import opened Email
  import opened Notifications

  /** The values of the four form fields, as read from the inputs. */
  datatype ContactData = ContactData(name: string, email: string, subject: string, message: string)

  /** The messages the validators push, one constructor per message. */
  datatype FieldError =
    | NameRequired | NameTooShort
    | EmailRequired | EmailInvalid
    | SubjectRequired
    | MessageRequired | MessageTooShort

  /** The text of each message, as shown to the visitor. */
  function Text(e: FieldError): string {
    match e
    case NameRequired => "Name is required"
    case NameTooShort => "Name must be at least 2 characters"
    case EmailRequired => "Email is required"
    case EmailInvalid => "Please enter a valid email address"
    case SubjectRequired => "Subject is required"
    case MessageRequired => "Message is required"
    case MessageTooShort => "Message must be at least 10 characters"
  }

  /** The texts of a list of messages, in order: the `errors` array. */
  function Texts(errors: seq<FieldError>): (r: seq<string>)
    ensures |r| == |errors|
    ensures forall k :: 0 <= k < |errors| ==> r[k] == Text(errors[k])
  {
    if errors == [] then [] else [Text(errors[0])] + Texts(errors[1..])
  }

  const ErrorHeader := "Please fix the following errors:\n"

  /** The messages each field may contribute. */
  function NameErrors(name: string): seq<FieldError> {
    if IsBlank(name) then [NameRequired] else []
  }

  /** The format test runs on the untrimmed value, the blankness test on the
      trimmed one. */
  function EmailErrors(email: string): seq<FieldError> {
    if IsBlank(email) then [EmailRequired]
    else if !MatchesEmailRegex(email) then [EmailInvalid]
    else []
  }

  function SubjectErrors(subject: string): seq<FieldError> {
    if IsBlank(subject) then [SubjectRequired] else []
  }

  function MessageErrors(message: string): seq<FieldError> {
    if IsBlank(message) then [MessageRequired] else []
  }

  /** The error list the validator builds: the fields' messages in the order
      name, email, subject, message. */
  function FieldErrors(data: ContactData): seq<FieldError> {
    NameErrors(data.name) + EmailErrors(data.email) +
    SubjectErrors(data.subject) + MessageErrors(data.message)
  }

  /** The text of the banner for a failed validation. */
  function ErrorText(errors: seq<FieldError>): string {
    ErrorHeader + Join(Texts(errors), "\n")
  }

  /** `validateContactForm(data)`: collects the error messages and, when there
      is any, shows one error banner; the banner is returned as `shown`
      rather than drawn. */
  method ValidateContactForm(data: ContactData) returns (valid: bool, errors: seq<FieldError>, shown: Option<Notice>)
    ensures errors == FieldErrors(data)
    ensures valid <==> errors == []
    ensures valid ==> shown == None
    ensures !valid ==> shown == Some(Notice(ErrorText(errors), "error"))
  {
    errors := [];
    if IsBlank(data.name) {
      errors := errors + [NameRequired];
    }
    assert errors == NameErrors(data.name);
    ghost var before := errors;
    if IsBlank(data.email) {
      errors := errors + [EmailRequired];
    } else if !MatchesEmailRegex(data.email) {
      errors := errors + [EmailInvalid];
    }
    assert errors == before + EmailErrors(data.email);
    before := errors;
    if IsBlank(data.subject) {
      errors := errors + [SubjectRequired];
    }
    assert errors == before + SubjectErrors(data.subject);
    before := errors;
    if IsBlank(data.message) {
      errors := errors + [MessageRequired];
    }
    assert errors == before + MessageErrors(data.message);
    if |errors| > 0 {
      shown := Some(Notice(ErrorText(errors), "error"));
      return false, errors, shown;
    }
    return true, errors, None;
  }

  /** The field a message belongs to, by its position in the form. */
  function FieldOf(e: FieldError): nat {
    match e
    case NameRequired | NameTooShort => 0
    case EmailRequired | EmailInvalid => 1
    case SubjectRequired => 2
    case MessageRequired | MessageTooShort => 3
  }

  /** At most one message, and every message is about field `k`. */
  predicate AboutField(errors: seq<FieldError>, k: nat) {
    |errors| <= 1 && forall x :: x in errors ==> FieldOf(x) == k
  }

  /** Four lists about the fields in turn, concatenated, are strictly ordered
      by field. */
  lemma ConcatInFieldOrder(n: seq<FieldError>, e: seq<FieldError>, s: seq<FieldError>, m: seq<FieldError>)
    requires AboutField(n, 0) && AboutField(e, 1) && AboutField(s, 2) && AboutField(m, 3)
    ensures var errors := n + e + s + m;
      |errors| <= 4 &&
      (forall i :: 0 <= i < |errors| ==> FieldOf(errors[i]) < 4) &&
      (forall i, j :: 0 <= i < j < |errors| ==> FieldOf(errors[i]) < FieldOf(errors[j]))
  {
    var errors := n + e + s + m;
    forall i | 0 <= i < |errors|
      ensures FieldOf(errors[i]) == (if i < |n| then 0 else if i < |n| + |e| then 1
                                     else if i < |n| + |e| + |s| then 2 else 3)
    {
      if i < |n| {
        assert errors[i] == n[i];
      } else if i < |n| + |e| {
        assert errors[i] == e[i - |n|];
      } else if i < |n| + |e| + |s| {
        assert errors[i] == s[i - |n| - |e|];
      } else {
        assert errors[i] == m[i - |n| - |e| - |s|];
      }
    }
  }

  /** The messages follow the field order strictly, so each field contributes
      at most one and there are at most four. */
  lemma ErrorsInFieldOrder(data: ContactData)
    ensures var errors := FieldErrors(data);
      |errors| <= 4 &&
      (forall i :: 0 <= i < |errors| ==> FieldOf(errors[i]) < 4) &&
      (forall i, j :: 0 <= i < j < |errors| ==> FieldOf(errors[i]) < FieldOf(errors[j]))
  {
    ConcatInFieldOrder(NameErrors(data.name), EmailErrors(data.email),
      SubjectErrors(data.subject), MessageErrors(data.message));
  }

  /** Membership in the error list, field by field. */
  lemma InFieldErrors(data: ContactData, x: FieldError)
    ensures x in FieldErrors(data) <==>
      x in NameErrors(data.name) || x in EmailErrors(data.email) ||
      x in SubjectErrors(data.subject) || x in MessageErrors(data.message)
  {
  }

  /** Which messages appear, stated on the raw field values. A field counts as
      missing exactly when it is empty or all whitespace; a missing email never
      also gets the format message; and the length messages of the stricter
      validator never appear. */
  lemma ErrorsCharacterized(data: ContactData)
    ensures var errors := FieldErrors(data);
      (NameRequired in errors <==> AllWhitespace(data.name)) &&
      (EmailRequired in errors <==> AllWhitespace(data.email)) &&
      (EmailInvalid in errors <==> !AllWhitespace(data.email) && !IsWellShapedEmail(data.email)) &&
      (SubjectRequired in errors <==> AllWhitespace(data.subject)) &&
      (MessageRequired in errors <==> AllWhitespace(data.message)) &&
      !(EmailRequired in errors && EmailInvalid in errors) &&
      NameTooShort !in errors && MessageTooShort !in errors
  {
    BlankIffAllWhitespace(data.name);
    BlankIffAllWhitespace(data.email);
    BlankIffAllWhitespace(data.subject);
    BlankIffAllWhitespace(data.message);
    RegexIffWellShaped(data.email);
    InFieldErrors(data, NameRequired);
    InFieldErrors(data, EmailRequired);
    InFieldErrors(data, EmailInvalid);
    InFieldErrors(data, SubjectRequired);
    InFieldErrors(data, MessageRequired);
    InFieldErrors(data, NameTooShort);
    InFieldErrors(data, MessageTooShort);
  }

  /** A well-shaped address is never blank, so the form passes exactly when
      name, subject and message have a visible character and the email is
      well shaped. */
  lemma ValidIff(data: ContactData)
    ensures FieldErrors(data) == [] <==>
      !AllWhitespace(data.name) && IsWellShapedEmail(data.email) &&
      !AllWhitespace(data.subject) && !AllWhitespace(data.message)
  {
    ErrorsCharacterized(data);
    if IsWellShapedEmail(data.email) {
      var at :| 0 <= at < |data.email| && IsSoleAt(data.email, at);
      assert !IsWhitespace(data.email[at]);
    }
    var errors := FieldErrors(data);
    if errors != [] {
      assert errors[0] in errors;
    }
  }

  /** An email with whitespace at either end is not blank-checked away: it is
      reported as badly formatted, because the regex sees the untrimmed
      value. */
  lemma PaddedEmailIsInvalid(data: ContactData)
    requires !AllWhitespace(data.email)
    requires IsWhitespace(data.email[0]) || IsWhitespace(data.email[|data.email| - 1])
    ensures EmailInvalid in FieldErrors(data)
    ensures EmailRequired !in FieldErrors(data)
  {
    ErrorsCharacterized(data);
    RegexIffWellShaped(data.email);
    if IsWhitespace(data.email[0]) {
      RegexRejectsWhitespace(data.email, 0);
    } else {
      RegexRejectsWhitespace(data.email, |data.email| - 1);
    }
  }

  /** Every message is a single non-empty line. */
  lemma TextIsOneLine(e: FieldError)
    ensures Text(e) != [] && '\n' !in Text(e)
  {
    match e
    case NameRequired => assert '\n' !in "Name is required";
    case NameTooShort => assert '\n' !in "Name must be at least 2 characters";
    case EmailRequired => assert '\n' !in "Email is required";
    case EmailInvalid => assert '\n' !in "Please enter a valid email address";
    case SubjectRequired => assert '\n' !in "Subject is required";
    case MessageRequired => assert '\n' !in "Message is required";
    case MessageTooShort => assert '\n' !in "Message must be at least 10 characters";
  }

  /** The banner of a failed validation is the header followed by the messages,
      one per line: splitting what follows the header at line breaks gives the
      messages back, in order. */
  lemma ErrorTextListsErrors(errors: seq<FieldError>)
    requires errors != []
    ensures var text := ErrorText(errors);
      |text| > |ErrorHeader| && text[..|ErrorHeader|] == ErrorHeader &&
      Split(text[|ErrorHeader|..], '\n') == Texts(errors)
  {
    var texts := Texts(errors);
    forall k | 0 <= k < |texts| ensures '\n' !in texts[k] {
      TextIsOneLine(errors[k]);
    }
    SplitJoin(texts, '\n');
    var text := ErrorText(errors);
    assert text[|ErrorHeader|..] == Join(texts, "\n");
    TextIsOneLine(errors[0]);
    assert |Join(texts, "\n")| >= |texts[0]|;
  }

  /** The stricter validator (the earlier definition that the live one
      shadows): names need two UTF-16 code units and messages ten, after
      trimming. */
  function StrictFieldErrors(data: ContactData): seq<FieldError> {
    (if IsBlank(data.name) then [NameRequired]
     else if Utf16Length(Trim(data.name)) < 2 then [NameTooShort] else []) +
    EmailErrors(data.email) +
    SubjectErrors(data.subject) +
    (if IsBlank(data.message) then [MessageRequired]
     else if Utf16Length(Trim(data.message)) < 10 then [MessageTooShort] else [])
  }

  /** The strict validator rejects everything the live one rejects, with the
      same message, and adds exactly the two length messages, each only for a
      field that is not blank; so passing it implies passing the live one. */
  lemma StrictIsStricter(data: ContactData)
    ensures forall e :: e in FieldErrors(data) ==> e in StrictFieldErrors(data)
    ensures forall e :: e in StrictFieldErrors(data) && e != NameTooShort && e != MessageTooShort ==>
      e in FieldErrors(data)
    ensures NameTooShort in StrictFieldErrors(data) <==>
      !IsBlank(data.name) && Utf16Length(Trim(data.name)) < 2
    ensures MessageTooShort in StrictFieldErrors(data) <==>
      !IsBlank(data.message) && Utf16Length(Trim(data.message)) < 10
    ensures StrictFieldErrors(data) == [] ==> FieldErrors(data) == []
    ensures |StrictFieldErrors(data)| == |FieldErrors(data)| +
      (if !IsBlank(data.name) && Utf16Length(Trim(data.name)) < 2 then 1 else 0) +
      (if !IsBlank(data.message) && Utf16Length(Trim(data.message)) < 10 then 1 else 0)
  {
  }

  /** A name of one character beyond the Basic Multilingual Plane is two
      UTF-16 code units long, so the strict validator does not call it too
      short. */
  lemma AstralNameIsLongEnough(data: ContactData)
    requires data.name == "\U{1F600}"
    ensures NameTooShort !in StrictFieldErrors(data)
  {
    var name := data.name;
    assert !IsWhitespace(name[0]);
    assert TrimStart(name) == name;
    assert TrimEnd(name) == name;
    assert Utf16Length(name) == 2;
    StrictIsStricter(data);
  }
}
