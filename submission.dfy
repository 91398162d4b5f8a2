/** What a submission of the contact form produces: when the form validates,
    a `mailto:` link (section 2 of RFC 6068) whose `subject` and `body` header
    fields carry the form, and a success banner; otherwise the validator's
    error banner. `encodeURIComponent` is a parameter `enc` that the model
    does not look inside. */
module Submission {
  import opened Wrappers
  import opened JsText
  import opened Notifications
  import opened ContactForm

  const Recipient := "muthu.p@jainuniversity.ac.in"
  const SuccessMessage := "Thank you for your message! Your email client should now open with the pre-filled message."

  /** The plain-text body of the email. */
  function BodyText(data: ContactData): string {
    "Name: " + data.name + "\nEmail: " + data.email + "\nSubject: " + data.subject +
    "\n\nMessage:\n" + data.message
  }

  /** The link the page navigates to. */
  function MailtoLink(enc: string -> string, data: ContactData): string {
    "mailto:" + Recipient + "?subject=" + enc(data.subject) + "&body=" + enc(BodyText(data))
  }

  /** A character `encodeURIComponent` may emit: an unreserved mark or the `%`
      of an escape. */
  predicate IsUriComponentChar(c: char) {
    ('A' <= c <= 'Z') || ('a' <= c <= 'z') || ('0' <= c <= '9') ||
    c == '-' || c == '_' || c == '.' || c == '!' || c == '~' || c == '*' ||
    c == '\'' || c == '(' || c == ')' || c == '%'
  }

  /** A string `encodeURIComponent` may return. */
  predicate IsUriComponent(s: string) {
    forall i :: 0 <= i < |s| ==> IsUriComponentChar(s[i])
  }

  /** A `mailto:` URI split at the delimiters of section 2 of RFC 6068: the
      address part and the `name=value` header fields, in order. The `qchar`
      alphabet and the `addr-spec` grammar are not checked. */
  datatype MailtoUri = MailtoUri(to: string, fields: seq<(string, string)>)

  /** One `hfname "=" hfvalue`. */
  function ParseField(field: string): Option<(string, string)> {
    var kv := Split(field, '=');
    if |kv| == 2 then Some((kv[0], kv[1])) else None
  }

  /** The `&`-separated header fields, all of which must be well formed. */
  function ParseFields(fields: seq<string>): (r: Option<seq<(string, string)>>)
    ensures r.Some? ==> |r.value| == |fields|
  {
    if fields == [] then Some([])
    else
      var first, rest := ParseField(fields[0]), ParseFields(fields[1..]);
      if first.Some? && rest.Some? then Some([first.value] + rest.value) else None
  }

  /** `"mailto:" [ to ] [ "?" hfield *( "&" hfield ) ]` */
  function ParseMailto(uri: string): Option<MailtoUri> {
    if |uri| < 7 || uri[..7] != "mailto:" then None
    else
      var parts := Split(uri[7..], '?');
      if |parts| == 1 then Some(MailtoUri(parts[0], []))
      else if |parts| == 2 then
        match ParseFields(Split(parts[1], '&'))
        case Some(fields) => Some(MailtoUri(parts[0], fields))
        case None => None
      else None
  }

  /** What `encodeURIComponent` returns holds none of the delimiters of a
      `mailto:` URI. */
  lemma UriComponentHasNoDelimiter(s: string)
    requires IsUriComponent(s)
    ensures '?' !in s && '&' !in s && '=' !in s
  {
    forall i | 0 <= i < |s| ensures s[i] != '?' && s[i] != '&' && s[i] != '=' {
      assert IsUriComponentChar(s[i]);
    }
  }

  /** One header field `name=value` reads back as the pair. */
  lemma ParseFieldOf(name: string, value: string)
    requires '=' !in name && '=' !in value
    ensures ParseField(name + "=" + value) == Some((name, value))
  {
    SplitAfterFirst(name, value, '=');
    SplitNoSeparator(value, '=');
  }

  /** Two well-formed fields read back as the list of the two pairs. */
  lemma ParseTwoFields(a: string, b: string)
    requires ParseField(a).Some? && ParseField(b).Some?
    ensures ParseFields([a, b]) == Some([ParseField(a).value, ParseField(b).value])
  {
    var fa, fb := ParseField(a).value, ParseField(b).value;
    var single: seq<string> := [b];
    assert single[1..] == [];
    assert ParseFields(single[1..]) == Some([]);
    assert ParseFields(single) == Some([fb] + []);
    assert [fb] + [] == [fb];
    var fields := [a, b];
    assert fields[0] == a && fields[1..] == [b];
    assert ParseFields(fields) == Some([fa] + [fb]);
    assert [fa] + [fb] == [fa, fb];
  }

  /** The query `subject=S&body=B` reads back as the two fields. */
  lemma ParseSubjectAndBody(subject: string, body: string)
    requires '&' !in subject && '=' !in subject && '&' !in body && '=' !in body
    ensures ParseFields(Split("subject=" + subject + "&body=" + body, '&')) ==
      Some([("subject", subject), ("body", body)])
  {
    var subjectField, bodyField := "subject" + "=" + subject, "body" + "=" + body;
    assert '&' !in "subject" + "=" && '&' !in "body" + "=";
    assert '=' !in "subject" && '=' !in "body";
    assert "subject=" + subject + "&body=" + body == subjectField + "&" + bodyField;
    SplitAfterFirst(subjectField, bodyField, '&');
    SplitNoSeparator(bodyField, '&');
    ParseFieldOf("subject", subject);
    ParseFieldOf("body", body);
    ParseTwoFields(subjectField, bodyField);
  }

  /** `mailto:` followed by an address and a query reads back as the address
      and the query's fields. */
  lemma ParseMailtoOf(to: string, query: string)
    requires '?' !in to && '?' !in query
    ensures ParseMailto("mailto:" + to + "?" + query) ==
      match ParseFields(Split(query, '&'))
      case Some(fields) => Some(MailtoUri(to, fields))
      case None => None
  {
    var uri := "mailto:" + to + "?" + query;
    assert uri[..7] == "mailto:";
    assert uri[7..] == to + "?" + query;
    SplitAfterFirst(to, query, '?');
    SplitNoSeparator(query, '?');
  }

  /** Split at RFC 6068's delimiters, the link addresses the site's owner and carries
      exactly two header fields, `subject` and `body`, whose values are the
      encoded subject and the encoded body text, provided the encoder returns
      URI components. */
  lemma MailtoLinkRoundTrip(enc: string -> string, data: ContactData)
    requires IsUriComponent(enc(data.subject)) && IsUriComponent(enc(BodyText(data)))
    ensures ParseMailto(MailtoLink(enc, data)) ==
      Some(MailtoUri(Recipient, [("subject", enc(data.subject)), ("body", enc(BodyText(data)))]))
  {
    var subject, body := enc(data.subject), enc(BodyText(data));
    UriComponentHasNoDelimiter(subject);
    UriComponentHasNoDelimiter(body);
    var query := "subject=" + subject + "&body=" + body;
    assert MailtoLink(enc, data) == "mailto:" + Recipient + "?" + query;
    assert '?' !in Recipient;
    assert '?' !in "subject=" && '?' !in "&body=";
    assert '?' !in query;
    ParseSubjectAndBody(subject, body);
    ParseMailtoOf(Recipient, query);
  }

  /** The body text starts with the name line and ends with the message, the
      two form values a reader of the email needs first and last. */
  lemma BodyTextFrames(data: ContactData)
    ensures var body := BodyText(data);
      |body| >= |data.message| + 10 &&
      body[..6 + |data.name|] == "Name: " + data.name &&
      body[|body| - |data.message| - 10..] == "\nMessage:\n" + data.message
  {
    var body := BodyText(data);
    var head := "Name: " + data.name;
    var middle := "\nEmail: " + data.email + "\nSubject: " + data.subject + "\n";
    var tail := "\nMessage:\n" + data.message;
    assert body == head + middle + tail;
  }

  /** What submitting the form leads to. */
  datatype Outcome =
    | Rejected(banner: Notice)
    | Sent(link: string, banner: Notice)

  /** The submit handler: validate, and on success build the link and show the
      success banner. The one-second delay, the button's loading state and the
      form reset are not modelled. */
  method SubmitContactForm(enc: string -> string, data: ContactData) returns (outcome: Outcome)
    ensures outcome.Sent? <==> FieldErrors(data) == []
    ensures outcome.Sent? ==>
      outcome == Sent(MailtoLink(enc, data), Notice(SuccessMessage, "success"))
    ensures outcome.Rejected? ==>
      outcome.banner == Notice(ErrorText(FieldErrors(data)), "error")
    ensures HideDelay(outcome.banner.kind) == if outcome.Sent? then 5000 else 8000
  {
    var valid, errors, shown := ValidateContactForm(data);
    if valid {
      outcome := Sent(MailtoLink(enc, data), Notice(SuccessMessage, "success"));
    } else {
      outcome := Rejected(shown.value);
    }
  }
}
