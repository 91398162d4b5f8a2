# Contact form, navigation and mobile menu of an academic profile site — a Dafny model

`script.js` is the only script of a static academic profile site. Most of it
is glue code that draws and animates page elements. This project models
the parts of it that hold real logic:

- **Contact-form validator** (`validateContactForm`). It checks the four
  fields name, email, subject and message in that order. Blankness is judged
  after `trim()`. The email shape is tested with the regular expression
  `^[^\s@]+@[^\s@]+\.[^\s@]+$` on the untrimmed value. Each field adds at most
  one message to an error list. If the list is not empty, one `'error'` banner
  shows the header `Please fix the following errors:` and the messages, one
  per line.
- **Form submission** (the submit handler of `initContactForm`, and
  `handleFormSubmission`). A valid form produces a `mailto:` link to the
  site's owner. The link has a `subject` and a `body` header field, in the
  sense of section 2 of RFC 6068. It also produces a `'success'` banner.
- **Notification banners** (`showNotification`, `removeNotification`). A
  banner hides itself after 8000 ms if its type is `'error'` and after
  5000 ms otherwise. The live definition appends a banner without removing
  the older ones. Removing a node that is already gone does nothing.
- **Active navigation** (`setActiveNavigation`). The current page is the last
  `/`-separated segment of the path, or `index.html` when that segment is
  empty. Exactly the links whose `href` equals the current page get the
  `active` class.
- **Mobile menu** (the handlers of `initMobileMenu`). Three flags are tracked:
  the toggle's `active` class, the navigation list's `mobile-active` class and
  the body's `overflow: hidden`. Five handlers change them: toggle click, link
  click, document click, resize and key down.

Several functions in `script.js` are declared twice, first as an "enhanced"
version and then as a simpler one. In a classic script the later top-level
declaration wins, so the model follows the second copies
(script.js:577-788). The earlier, stricter validator (script.js:145-181) is
modelled as a variant and compared with the live one.

Modules, one per component: `JsText` (the JavaScript string built-ins the code
relies on), `Email`, `ContactForm`, `Submission`, `Notifications`,
`Navigation`, `MobileMenu`, and `Wrappers` (an `Option` type).

Modelling choices:

- A `char` is a Unicode scalar value, whereas a JavaScript string is a
  sequence of UTF-16 code units. A character beyond U+FFFF is one `char` but
  two JavaScript units. Where the code measures `length`, the model uses
  `Utf16Length`, which counts UTF-16 code units. `trim` and the regular
  expression's `[^\s@]` give the same answer under either reading, because
  every whitespace character lies below U+FFFF.
- `IsWhitespace` is the ECMAScript WhiteSpace and LineTerminator set, which
  is what both `trim` and `\s` use.
- `encodeURIComponent` is a parameter `enc: string -> string`. The model never
  looks inside it. The round-trip lemma assumes only that its results use the
  characters `encodeURIComponent` can emit.
- The validator's messages are the constructors of `FieldError`. `Text` gives
  each one's exact wording, and `Texts` gives the string array the code joins.
- `showNotification` is not drawn. The validator and the submit handler
  return the `Notice` they would show. `NotificationArea` models the set of
  banners attached to the page.
- A DOM node's identity is a number (`Banner.id`), and a link is a `NavLink`
  object.
- A click target is abstracted to two facts: whether it lies inside the
  toggle, and whether it lies inside the navigation list.

## Model

| member | source | states |
|---|---|---|
| `ContactForm.ValidateContactForm` | script.js:601-633 | The error list is the name, email, subject and message messages in that order. The result is true exactly when the list is empty. A banner is shown only on failure. It is an `'error'` banner whose text is the header followed by the messages joined with line breaks. |
| `ContactForm.ErrorsInFieldOrder` | script.js:604-625 | The messages are strictly ordered by field (name < email < subject < message). So each field contributes at most one message and there are at most four. |
| `ContactForm.ConcatInFieldOrder` | script.js:604-625 | Appending, in turn, one list of at most one message for each of the four fields gives a list strictly ordered by field. |
| `ContactForm.ErrorsCharacterized` | script.js:604-625 | "Name/Email/Subject/Message is required" appears exactly when that field is empty or all whitespace. The format message appears exactly when the email is not blank and not well shaped. The two email messages never appear together, and the strict validator's length messages never appear. |
| `ContactForm.InFieldErrors` | script.js:604-625 | A message is in the error list exactly when some field contributed it. |
| `ContactForm.ValidIff` | script.js:601-633 | The form passes exactly when name, subject and message each have a visible character and the email is well shaped. A separate blankness test of the email is not needed for this. |
| `ContactForm.PaddedEmailIsInvalid` | script.js:611-614 | A non-blank email with whitespace at its start or end gets the format message and not the "required" message, because the regex sees the untrimmed value. |
| `ContactForm.TextIsOneLine` | script.js:606-624 | Every message text is non-empty and has no line break. |
| `ContactForm.ErrorTextListsErrors` | script.js:627-628 | The banner text starts with the header. Splitting the rest at line breaks gives back the message texts, in order. |
| `ContactForm.Texts` | script.js:628 | The string array has one entry per message, in order, and each entry is that message's text. |
| `ContactForm.StrictIsStricter` | script.js:145-181 | The stricter validator reports every message the live one reports. Every other message it reports is "Name must be at least 2 characters" or "Message must be at least 10 characters". The first appears exactly when the name is not blank and its trimmed `length` in UTF-16 units is under 2. The second appears exactly when the message is not blank and its trimmed length is under 10. The number of messages grows by the number of these two that appear. So passing the strict validator implies passing the live one. |
| `ContactForm.AstralNameIsLongEnough` | script.js:151 | A name made of one emoji (U+1F600) is two UTF-16 units long, so the strict validator does not call it too short. |
| `ContactForm.FieldErrors` | script.js:601-625 | Models the error list the validator builds: the name, email, subject and message contributions, concatenated in that order. `ErrorsCharacterized`, `ErrorsInFieldOrder` and `ValidIff` state what it contains. |
| `ContactForm.NameErrors` | script.js:604-607 | Models the name check: "Name is required" when the trimmed name is empty. `ErrorsCharacterized` restates it on the raw value. |
| `ContactForm.EmailErrors` | script.js:609-615 | Models the email check: "Email is required" when the trimmed email is empty, otherwise the format message when the regex rejects the untrimmed value. `ErrorsCharacterized` and `PaddedEmailIsInvalid` state its cases. |
| `ContactForm.SubjectErrors` | script.js:617-620 | Models the subject check. `ErrorsCharacterized` states it. |
| `ContactForm.MessageErrors` | script.js:622-625 | Models the message check. `ErrorsCharacterized` states it. |
| `ContactForm.Text` | script.js:606-624 | Models, word for word, the five messages of the live validator and the two length messages of the strict one (script.js:152 and its message counterpart). `TextIsOneLine` states that each is one non-empty line. |
| `ContactForm.ErrorText` | script.js:627-628 | Models the banner text: the header, then the messages joined with `\n`. `ErrorTextListsErrors` states how it reads back. |
| `ContactForm.StrictFieldErrors` | script.js:145-181 | Models the stricter validator, with lengths in UTF-16 units. `StrictIsStricter` relates it to the live one. |
| `Email.MatchesEmailRegex` | script.js:610 | Models the anchored regex `^[^\s@]+@[^\s@]+\.[^\s@]+$` as the existence of a split into its five parts. `RegexIffWellShaped` states what it accepts. |
| `JsText.IsWhitespace` | script.js:605 | Models the characters `trim` strips and `\s` matches: the ECMAScript WhiteSpace and LineTerminator sets, listed in full. |
| `JsText.Trim` | script.js:605 | Models `String.prototype.trim`. `TrimStartRemovesPrefix` and `TrimEndRemovesSuffix` state what it removes. |
| `JsText.IsBlank` | script.js:605 | Models `!s.trim()`. `BlankIffAllWhitespace` states when it holds. |
| `JsText.Join` | script.js:628 | Models `Array.prototype.join`. `JoinSplit` and `SplitJoin` state that it inverts `Split`. |
| `JsText.Utf16Length` | script.js:151 | Models `length`, counted in UTF-16 code units. It is at least the number of characters and at most twice that. |
| `JsText.Utf16LengthInBmp` | script.js:151 | For text below U+FFFF, the length in UTF-16 units equals the number of characters. |
| `Navigation.CurrentPage` | script.js:73 | Models `pathname.split('/').pop() \|\| 'index.html'`. The page is never empty and never contains `/`. `CurrentPageIsLastSegment` characterizes it fully. |
| `Navigation.IsActiveLink` | script.js:79-81 | Models the three-way test as written. `SpecialCasesAddNothing` reduces it to equality with the current page. |
| `Submission.BodyText` | script.js:647-652 | Models the template literal of the email body. `BodyTextFrames` states how it starts and ends. |
| `Submission.MailtoLink` | script.js:646-654 | Models the link the handler builds. `MailtoLinkRoundTrip` states how it splits back. |
| `MobileMenu.Step` | script.js:20-65 | Models each handler as a step on the three flags. `StepCases` states each event's effect, and `StepKeepsAgreement` states the flags stay in agreement. |
| `MobileMenu.Run` | script.js:13-68 | Models the handlers run on a sequence of events. `RunKeepsAgreement` and `RunSnoc` state its properties. |
| `MobileMenu.Menu.Close` | script.js:35-37 | Models the three closing statements the handlers share. It leaves the menu closed with overflow cleared. |
| `Email.RegexIffWellShaped` | script.js:610 | The regex accepts a string exactly when the string has no whitespace and exactly one `@`, the local part before the `@` is non-empty, and the domain has a `.` that is neither its first nor its last character. |
| `Email.RegexMatchIsWellShaped` | script.js:610 | Every match of the regex satisfies the structural reading. |
| `Email.WellShapedMatchesRegex` | script.js:610 | Every string satisfying the structural reading matches the regex. |
| `Email.RegexRejectsWhitespace` | script.js:610 | The regex rejects any string with a whitespace character anywhere in it. |
| `JsText.BlankIffAllWhitespace` | script.js:605 | `!s.trim()` holds exactly when every character of `s` is whitespace. So the empty string counts as blank. |
| `JsText.TrimStartRemovesPrefix` | script.js:605 | Trimming the start removes a prefix that is all whitespace. What remains is empty or starts with a non-whitespace character. |
| `JsText.TrimEndRemovesSuffix` | script.js:605 | Trimming the end removes a suffix that is all whitespace. What remains is empty or ends with a non-whitespace character. |
| `JsText.Split` | script.js:73 | `split` always returns at least one piece, and no piece contains the separator. |
| `JsText.JoinSplit` | script.js:73 | Joining the pieces of a split with the separator gives back the original string. |
| `JsText.SplitJoin` | script.js:628 | Splitting a `join` gives back the parts when no part contains the separator. |
| `JsText.SplitNoSeparator` | script.js:73 | A string without the separator splits into itself alone. |
| `JsText.SplitAfterFirst` | script.js:73 | Splitting `a + sep + b`, where `a` has no separator, gives `a` followed by the pieces of `b`. |
| `JsText.LastPieceIsSuffix` | script.js:73 | The last piece of a split is the whole string when there is no separator. Otherwise it is the suffix after the last separator. |
| `Navigation.CurrentPageIsLastSegment` | script.js:73 | The current page is never empty and contains no `/`. It is `index.html` when the path is empty or ends in `/`, and otherwise it is the path's last `/`-free suffix. |
| `Navigation.SpecialCasesAddNothing` | script.js:79-81 | The test with its two extra disjuncts is equivalent to "the href equals the current page". A link without an href is never active. |
| `Navigation.SetActiveNavigation` | script.js:71-85 | Afterwards each link is `active` exactly when its href equals the current page. Only the links' `active` flags may change. |
| `Submission.MailtoLinkRoundTrip` | script.js:646-654 | Split at the delimiters of section 2 of RFC 6068 (`?`, `&`, `=`), the link addresses `muthu.p@jainuniversity.ac.in`. It has exactly two header fields, `subject` = enc(subject) and `body` = enc(body text), provided `enc` returns URI-component characters. |
| `Submission.ParseSubjectAndBody` | script.js:654 | The query `subject=S&body=B` reads back as those two fields, in that order. |
| `Submission.ParseMailtoOf` | script.js:654 | `mailto:` + address + `?` + query reads back as that address and the query's fields. |
| `Submission.ParseFieldOf` | script.js:654 | A field `name=value` with no `=` in either part reads back as the pair. |
| `Submission.ParseTwoFields` | script.js:654 | Two well-formed header fields read back as the list of their two pairs. |
| `Submission.ParseFields` | script.js:654 | A successful parse of the header fields gives one pair per field. |
| `Submission.UriComponentHasNoDelimiter` | script.js:646-647 | Encoded values contain no `?`, `&` or `=`, so they cannot break the link's structure. |
| `Submission.BodyTextFrames` | script.js:647-652 | The body text starts with `Name: ` and the name, and ends with `\nMessage:\n` and the message. |
| `Submission.SubmitContactForm` | script.js:581-668 | A submission is sent exactly when the validator's list is empty. If sent, it yields the mailto link and the success banner. Otherwise it yields the validator's error banner. The banner's hide delay is 5000 ms when sent and 8000 ms when rejected. |
| `Notifications.HideDelay` | script.js:774 | The delay is 8000 ms for type `'error'` and 5000 ms for every other type. |
| `Notifications.Without` | script.js:781-787 | After removal, a banner remains exactly when it was attached and is not the removed node, and the number of banners does not grow. |
| `Notifications.WithoutAbsent` | script.js:784 | Removing a node that is not attached changes nothing (the `parentNode` guard). |
| `Notifications.WithoutRemovesTheNode` | script.js:781-787 | When the attached banners are distinct nodes, removing one of them takes out exactly that banner. The others keep their order. |
| `Notifications.RemoveTwiceIsRemoveOnce` | script.js:769-787 | Removal is idempotent. The close button and the auto-hide timer may both fire for the same banner, and the second removal has no effect. |
| `Notifications.WithoutKeepsDistinct` | script.js:781-787 | Removal keeps the attached banners distinct nodes. |
| `Notifications.NotificationArea.Show` | script.js:672-778 | A new banner, distinct from those already shown, is appended and none is removed. It carries the message, the type (default `'info'`) and `HideDelay(type)`. |
| `Notifications.NotificationArea.Remove` | script.js:781-788 | The deferred removal detaches the node if it is still attached and otherwise does nothing. |
| `MobileMenu.StepCases` | script.js:20-65 | The toggle flips both classes, and overflow is hidden exactly when the menu is then open. A link click, a click outside both elements, a resize to a width over 768, and Escape on an open menu each close it. Other keys, narrow resizes and clicks inside either element change nothing. Only the toggle opens the menu. |
| `MobileMenu.StepKeepsAgreement` | script.js:20-65 | Every handler keeps the three flags in agreement. |
| `MobileMenu.RunKeepsAgreement` | script.js:13-68 | If the flags start in agreement, they agree after any sequence of events. |
| `MobileMenu.RunSnoc` | script.js:13-68 | Running some events and then one more is that event's step applied to the state the first events reached. |
| `MobileMenu.BubblingClicks` | script.js:20-48 | A toggle click that bubbles to the document only toggles the menu. A link click that bubbles to the document closes it. |
| `MobileMenu.Menu.OnToggleClick` | script.js:20-30 | Both classes flip, overflow is hidden exactly when the menu is now open, and agreement is kept. |
| `MobileMenu.Menu.OnLinkClick` | script.js:33-39 | The menu is closed and overflow cleared, whatever the state was. |
| `MobileMenu.Menu.OnDocumentClick` | script.js:42-48 | A click outside both elements closes the menu. Any other click changes nothing. |
| `MobileMenu.Menu.OnResize` | script.js:51-57 | A width over 768 closes the menu. Any other width changes nothing. |
| `MobileMenu.Menu.OnKeyDown` | script.js:60-66 | Escape closes an open menu. Every other key, and Escape on a closed menu, changes nothing. |

## Left out

- Drawing: the banner's DOM element, its `innerHTML` template, the injected
  CSS and its `notification-<type>` class name (script.js:674-765). These are
  presentation only.
- Timing: the one-second delay before the link opens (script.js:644, 668),
  the 300 ms slide-out before removal (script.js:782-787), the arming of the
  auto-hide timer (script.js:775-777) and `debounce` (script.js:891-906). The
  model records the chosen delay and the effect of each deferred callback,
  not when they run.
- The submit button's loading state, the form reset and the navigation to
  the link (script.js:638-641, 657-660, 666-667). The model returns the link
  and does not follow it.
- `encodeURIComponent` itself, which is a parameter. `MailtoLinkRoundTrip`
  assumes only the character set of its output.
- Scroll animations, lazy images, scroll-to-top, smooth scrolling,
  `isElementInViewport`, the hover effects and anchor scrolling of
  `initNavigation`, sharing, clipboard and print, the page-load fade and the
  no-op listeners (script.js:88-117, 386-574, 791-958). These depend on
  window geometry, browser callbacks or foreign promise-based APIs.
- The dead "enhanced" copies at script.js:120-574, apart from the stricter
  validator. Their submission handler also uses `toLocaleString`, which is
  locale-defined.
- `MobileMenu.Menu`: the handlers are registered only when both the toggle
  and the navigation list exist (script.js:18). The model assumes both exist;
  without them nothing changes. Other classes on these elements are not
  modelled.
- `Navigation.SetActiveNavigation`: links are modelled by their `href` and
  their `active` flag only. The rest of each class list is not modelled.
- Strings holding a lone surrogate code unit cannot be written as Dafny
  strings, so they are outside the model. A form field may hold one, and
  `encodeURIComponent` then throws `URIError` (script.js:646-647), so no link
  is built and no success banner is shown. `SubmitContactForm` does not model
  that exception.
