/** The email-shape test of the contact form: the regular expression
    `^[^\s@]+@[^\s@]+\.[^\s@]+$`, written as a predicate, and its structural
    reading. */
module Email {
  import opened JsText

  /** A character of the class `[^\s@]`. */
  predicate IsPlain(c: char) {
    !IsWhitespace(c) && c != '@'
  }

  /** Every character of `s` is in `[^\s@]`. */
  predicate AllPlain(s: string) {
    forall i :: 0 <= i < |s| ==> IsPlain(s[i])
  }

  /** `s` is a non-empty run of `[^\s@]`, an `@` at position `at`, a second
      non-empty run, a `.` at position `dot`, and a third non-empty run. */
  predicate IsRegexSplit(s: string, at: int, dot: int) {
    0 < at && at + 1 < dot < |s| - 1 &&
    s[at] == '@' && s[dot] == '.' &&
    AllPlain(s[..at]) && AllPlain(s[at + 1..dot]) && AllPlain(s[dot + 1..])
  }

  /** The anchored regular expression matches `s`: some choice of the `@` and
      the `.` splits `s` as the pattern demands. */
  predicate MatchesEmailRegex(s: string) {
    exists at, dot | 0 <= at < |s| && 0 <= dot < |s| :: IsRegexSplit(s, at, dot)
  }

  /** `domain[k]` is a `.` that is neither the first nor the last character. */
  predicate IsInnerDot(domain: string, k: int) {
    0 < k < |domain| - 1 && domain[k] == '.'
  }

  predicate HasInnerDot(domain: string) {
    exists k | 0 <= k < |domain| :: IsInnerDot(domain, k)
  }

  /** `s[at]` is the only `@` in `s`. */
  predicate IsSoleAt(s: string, at: int) {
    0 <= at < |s| && s[at] == '@' &&
    forall j | 0 <= j < |s| && j != at :: s[j] != '@'
  }

  /** The structural reading of an address: no whitespace anywhere, exactly one
      `@`, a non-empty local part before it, and an inner dot in the domain
      after it. */
  predicate IsWellShapedEmail(s: string) {
    NoWhitespace(s) &&
    exists at | 0 <= at < |s| :: IsSoleAt(s, at) && at > 0 && HasInnerDot(s[at + 1..])
  }

  /** Every match of the regular expression is well shaped. */
  lemma RegexMatchIsWellShaped(s: string)
    requires MatchesEmailRegex(s)
    ensures IsWellShapedEmail(s)
  {
    var at, dot :| 0 <= at < |s| && 0 <= dot < |s| && IsRegexSplit(s, at, dot);
    var local, host, top := s[..at], s[at + 1..dot], s[dot + 1..];
    forall j | 0 <= j < |s| && j != at && j != dot ensures IsPlain(s[j]) {
      if j < at {
        assert s[j] == local[j];
      } else if j < dot {
        assert s[j] == host[j - at - 1];
      } else {
        assert s[j] == top[j - dot - 1];
      }
    }
    assert !IsWhitespace('.') && !IsWhitespace('@');
    assert NoWhitespace(s);
    assert IsSoleAt(s, at);
    var domain := s[at + 1..];
    assert IsInnerDot(domain, dot - at - 1);
  }

  /** Every well-shaped address matches the regular expression. */
  lemma WellShapedMatchesRegex(s: string)
    requires IsWellShapedEmail(s)
    ensures MatchesEmailRegex(s)
  {
    var at :| 0 <= at < |s| && IsSoleAt(s, at) && at > 0 && HasInnerDot(s[at + 1..]);
    var domain := s[at + 1..];
    var k :| 0 <= k < |domain| && IsInnerDot(domain, k);
    var dot := at + 1 + k;
    assert s[dot] == domain[k];
    var local, host, top := s[..at], s[at + 1..dot], s[dot + 1..];
    forall i | 0 <= i < |local| ensures IsPlain(local[i]) {
      assert local[i] == s[i];
    }
    forall i | 0 <= i < |host| ensures IsPlain(host[i]) {
      assert host[i] == s[at + 1 + i];
    }
    forall i | 0 <= i < |top| ensures IsPlain(top[i]) {
      assert top[i] == s[dot + 1 + i];
    }
    assert IsRegexSplit(s, at, dot);
  }

  /** The regular expression accepts exactly the well-shaped addresses. */
  lemma RegexIffWellShaped(s: string)
    ensures MatchesEmailRegex(s) <==> IsWellShapedEmail(s)
  {
    if MatchesEmailRegex(s) {
      RegexMatchIsWellShaped(s);
    }
    if IsWellShapedEmail(s) {
      WellShapedMatchesRegex(s);
    }
  }

  /** Anything the regular expression accepts is free of whitespace, so an
      address with whitespace in it, at either end or inside, is rejected. */
  lemma RegexRejectsWhitespace(s: string, i: int)
    requires 0 <= i < |s| && IsWhitespace(s[i])
    ensures !MatchesEmailRegex(s)
  {
    RegexIffWellShaped(s);
  }
}
