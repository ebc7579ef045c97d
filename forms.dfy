/** The generic validator run before the contact, enrolment and testimonial
    forms are accepted: required fields must not be blank, a phone number needs
    ten digits, and an email address must look like `local@domain.tld`. */
module Forms {
  import opened JsText

  /** The values of a form that the validator reads: every field marked
      `required`, in document order, and the first telephone and the first email
      input, when the form has them. */
  datatype Form = Form(required: seq<string>, phone: Option<string>, email: Option<string>)

  /** The error notices the validator can raise, in the order it raises them. */
  datatype Toast = PhoneToast | EmailToast {
    function Message(): string {
      match this
      case PhoneToast => "Please enter a valid 10-digit phone number."
      case EmailToast => "Please enter a valid email address."
    }
  }

  /** Fewest digits a phone number may have. */
  const MinPhoneDigits: nat := 10

  /** A value counts as missing when nothing is left of it after trimming. */
  predicate IsBlank(value: string) {
    Trim(value) == []
  }

  /** A character the class `[^\s@]` accepts. */
  predicate IsEmailChar(c: char) {
    !IsSpace(c) && c != '@'
  }

  predicate AllEmailChars(s: string) {
    forall i :: 0 <= i < |s| ==> IsEmailChar(s[i])
  }

  /** The pattern `^[^\s@]+@[^\s@]+\.[^\s@]+$`, read declaratively: an `@` at
      index `at` and a `.` at index `dot` split the value into three non-empty
      pieces, and every character other than that `@` is neither white space nor
      another `@`. */
  ghost predicate EmailPattern(s: string) {
    exists at, dot :: 0 < at && at + 1 < dot && dot + 1 < |s| &&
      s[at] == '@' && s[dot] == '.' &&
      AllEmailChars(s[..at]) && AllEmailChars(s[at + 1..])
  }

  /** The same pattern as a scan: split at the first `@`; the part before must be
      non-empty, the part after at least three characters long with a `.`
      neither first nor last, and neither part may hold white space or an `@`. */
  predicate MatchesEmail(s: string) {
    var local := BeforeFirst(s, '@');
    |local| < |s| &&
    var domain := s[|local| + 1..];
    0 < |local| && 3 <= |domain| &&
    AllEmailChars(local) && AllEmailChars(domain) &&
    '.' in domain[1..|domain| - 1]
  }

  /** Every value the scan accepts fits the pattern. */
  lemma MatchesEmailSound(s: string)
    requires MatchesEmail(s)
    ensures EmailPattern(s)
  {
    var local := BeforeFirst(s, '@');
    var at := |local|;
    BeforeFirstSpec(s, '@');
    var domain := s[at + 1..];
    var inner := domain[1..|domain| - 1];
    var k :| 0 <= k < |inner| && inner[k] == '.';
    var dot := at + 2 + k;
    assert s[dot] == inner[k];
    assert s[..at] == local;
    assert 0 < at && at + 1 < dot && dot + 1 < |s| && s[at] == '@' && s[dot] == '.' &&
      AllEmailChars(s[..at]) && AllEmailChars(s[at + 1..]);
  }

  /** The `@` the pattern splits at is the first `@` of the value. */
  lemma PatternAtIsFirst(s: string, a: nat)
    requires a < |s| && s[a] == '@' && AllEmailChars(s[..a])
    ensures |BeforeFirst(s, '@')| == a
  {
    var local := BeforeFirst(s, '@');
    BeforeFirstSpec(s, '@');
  }

  /** Every value that fits the pattern is accepted by the scan. */
  lemma MatchesEmailComplete(s: string)
    requires EmailPattern(s)
    ensures MatchesEmail(s)
  {
    var a, d :| 0 < a && a + 1 < d && d + 1 < |s| && s[a] == '@' && s[d] == '.' &&
      AllEmailChars(s[..a]) && AllEmailChars(s[a + 1..]);
    PatternAtIsFirst(s, a);
    BeforeFirstSpec(s, '@');
    var domain := s[a + 1..];
    assert domain[1..|domain| - 1][d - a - 2] == s[d];
  }

  /** The scan accepts exactly the values the pattern describes. */
  lemma MatchesEmailIffPattern(s: string)
    ensures MatchesEmail(s) <==> EmailPattern(s)
  {
    if MatchesEmail(s) {
      MatchesEmailSound(s);
    }
    if EmailPattern(s) {
      MatchesEmailComplete(s);
    }
  }

  /** A phone value the validator refuses: present, not blank, and with fewer
      than ten digits once everything that is not a digit is removed. */
  predicate PhoneRejected(phone: Option<string>) {
    phone.Some? && !IsBlank(phone.value) && |Keep(phone.value, IsDigit)| < MinPhoneDigits
  }

  /** An email value the validator refuses: present, not blank, and not matching
      the pattern. The pattern is tested on the untrimmed value. */
  predicate EmailRejected(email: Option<string>) {
    email.Some? && !IsBlank(email.value) && !MatchesEmail(email.value)
  }

  /** Checks every required field, then the phone number, then the email address.
      Every blank required field is flagged, not only the first; `valid` is false
      exactly when some check failed. */
  method ValidateForm(form: Form) returns (valid: bool, flagged: seq<bool>, toasts: seq<Toast>)
    ensures |flagged| == |form.required|
    ensures forall i :: 0 <= i < |form.required| ==> (flagged[i] <==> IsBlank(form.required[i]))
    ensures toasts == (if PhoneRejected(form.phone) then [PhoneToast] else []) +
                      (if EmailRejected(form.email) then [EmailToast] else [])
    ensures valid <==> (forall i :: 0 <= i < |form.required| ==> !IsBlank(form.required[i])) &&
                       !PhoneRejected(form.phone) && !EmailRejected(form.email)
    ensures valid <==> toasts == [] && forall i :: 0 <= i < |flagged| ==> !flagged[i]
  {
    valid := true;
    flagged := [];
    var i := 0;
    while i < |form.required|
      invariant 0 <= i <= |form.required|
      invariant |flagged| == i
      invariant forall j :: 0 <= j < i ==> (flagged[j] <==> IsBlank(form.required[j]))
      invariant valid <==> forall j :: 0 <= j < i ==> !IsBlank(form.required[j])
    {
      var blank := IsBlank(form.required[i]);
      if blank {
        valid := false;
      }
      flagged := flagged + [blank];
      i := i + 1;
    }
    toasts := [];
    if form.phone.Some? && !IsBlank(form.phone.value) {
      var digits := Keep(form.phone.value, IsDigit);
      if |digits| < MinPhoneDigits {
        valid := false;
        toasts := toasts + [PhoneToast];
      }
    }
    ghost var afterPhone := toasts;
    assert afterPhone == if PhoneRejected(form.phone) then [PhoneToast] else [];
    if form.email.Some? && !IsBlank(form.email.value) {
      if !MatchesEmail(form.email.value) {
        valid := false;
        toasts := toasts + [EmailToast];
      }
    }
    assert toasts == afterPhone + if EmailRejected(form.email) then [EmailToast] else [];
  }

  /** Separators between two runs of digits do not count: a phone number written
      as digits, any non-digit separator, digits, with ten digits in all, is
      accepted. */
  lemma FormattedPhoneAccepted(a: string, sep: string, b: string)
    requires forall i :: 0 <= i < |a| ==> IsDigit(a[i])
    requires forall i :: 0 <= i < |b| ==> IsDigit(b[i])
    requires forall i :: 0 <= i < |sep| ==> !IsDigit(sep[i])
    requires |a| + |b| >= MinPhoneDigits
    ensures !PhoneRejected(Some(a + sep + b))
  {
    var v := a + sep + b;
    KeepConcat(a + sep, b, IsDigit);
    KeepConcat(a, sep, IsDigit);
    KeepAll(a, IsDigit);
    KeepNone(sep, IsDigit);
    KeepAll(b, IsDigit);
    assert |Keep(v, IsDigit)| == |a| + |b|;
  }

  /** A non-blank phone value shorter than ten characters is always refused. */
  lemma ShortPhoneRejected(v: string)
    requires !AllSpace(v) && |v| < MinPhoneDigits
    ensures PhoneRejected(Some(v))
  {
    TrimEmptyIff(v);
  }

  /** A phone or email field left blank is never the reason a form is refused. */
  lemma BlankOptionalFieldsPass(phone: string, email: string)
    requires AllSpace(phone) && AllSpace(email)
    ensures !PhoneRejected(Some(phone)) && !EmailRejected(Some(email))
  {
    TrimEmptyIff(phone);
    TrimEmptyIff(email);
  }

  /** An accepted email address has exactly one `@`. */
  lemma AcceptedEmailHasOneAt(s: string, i: nat, j: nat)
    requires i < |s| && j < |s| && s[i] == '@' && s[j] == '@'
    ensures MatchesEmail(s) ==> i == j
  {
    MatchesEmailIffPattern(s);
    if MatchesEmail(s) {
      var a, d :| 0 < a && a + 1 < d && d + 1 < |s| && s[a] == '@' && s[d] == '.' &&
        AllEmailChars(s[..a]) && AllEmailChars(s[a + 1..]);
      assert i == a && j == a by {
        assert forall k :: 0 <= k < a ==> s[..a][k] == s[k];
        assert forall k :: a < k < |s| ==> s[a + 1..][k - a - 1] == s[k];
      }
    }
  }

  /** Trimming decides only whether the email field is empty; the pattern is
      tested on the raw value, so an address that starts with a no-break space
      (U+00A0, white space to `\s` and to `trim`) is refused. */
  lemma NoBreakSpaceEmailRejected(s: string)
    requires !AllSpace(s)
    ensures EmailRejected(Some("\U{00A0}" + s))
  {
    var v := "\U{00A0}" + s;
    TrimEmptyIff(v);
    assert !AllSpace(v) by {
      var k :| 0 <= k < |s| && !IsSpace(s[k]);
      assert v[k + 1] == s[k];
    }
    assert forall a :: 0 < a <= |v| ==> v[..a][0] == '\U{00A0}';
    MatchesEmailIffPattern(v);
  }

  /** A plain address is accepted. */
  lemma PlainEmailAccepted()
    ensures !EmailRejected(Some("ravi@maths.in"))
  {
    var s := "ravi@maths.in";
    assert s[4] == '@' && s[10] == '.';
    assert AllEmailChars(s[..4]) && AllEmailChars(s[5..]);
    MatchesEmailComplete(s);
  }

  /** An address without a dot after the `@` is refused. */
  lemma EmailWithoutDotRefused()
    ensures !MatchesEmail("ravi@maths")
  {
    var s := "ravi@maths";
    assert '.' !in s;
    MatchesEmailIffPattern(s);
  }

  /** An address with a second `@` is refused. */
  lemma EmailWithTwoAtsRefused()
    ensures !MatchesEmail("ravi@@maths.in")
  {
    var s := "ravi@@maths.in";
    AcceptedEmailHasOneAt(s, 4, 5);
  }
}
