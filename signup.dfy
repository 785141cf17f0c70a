/** The driver sign-up page (3DNA/frontend/js/driver-signup.js): its field validators, the
    whole-form check, and where a server error message is shown. Strings are sequences of
    code points; JavaScript counts lengths in UTF-16 code units, which `JsLength` restores. */
module Signup {
  import opened Wrappers
  import opened PhpValues
  import opened Schema
  import opened Auth

  /** `\s` of a JavaScript regular expression and the characters `String.prototype.trim` removes:
      WhiteSpace and LineTerminator of the ECMAScript grammar. */
  predicate IsJsSpace(c: char)
  {
    || c == '\t' || c == '\n' || c == '\U{B}' || c == '\U{C}' || c == '\r' || c == ' '
    || c == '\U{A0}' || c == '\U{1680}' || ('\U{2000}' <= c <= '\U{200A}')
    || c == '\U{2028}' || c == '\U{2029}' || c == '\U{202F}' || c == '\U{205F}'
    || c == '\U{3000}' || c == '\U{FEFF}'
  }

  /** `.length`: characters beyond the Basic Multilingual Plane take two UTF-16 code units. */
  function JsLength(s: string): (n: nat)
    ensures |s| <= n <= 2 * |s|
  {
    if s == [] then 0 else (if s[0] as int > 0xFFFF then 2 else 1) + JsLength(s[1..])
  }

  function TrimStart(s: string): (r: string)
    ensures |r| <= |s|
  {
    if s != [] && IsJsSpace(s[0]) then TrimStart(s[1..]) else s
  }

  /** `TrimStart` drops exactly the leading whitespace. */
  lemma {:induction false} TrimStartSpec(s: string)
    ensures var r := TrimStart(s);
      && r == s[|s| - |r|..]
      && (forall i :: 0 <= i < |s| - |r| ==> IsJsSpace(s[i]))
      && (r == [] || !IsJsSpace(r[0]))
  {
    if s != [] && IsJsSpace(s[0]) {
      TrimStartSpec(s[1..]);
      var r := TrimStart(s);
      assert r == s[1..][|s| - 1 - |r|..];
      forall i | 0 <= i < |s| - |r| ensures IsJsSpace(s[i]) {
        if i > 0 {
          assert s[i] == s[1..][i - 1];
        }
      }
    }
  }

  function TrimEnd(s: string): (r: string)
    ensures |r| <= |s|
  {
    if s != [] && IsJsSpace(s[|s| - 1]) then TrimEnd(s[..|s| - 1]) else s
  }

  /** `TrimEnd` drops exactly the trailing whitespace. */
  lemma {:induction false} TrimEndSpec(s: string)
    ensures var r := TrimEnd(s);
      && r == s[..|r|]
      && (forall i :: |r| <= i < |s| ==> IsJsSpace(s[i]))
      && (r == [] || !IsJsSpace(r[|r| - 1]))
  {
    if s != [] && IsJsSpace(s[|s| - 1]) {
      var t := s[..|s| - 1];
      TrimEndSpec(t);
      var r := TrimEnd(s);
      assert r == t[..|r|];
      forall i | |r| <= i < |s| ensures IsJsSpace(s[i]) {
        if i < |s| - 1 {
          assert s[i] == t[i];
        }
      }
    }
  }

  /** `.trim()`: the text between the leading and the trailing whitespace. */
  function Trim(s: string): string
  {
    TrimEnd(TrimStart(s))
  }

  /** The trimmed text is the slice of the input after its leading whitespace and before its
      trailing whitespace, and it neither starts nor ends with whitespace. */
  lemma TrimSpec(s: string)
    ensures var lo := |s| - |TrimStart(s)|;
      var r := Trim(s);
      && lo + |r| <= |s| && r == s[lo..lo + |r|]
      && (forall i :: 0 <= i < lo ==> IsJsSpace(s[i]))
      && (forall i :: lo + |r| <= i < |s| ==> IsJsSpace(s[i]))
      && (r == [] || (!IsJsSpace(r[0]) && !IsJsSpace(r[|r| - 1])))
  {
    var t := TrimStart(s);
    var r := TrimEnd(t);
    var lo := |s| - |t|;
    TrimStartSpec(s);
    TrimEndSpec(t);
    assert t == s[lo..];
    assert r == t[..|r|];
    assert r == s[lo..lo + |r|];
    forall i | lo + |r| <= i < |s| ensures IsJsSpace(s[i]) {
      assert s[i] == t[i - lo];
    }
    if r != [] {
      assert r[0] == t[0];
    }
  }

  /** Trimming twice changes nothing more. */
  lemma TrimIdempotent(s: string)
    ensures Trim(Trim(s)) == Trim(s)
  {
    var r := Trim(s);
    TrimSpec(s);
    assert TrimStart(r) == r;
    assert TrimEnd(r) == r;
  }

  /** A character the email pattern's `[^\s@]` accepts. */
  predicate EmailChar(c: char)
  {
    !IsJsSpace(c) && c != '@'
  }

  /** `/^[^\s@]+@[^\s@]+\.[^\s@]+$/` with the `@` at `a` and the literal dot at `d`. */
  predicate EmailSplit(e: string, a: int, d: int)
  {
    && 0 < a && a + 1 < d && d + 1 < |e|
    && e[a] == '@' && e[d] == '.'
    && forall m :: 0 <= m < |e| && m != a ==> EmailChar(e[m])
  }

  ghost predicate EmailPattern(e: string)
  {
    exists a, d :: EmailSplit(e, a, d)
  }

  /** Index of the first `c` at or after `from`. */
  function IndexOf(s: string, c: char, from: nat): (r: Option<nat>)
    requires from <= |s|
    ensures r.None? ==> forall i :: from <= i < |s| ==> s[i] != c
    ensures r.Some? ==> (from <= r.value < |s| && s[r.value] == c
                         && forall i :: from <= i < r.value ==> s[i] != c)
    decreases |s| - from
  {
    if from == |s| then None else if s[from] == c then Some(from) else IndexOf(s, c, from + 1)
  }

  /** A `.` with at least one character on each side. */
  predicate InnerDot(d: string)
  {
    exists p :: 0 < p < |d| - 1 && d[p] == '.'
  }

  /** `isValidEmail`: no whitespace; exactly one `@`, not first; after it a dot with text on
      both sides. */
  predicate IsValidEmail(e: string)
  {
    && (forall i :: 0 <= i < |e| ==> !IsJsSpace(e[i]))
    && match IndexOf(e, '@', 0)
       case None => false
       case Some(a) => a > 0 && IndexOf(e, '@', a + 1).None? && InnerDot(e[a + 1..])
  }

  /** The check accepts exactly what the regular expression matches. */
  lemma IsValidEmailIffPattern(e: string)
    ensures IsValidEmail(e) <==> EmailPattern(e)
  {
    if IsValidEmail(e) {
      var a := IndexOf(e, '@', 0).value;
      var rest := e[a + 1..];
      var p :| 0 < p < |rest| - 1 && rest[p] == '.';
      var d := a + 1 + p;
      assert e[d] == rest[p];
      assert EmailSplit(e, a, d);
    }
    if EmailPattern(e) {
      var a, d :| EmailSplit(e, a, d);
      assert !IsJsSpace(e[a]);
      var f := IndexOf(e, '@', 0);
      assert f.Some?;
      assert !EmailChar(e[f.value]) || f.value == a;
      assert f == Some(a);
      var after := IndexOf(e, '@', a + 1);
      assert after.None?;
      var rest := e[a + 1..];
      assert rest[d - a - 1] == '.';
    }
  }

  /** An address with a space, a second `@`, nothing before the `@` or no dot after it fails. */
  lemma EmailRejections()
    ensures !IsValidEmail("")
    ensures !IsValidEmail("0")
    ensures IsValidEmail("a@b.co")
    ensures !IsValidEmail("@b.co")
    ensures !IsValidEmail("a@bco")
  {
    assert IndexOf("0", '@', 0) == None;
    var e := "a@b.co";
    assert IndexOf(e, '@', 0) == Some(1);
    assert IndexOf(e, '@', 2) == None;
    assert e[2..][1] == '.';
    var f := "a@bco";
    assert IndexOf(f, '@', 0) == Some(1);
    assert f[2..] == "bco";
    assert !InnerDot(f[2..]) by {
      forall p | 0 < p < 2 ensures f[2..][p] != '.' {
      }
    }
  }

  /** `\d`, `-`, `+`, `(` and `)`. */
  predicate IsPhoneChar(c: char)
  {
    ('0' <= c <= '9') || c == '-' || c == '+' || c == '(' || c == ')'
  }

  /** `.replace(/\s/g, '')` */
  function StripSpaces(s: string): (r: string)
    ensures |r| <= |s|
  {
    if s == [] then [] else (if IsJsSpace(s[0]) then [] else [s[0]]) + StripSpaces(s[1..])
  }

  /** The stripped text holds exactly the input's characters that are not whitespace. */
  lemma {:induction false} StripSpacesSpec(s: string, c: char)
    ensures c in StripSpaces(s) <==> (c in s && !IsJsSpace(c))
  {
    if s != [] {
      StripSpacesSpec(s[1..], c);
      assert s == [s[0]] + s[1..];
    }
  }

  lemma {:induction false} StripConcat(a: string, b: string)
    ensures StripSpaces(a + b) == StripSpaces(a) + StripSpaces(b)
  {
    if a != [] {
      assert (a + b)[0] == a[0];
      assert (a + b)[1..] == a[1..] + b;
      StripConcat(a[1..], b);
      assert StripSpaces(a + b) == (if IsJsSpace(a[0]) then [] else [a[0]]) + StripSpaces(a[1..] + b);
    } else {
      assert a + b == b;
    }
  }

  /** `isValidPhone`: with its whitespace removed, at least ten characters, each a digit or one
      of `- + ( )`. */
  predicate IsValidPhone(p: string)
  {
    var d := StripSpaces(p);
    |d| >= 10 && forall c :: c in d ==> IsPhoneChar(c)
  }

  /** Whitespace anywhere in a phone number never changes the verdict. */
  lemma PhoneIgnoresSpace(a: string, c: char, b: string)
    requires IsJsSpace(c)
    ensures IsValidPhone(a + [c] + b) <==> IsValidPhone(a + b)
  {
    StripConcat(a + [c], b);
    StripConcat(a, [c]);
    StripConcat(a, b);
    assert StripSpaces([c]) == [];
    assert a + [c] + b == (a + [c]) + b;
  }

  /** A valid phone number has at least ten characters, so the empty field always fails. */
  lemma PhoneLength(p: string)
    ensures IsValidPhone(p) ==> |p| >= 10
    ensures !IsValidPhone("")
  {
  }

  /** `isStrongPassword`: some `A`-`Z` and some `0`-`9`. */
  predicate IsStrongPassword(p: string)
  {
    (exists i :: 0 <= i < |p| && 'A' <= p[i] <= 'Z') && (exists i :: 0 <= i < |p| && '0' <= p[i] <= '9')
  }

  /** Appending text never weakens a password. */
  lemma StrongStaysStrong(p: string, q: string)
    requires IsStrongPassword(p)
    ensures IsStrongPassword(p + q)
  {
    var i :| 0 <= i < |p| && 'A' <= p[i] <= 'Z';
    var j :| 0 <= j < |p| && '0' <= p[j] <= '9';
    assert (p + q)[i] == p[i] && (p + q)[j] == p[j];
  }

  /** The values `validateForm` reads from the page. */
  datatype Form = Form(fullName: string, email: string, phone: string, license: string,
                       password: string, confirmPassword: string, terms: bool)

  const NameError := "Full name must be at least 3 characters"
  const EmailError := "Please enter a valid email address"
  const PhoneError := "Please enter a valid phone number"
  const LicenseError := "License number must be at least 5 characters"
  const ShortPasswordError := "Password must be at least 6 characters"
  const WeakPasswordError := "Password must contain uppercase and numbers"
  const MismatchError := "Passwords do not match"
  const TermsError := "You must agree to the terms and conditions"

  /** The page's error elements, one under each field. */
  datatype ErrorSlot = FullNameSlot | EmailSlot | PhoneSlot | LicenseSlot | PasswordSlot
                     | ConfirmPasswordSlot | TermsSlot

  /** The element id of each error slot. */
  function ElementId(slot: ErrorSlot): string
  {
    match slot
    case FullNameSlot => "fullNameError"
    case EmailSlot => "emailError"
    case PhoneSlot => "phoneError"
    case LicenseSlot => "licenseError"
    case PasswordSlot => "passwordError"
    case ConfirmPasswordSlot => "confirmPasswordError"
    case TermsSlot => "termsError"
  }

  /** Every condition the form must meet, stated field by field. */
  predicate FormValid(f: Form)
  {
    && JsLength(Trim(f.fullName)) >= 3
    && IsValidEmail(Trim(f.email))
    && IsValidPhone(Trim(f.phone))
    && JsLength(Trim(f.license)) >= 5
    && JsLength(f.password) >= 6 && IsStrongPassword(f.password)
    && f.password == f.confirmPassword
    && f.terms
  }

  /** Whether the check behind an error slot fails on the form. */
  predicate Fails(f: Form, slot: ErrorSlot)
  {
    match slot
    case FullNameSlot => JsLength(Trim(f.fullName)) < 3
    case EmailSlot => !IsValidEmail(Trim(f.email))
    case PhoneSlot => !IsValidPhone(Trim(f.phone))
    case LicenseSlot => JsLength(Trim(f.license)) < 5
    case PasswordSlot => JsLength(f.password) < 6 || !IsStrongPassword(f.password)
    case ConfirmPasswordSlot => f.password != f.confirmPassword
    case TermsSlot => !f.terms
  }

  /** A form is valid exactly when none of the slot checks fails. */
  lemma FormValidIffNoFailure(f: Form)
    ensures FormValid(f) <==> forall slot :: !Fails(f, slot)
  {
    if !FormValid(f) {
      if JsLength(Trim(f.fullName)) < 3 {
        assert Fails(f, FullNameSlot);
      } else if !IsValidEmail(Trim(f.email)) {
        assert Fails(f, EmailSlot);
      } else if !IsValidPhone(Trim(f.phone)) {
        assert Fails(f, PhoneSlot);
      } else if JsLength(Trim(f.license)) < 5 {
        assert Fails(f, LicenseSlot);
      } else if JsLength(f.password) < 6 || !IsStrongPassword(f.password) {
        assert Fails(f, PasswordSlot);
      } else if f.password != f.confirmPassword {
        assert Fails(f, ConfirmPasswordSlot);
      } else {
        assert Fails(f, TermsSlot);
      }
    }
  }

  /** The message of each error element; a too short password is reported as such even when it
      is also weak. */
  function ExpectedError(form: Form, slot: ErrorSlot): string
  {
    match slot
    case FullNameSlot => NameError
    case EmailSlot => EmailError
    case PhoneSlot => PhoneError
    case LicenseSlot => LicenseError
    case PasswordSlot => if JsLength(form.password) < 6 then ShortPasswordError else WeakPasswordError
    case ConfirmPasswordSlot => MismatchError
    case TermsSlot => TermsError
  }

  /** The error elements after one check: a failed check's slot shows its message (`showError`),
      any other slot keeps what it showed. */
  function Report(errors: map<ErrorSlot, string>, slot: ErrorSlot, failed: bool, message: string)
    : map<ErrorSlot, string>
  {
    if failed then errors[slot := message] else errors
  }

  /** The error elements after the seven checks of `validateForm`, in the page's order, given
      which checks fail and the message of each. */
  function AllReports(failed: ErrorSlot -> bool, message: ErrorSlot -> string): map<ErrorSlot, string>
  {
    var m1 := Report(map[], FullNameSlot, failed(FullNameSlot), message(FullNameSlot));
    var m2 := Report(m1, EmailSlot, failed(EmailSlot), message(EmailSlot));
    var m3 := Report(m2, PhoneSlot, failed(PhoneSlot), message(PhoneSlot));
    var m4 := Report(m3, LicenseSlot, failed(LicenseSlot), message(LicenseSlot));
    var m5 := Report(m4, PasswordSlot, failed(PasswordSlot), message(PasswordSlot));
    var m6 := Report(m5, ConfirmPasswordSlot, failed(ConfirmPasswordSlot), message(ConfirmPasswordSlot));
    Report(m6, TermsSlot, failed(TermsSlot), message(TermsSlot))
  }

  /** No check stops the others: every failing check, and only those, has its message shown,
      and nothing is shown exactly when no check fails. */
  lemma AllReportsSpec(failed: ErrorSlot -> bool, message: ErrorSlot -> string)
    ensures var shown := AllReports(failed, message);
      && (forall slot :: slot in shown <==> failed(slot))
      && (forall slot :: slot in shown ==> shown[slot] == message(slot))
      && (shown == map[] <==> forall slot :: !failed(slot))
      && (shown == map[] <==> !failed(FullNameSlot) && !failed(EmailSlot) && !failed(PhoneSlot) && !failed(LicenseSlot)
                              && !failed(PasswordSlot) && !failed(ConfirmPasswordSlot) && !failed(TermsSlot))
  {
    var shown := AllReports(failed, message);
    forall slot ensures (slot in shown <==> failed(slot)) && (slot in shown ==> shown[slot] == message(slot)) {
      match slot
      case FullNameSlot =>
      case EmailSlot =>
      case PhoneSlot =>
      case LicenseSlot =>
      case PasswordSlot =>
      case ConfirmPasswordSlot =>
      case TermsSlot =>
    }
    if shown == map[] {
      forall slot ensures !failed(slot) {
        assert slot !in shown;
      }
    } else {
      var slot :| slot in shown;
      assert failed(slot);
    }
  }

  /** One check of `validateForm`, on the trimmed value of the field behind `slot`: when it
      fails, the slot shows its message and the flag is cleared; otherwise nothing changes. */
  method CheckSlot(form: Form, slot: ErrorSlot, isValid: bool, errors: map<ErrorSlot, string>)
    returns (stillValid: bool, shown: map<ErrorSlot, string>)
    ensures stillValid == (isValid && !FailsOf(form)(slot))
    ensures shown == Report(errors, slot, FailsOf(form)(slot), MessageOf(form)(slot))
  {
    assert FailsOf(form)(slot) == Fails(form, slot) && MessageOf(form)(slot) == ExpectedError(form, slot);
    stillValid, shown := isValid, errors;
    match slot
    case FullNameSlot =>
      var fullName := Trim(form.fullName);
      if fullName == "" || JsLength(fullName) < 3 {
        shown := shown[FullNameSlot := NameError];
        stillValid := false;
      }
    case EmailSlot =>
      var email := Trim(form.email);
      EmailRejections();
      if email == "" || !IsValidEmail(email) {
        shown := shown[EmailSlot := EmailError];
        stillValid := false;
      }
    case PhoneSlot =>
      var phone := Trim(form.phone);
      PhoneLength(phone);
      if phone == "" || !IsValidPhone(phone) {
        shown := shown[PhoneSlot := PhoneError];
        stillValid := false;
      }
    case LicenseSlot =>
      var license := Trim(form.license);
      if license == "" || JsLength(license) < 5 {
        shown := shown[LicenseSlot := LicenseError];
        stillValid := false;
      }
    case PasswordSlot =>
      var password := form.password;
      if password == "" || JsLength(password) < 6 {
        shown := shown[PasswordSlot := ShortPasswordError];
        stillValid := false;
      } else if !IsStrongPassword(password) {
        shown := shown[PasswordSlot := WeakPasswordError];
        stillValid := false;
      }
    case ConfirmPasswordSlot =>
      if form.password != form.confirmPassword {
        shown := shown[ConfirmPasswordSlot := MismatchError];
        stillValid := false;
      }
    case TermsSlot =>
      if !form.terms {
        shown := shown[TermsSlot := TermsError];
        stillValid := false;
      }
  }

  /** `validateForm`: the checks run one after the other and none stops the others; `errors`
      holds the text each error element shows afterwards. Every failing check, and only those,
      shows its message, and the flag ends up set exactly when the form is valid, which is
      exactly when nothing is shown. */
  method ValidateForm(form: Form) returns (isValid: bool, errors: map<ErrorSlot, string>)
    ensures forall slot :: slot in errors <==> Fails(form, slot)
    ensures forall slot :: slot in errors ==> errors[slot] == ExpectedError(form, slot)
    ensures isValid <==> errors == map[]
    ensures isValid <==> FormValid(form)
  {
    isValid := true;
    errors := map[];
    isValid, errors := CheckSlot(form, FullNameSlot, isValid, errors);
    isValid, errors := CheckSlot(form, EmailSlot, isValid, errors);
    isValid, errors := CheckSlot(form, PhoneSlot, isValid, errors);
    isValid, errors := CheckSlot(form, LicenseSlot, isValid, errors);
    isValid, errors := CheckSlot(form, PasswordSlot, isValid, errors);
    isValid, errors := CheckSlot(form, ConfirmPasswordSlot, isValid, errors);
    isValid, errors := CheckSlot(form, TermsSlot, isValid, errors);
    AllReportsSpec(FailsOf(form), MessageOf(form));
    FormValidIffNoFailure(form);
  }

  /** Whether each check fails, as the function `AllReports` takes. */
  function FailsOf(form: Form): ErrorSlot -> bool
  {
    slot => Fails(form, slot)
  }

  /** The message of each check, as the function `AllReports` takes. */
  function MessageOf(form: Form): ErrorSlot -> string
  {
    slot => ExpectedError(form, slot)
  }

  /** The body the page posts to `auth.php?action=register`: the raw, untrimmed field values. */
  function Submitted(f: Form): Input
  {
    map["full_name" := Str(f.fullName), "email" := Str(f.email), "phone" := Str(f.phone),
        "license_number" := Str(f.license), "password" := Str(f.password), "user_type" := Str("driver")]
  }

  lemma TrimZero()
    ensures Trim("0") == "0" && Trim("") == ""
  {
    assert TrimStart("0") == "0";
    assert TrimEnd("0") == "0";
  }

  /** A value whose trimmed form is at least two code units long is neither "" nor "0". */
  lemma LongTrimNotBlank(v: string)
    requires JsLength(Trim(v)) >= 2
    ensures !Empty(Str(v))
  {
    TrimZero();
  }

  lemma EmailNotBlank(v: string)
    requires IsValidEmail(Trim(v))
    ensures !Empty(Str(v))
  {
    TrimZero();
    EmailRejections();
  }

  /** A form the page accepts always gets past the server's presence checks, so the only
      rejections left are the duplicate email, phone and licence ones. */
  lemma AcceptedFormPassesPresenceChecks(users: map<int, User>, f: Form)
    requires FormValid(f)
    ensures var r := RegisterRejection(users, Submitted(f));
      r.None? || r == Some("Email already registered") || r == Some("Phone number already registered")
        || r == Some("License number already registered")
  {
    LongTrimNotBlank(f.fullName);
    EmailNotBlank(f.email);
    LongTrimNotBlank(f.license);
    assert f.password != "" && f.password != "0";
    var input := Submitted(f);
    assert RegName(input) == Str(f.fullName);
    assert RegEmail(input) == Str(f.email);
    assert RegPassword(input) == Str(f.password);
    assert RegLicense(input) == Str(f.license);
  }

  function LowerChar(c: char): char
  {
    if 'A' <= c <= 'Z' then (c as int + 32) as char else c
  }

  /** `.toLowerCase()` on ASCII letters. */
  function Lower(s: string): (r: string)
    ensures |r| == |s| && forall i :: 0 <= i < |s| ==> r[i] == LowerChar(s[i])
  {
    if s == [] then [] else [LowerChar(s[0])] + Lower(s[1..])
  }

  predicate OccursAt(s: string, w: string, i: int)
  {
    0 <= i <= |s| - |w| && s[i..i + |w|] == w
  }

  /** `.includes(w)` */
  predicate Includes(s: string, w: string)
  {
    exists i | 0 <= i <= |s| - |w| :: OccursAt(s, w, i)
  }

  /** Where the page shows a failed registration. */
  datatype Shown = FieldError(id: ErrorSlot, message: string) | Alert(text: string)

  /** The `else` branch after a failed registration: a missing or empty message becomes
      'Registration failed'; the lower-cased message is searched for "email", then "phone",
      then "license"; none of them gives an alert. */
  function RouteServerMessage(message: Option<string>): Shown
  {
    var m := if message.Some? && message.value != "" then message.value else "Registration failed";
    var lower := Lower(m);
    if Includes(lower, "email") then FieldError(EmailSlot, m)
    else if Includes(lower, "phone") then FieldError(PhoneSlot, m)
    else if Includes(lower, "license") then FieldError(LicenseSlot, m)
    else Alert("Registration failed: " + m)
  }

  /** Routing ignores letter case and always shows the server's own text. */
  lemma RoutingIgnoresCase(a: string, b: string)
    requires a != "" && b != "" && Lower(a) == Lower(b)
    ensures RouteServerMessage(Some(a)).FieldError? <==> RouteServerMessage(Some(b)).FieldError?
    ensures RouteServerMessage(Some(a)).FieldError? ==> RouteServerMessage(Some(a)).id == RouteServerMessage(Some(b)).id
    ensures RouteServerMessage(Some(a)).FieldError? ==> RouteServerMessage(Some(a)).message == a
    ensures RouteServerMessage(Some(a)).Alert? ==> RouteServerMessage(Some(a)).text == "Registration failed: " + a
  {
  }

  lemma {:induction false} LowerConcat(a: string, b: string)
    ensures Lower(a + b) == Lower(a) + Lower(b)
  {
    var l := Lower(a + b);
    var r := Lower(a) + Lower(b);
    assert |l| == |r|;
    forall i | 0 <= i < |l| ensures l[i] == r[i] {
      if i < |a| { assert (a + b)[i] == a[i]; } else { assert (a + b)[i] == b[i - |a|]; }
    }
  }

  /** A word that holds a character the text lacks in either case is not in the lower-cased text. */
  lemma MissingLetter(s: string, w: string, c: char)
    requires c in w && 'a' <= c <= 'z'
    requires c !in s && (c as int - 32) as char !in s
    ensures !Includes(Lower(s), w)
  {
  }

  /** An occurrence of a word without spaces cannot cover the space between two parts. */
  lemma NoStraddle(x: string, y: string, w: string, i: int)
    requires ' ' !in w
    requires 0 <= i <= |x + " " + y| - |w| && OccursAt(x + " " + y, w, i)
    ensures i + |w| <= |x| || |x| < i
  {
    var s := x + " " + y;
    assert s[|x|] == ' ';
    assert forall j | i <= j < i + |w| :: s[j] == w[j - i] by {
      forall j | i <= j < i + |w| ensures s[j] == w[j - i] {
        assert s[i..i + |w|][j - i] == s[j];
      }
    }
  }

  /** A word without spaces found in `x + " " + y` lies in `x` or in `y`. */
  lemma SpaceSplits(x: string, y: string, w: string)
    requires ' ' !in w
    requires Includes(x + " " + y, w)
    ensures Includes(x, w) || Includes(y, w)
  {
    var s := x + " " + y;
    var i :| 0 <= i <= |s| - |w| && OccursAt(s, w, i);
    NoStraddle(x, y, w, i);
    if i + |w| <= |x| {
      assert s[..|x|] == x;
      assert x[i..i + |w|] == s[..|x|][i..i + |w|];
      assert OccursAt(x, w, i);
    } else if i > |x| {
      var j := i - |x| - 1;
      assert s[|x| + 1..] == y;
      assert y[j..j + |w|] == s[|x| + 1..][j..j + |w|];
      assert OccursAt(y, w, j);
    }
  }

  lemma LowerAroundSpace(a: string, b: string)
    ensures Lower(a + " " + b) == Lower(a) + " " + Lower(b)
  {
    LowerConcat(a + " ", b);
    LowerConcat(a, " ");
  }

  /** A word missing a letter from every space-separated part of the text is not in it. */
  lemma NotInWords(first: string, rest: string, w: string, c: char)
    requires ' ' !in w && c in w && 'a' <= c <= 'z'
    requires c !in first && (c as int - 32) as char !in first
    requires !Includes(Lower(rest), w)
    ensures !Includes(Lower(first + " " + rest), w)
  {
    MissingLetter(first, w, c);
    LowerAroundSpace(first, rest);
    if Includes(Lower(first) + " " + Lower(rest), w) {
      SpaceSplits(Lower(first), Lower(rest), w);
    }
  }

  /** A word written in lower case is found in the lower-cased text around it. */
  lemma WordIn(before: string, w: string, after: string)
    requires forall c :: c in w ==> !('A' <= c <= 'Z')
    ensures Includes(Lower(before + w + after), w)
  {
    var m := before + w + after;
    var i := |before|;
    forall k | 0 <= k < |w| ensures Lower(m)[i..i + |w|][k] == w[k] {
      assert m[i + k] == w[k];
      assert w[k] in w;
    }
    assert OccursAt(Lower(m), w, i);
  }

  /** The same for a capitalised word: `Lower` turns its capital into the small letter. */
  lemma CapitalizedWordIn(before: string, capital: char, tail: string, after: string)
    requires 'A' <= capital <= 'Z'
    requires forall c :: c in tail ==> !('A' <= c <= 'Z')
    ensures Includes(Lower(before + [capital] + tail + after), [LowerChar(capital)] + tail)
  {
    var m := before + [capital] + tail + after;
    var w := [LowerChar(capital)] + tail;
    var i := |before|;
    forall k | 0 <= k < |w| ensures Lower(m)[i..i + |w|][k] == w[k] {
      if k > 0 {
        assert m[i + k] == tail[k - 1];
        assert tail[k - 1] in tail;
      }
    }
    assert OccursAt(Lower(m), w, i);
  }

  /** "email" is in none of the words of "number already registered" (or "number is required"). */
  lemma NoEmailInTail(n: string, a: string, r: string)
    requires n == "number"
    requires (a == "already" && r == "registered") || (a == "is" && r == "required")
    ensures !Includes(Lower(n + " " + (a + " " + r)), "email")
  {
    assert !Includes(Lower(a + " " + r), "email") by {
      MissingLetter(r, "email", 'm');
      NotInWords(a, r, "email", 'm');
    }
    NotInWords(n, a + " " + r, "email", 'a');
  }

  lemma EmailMessagesRouted(m: string)
    requires m == "Email, password, and name are required" || m == "Email already registered"
    ensures RouteServerMessage(Some(m)) == FieldError(EmailSlot, m)
  {
    var w := "Email";
    assert m == w + m[5..];
    EmailAtStart(m);
  }

  /** A message that starts with "Email" goes to the email field. */
  lemma EmailAtStart(m: string)
    requires |m| >= 5 && m[..5] == "Email"
    ensures RouteServerMessage(Some(m)) == FieldError(EmailSlot, m)
  {
    assert m[0] == 'E' && m[1] == 'm' && m[2] == 'a' && m[3] == 'i' && m[4] == 'l';
    assert Lower(m)[..5] == "email";
    assert OccursAt(Lower(m), "email", 0);
  }

  /** "phone" is in none of the words of "number already registered" (or "number is required"). */
  lemma NoPhoneInTail(n: string, a: string, r: string)
    requires n == "number"
    requires (a == "already" && r == "registered") || (a == "is" && r == "required")
    ensures !Includes(Lower(n + " " + (a + " " + r)), "phone")
  {
    assert !Includes(Lower(a + " " + r), "phone") by {
      MissingLetter(r, "phone", 'p');
      NotInWords(a, r, "phone", 'p');
    }
    NotInWords(n, a + " " + r, "phone", 'p');
  }

  lemma PhoneMessageHasNoEmail(m: string, p: string, tail: string)
    requires p == "Phone"
    requires tail == "number" + " " + ("already" + " " + "registered")
    requires m == p + " " + tail
    ensures !Includes(Lower(m), "email")
  {
    NoEmailInTail("number", "already", "registered");
    NotInWords(p, tail, "email", 'a');
  }

  lemma PhoneInMessage(m: string, p: string, tail: string)
    requires p == "Phone"
    requires m == p + " " + tail
    ensures Includes(Lower(m), "phone")
  {
    assert p == ['P'] + "hone";
    assert m == [] + ['P'] + "hone" + (" " + tail);
    CapitalizedWordIn([], 'P', "hone", " " + tail);
    assert [LowerChar('P')] + "hone" == "phone";
  }

  /** "Phone number already registered", word by word. */
  lemma PhoneMessageRouted(m: string, p: string, n: string, a: string, r: string)
    requires p == "Phone" && n == "number" && a == "already" && r == "registered"
    requires m == p + " " + n + " " + a + " " + r
    ensures RouteServerMessage(Some(m)) == FieldError(PhoneSlot, m)
  {
    var tail := n + " " + (a + " " + r);
    assert m == p + " " + tail;
    PhoneMessageHasNoEmail(m, p, tail);
    PhoneInMessage(m, p, tail);
  }

  lemma LicenseMessageHasNeither(m: string, l: string, tail: string)
    requires l == "License"
    requires tail == "number" + " " + ("already" + " " + "registered")
    requires m == l + " " + tail
    ensures !Includes(Lower(m), "email") && !Includes(Lower(m), "phone")
  {
    assert !Includes(Lower(m), "email") by {
      NoEmailInTail("number", "already", "registered");
      NotInWords(l, tail, "email", 'm');
    }
    NoPhoneInTail("number", "already", "registered");
    NotInWords(l, tail, "phone", 'p');
  }

  /** "License number already registered", word by word. */
  lemma LicenseMessageRouted(m: string, l: string, n: string, a: string, r: string)
    requires l == "License" && n == "number" && a == "already" && r == "registered"
    requires m == l + " " + n + " " + a + " " + r
    ensures RouteServerMessage(Some(m)) == FieldError(LicenseSlot, m)
  {
    var tail := n + " " + (a + " " + r);
    assert m == l + " " + tail;
    LicenseMessageHasNeither(m, l, tail);
    assert l == ['L'] + "icense";
    assert m == [] + ['L'] + "icense" + (" " + tail);
    CapitalizedWordIn([], 'L', "icense", " " + tail);
    assert [LowerChar('L')] + "icense" == "license";
  }

  lemma LicenseRequiredHasNeither(m: string, d: string, l: string, tail: string)
    requires d == "Driver" && l == "license"
    requires tail == "number" + " " + ("is" + " " + "required")
    requires m == d + " " + (l + " " + tail)
    ensures !Includes(Lower(m), "email") && !Includes(Lower(m), "phone")
  {
    assert !Includes(Lower(l + " " + tail), "email") by {
      NoEmailInTail("number", "is", "required");
      NotInWords(l, tail, "email", 'm');
    }
    assert !Includes(Lower(l + " " + tail), "phone") by {
      NoPhoneInTail("number", "is", "required");
      NotInWords(l, tail, "phone", 'p');
    }
    assert !Includes(Lower(m), "email") by { NotInWords(d, l + " " + tail, "email", 'm'); }
    NotInWords(d, l + " " + tail, "phone", 'p');
  }

  /** "Driver license number is required", word by word. */
  lemma LicenseRequiredRouted(m: string, d: string, l: string, n: string, i: string, r: string)
    requires d == "Driver" && l == "license" && n == "number" && i == "is" && r == "required"
    requires m == d + " " + l + " " + n + " " + i + " " + r
    ensures RouteServerMessage(Some(m)) == FieldError(LicenseSlot, m)
  {
    var tail := n + " " + (i + " " + r);
    assert m == d + " " + (l + " " + tail);
    LicenseRequiredHasNeither(m, d, l, tail);
    LicenseInRequired(m, d, l, tail);
  }

  lemma LicenseInRequired(m: string, d: string, l: string, tail: string)
    requires l == "license"
    requires m == d + " " + (l + " " + tail)
    ensures Includes(Lower(m), "license")
  {
    assert m == (d + " ") + l + (" " + tail);
    WordIn(d + " ", l, " " + tail);
  }

  lemma PhoneRegisteredRouted()
    ensures RouteServerMessage(Some("Phone number already registered"))
         == FieldError(PhoneSlot, "Phone number already registered")
  {
    PhoneMessageRouted("Phone number already registered", "Phone", "number", "already", "registered");
  }

  lemma LicenseRegisteredRouted()
    ensures RouteServerMessage(Some("License number already registered"))
         == FieldError(LicenseSlot, "License number already registered")
  {
    LicenseMessageRouted("License number already registered", "License", "number", "already", "registered");
  }

  lemma LicenseMissingRouted()
    ensures RouteServerMessage(Some("Driver license number is required"))
         == FieldError(LicenseSlot, "Driver license number is required")
  {
    LicenseRequiredRouted("Driver license number is required", "Driver", "license", "number", "is", "required");
  }

  /** Each rejection of a driver registration lands next to the field it is about: the two
      email messages at the email field, the phone message at the phone field, the two licence
      messages at the licence field. */
  lemma RegisterRejectionsRouted(users: map<int, User>, input: Input)
    requires RegisterRejection(users, input).Some?
    ensures var m := RegisterRejection(users, input).value;
      RouteServerMessage(Some(m)) == FieldError(
        if m == "Phone number already registered" then PhoneSlot
        else if m == "Driver license number is required" || m == "License number already registered" then LicenseSlot
        else EmailSlot, m)
  {
    var m := RegisterRejection(users, input).value;
    if m == "Phone number already registered" {
      PhoneRegisteredRouted();
    } else if m == "Driver license number is required" {
      LicenseMissingRouted();
    } else if m == "License number already registered" {
      LicenseRegisteredRouted();
    } else {
      EmailMessagesRouted(m);
    }
  }
}
