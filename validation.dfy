/**
 * The client-side checks of the login and signup forms: the two regular-expression tests, the
 * ordered error lists of the signup and login pages, the digits-only filter of the college-id
 * input, and the choice between the two rule sets on submit.
 */
module Validation {
  import opened Wrappers
  import opened Text
  import Seqs

  // ---- The two regular-expression tests ----

  /** Every character is one that `\d` matches. */
  predicate AllDigits(s: string) {
    forall i :: 0 <= i < |s| ==> IsDigit(s[i])
  }

  /** `isNumericStr`: `^\d+$` tested on the trimmed text. */
  function IsNumericStr(s: string): (b: bool)
    ensures b ==> Trim(s) != ""
  {
    var t := Trim(s);
    t != "" && AllDigits(t)
  }

  /** `s.lastIndexOf(c)`: the last position of `c`, or -1. */
  function LastIndexOf(s: string, c: char): (i: int)
    ensures -1 <= i < |s|
    ensures i == -1 <==> c !in s
    ensures 0 <= i ==> s[i] == c && c !in s[i + 1..]
    decreases |s|
  {
    if s == [] then -1
    else if s[|s| - 1] == c then |s| - 1
    else
      var i := LastIndexOf(s[..|s| - 1], c);
      assert s[..|s| - 1] + [s[|s| - 1]] == s;
      i
  }

  /** `t` reads `a@b.c` with the `@` at `i`, the `.` at `j` and `a`, `b`, `c` non-empty. */
  predicate EmailAt(t: string, i: int, j: int) {
    0 < i && i + 1 < j && j + 1 < |t| && t[i] == '@' && t[j] == '.'
  }

  /**
   * `isValidEmail`: `^\S+@\S+\.\S+$` tested on the trimmed text. The match is found the way a
   * backtracking matcher settles it: the earliest `@` after the first character and the latest
   * `.` before the last one.
   */
  function IsValidEmail(s: string): (b: bool)
    ensures b ==> Trim(s) != ""
  {
    var t := Trim(s);
    if |t| < 2 || !NoSpace(t) then false
    else
      var a := IndexOf(t[1..], '@');
      var d := LastIndexOf(t[..|t| - 1], '.');
      0 <= a && 0 <= d && a + 2 < d
  }

  /**
   * The scan of `IsValidEmail` accepts exactly the trimmed texts without whitespace that have the
   * shape `a@b.c` with non-empty `a`, `b` and `c` (`\S` also matches `@` and `.`).
   */
  lemma IsValidEmailShape(s: string)
    ensures IsValidEmail(s) <==> var t := Trim(s); NoSpace(t) && exists i, j :: EmailAt(t, i, j)
  {
    var t := Trim(s);
    if IsValidEmail(s) {
      var a := IndexOf(t[1..], '@');
      var d := LastIndexOf(t[..|t| - 1], '.');
      assert t[1..][a] == t[a + 1];
      assert t[..|t| - 1][d] == t[d];
      assert EmailAt(t, a + 1, d);
    }
    if NoSpace(t) && exists i, j :: EmailAt(t, i, j) {
      var i, j :| EmailAt(t, i, j);
      assert t[1..][i - 1] == '@';
      assert t[..|t| - 1][j] == '.';
    }
  }

  // ---- The college-id input filter ----

  /** The input handler of the college-id field: `value.replace(/\D+/g, '')`. */
  function CleanCollegeId(value: string): string {
    Seqs.Keep(value, IsDigit)
  }

  /**
   * The filter leaves only digits, in their order, drops nothing that is a digit, and a second pass
   * changes nothing (so the handler's `value !== cleaned` test fails on its own output).
   */
  lemma CleanCollegeIdDigits(value: string)
    ensures AllDigits(CleanCollegeId(value))
    ensures forall i :: 0 <= i < |value| && IsDigit(value[i]) ==> value[i] in CleanCollegeId(value)
    ensures CleanCollegeId(CleanCollegeId(value)) == CleanCollegeId(value)
  {
    Seqs.KeepAll(CleanCollegeId(value), IsDigit);
  }

  /** A filtered college id is numeric exactly when it is not empty. */
  lemma CleanCollegeIdNumeric(value: string)
    ensures IsNumericStr(CleanCollegeId(value)) <==> CleanCollegeId(value) != ""
  {
    var c := CleanCollegeId(value);
    CleanCollegeIdDigits(value);
    assert NoSpace(c) by {
      forall i | 0 <= i < |c| ensures !IsSpace(c[i]) {
        assert IsDigit(c[i]);
      }
    }
    TrimNoSpace(c);
  }

  /** `isNumericStr` holds exactly when the trimmed text is non-empty and the filter keeps all of it. */
  lemma IsNumericStrFixpoint(s: string)
    ensures IsNumericStr(s) <==> Trim(s) != "" && CleanCollegeId(Trim(s)) == Trim(s)
  {
    var t := Trim(s);
    if AllDigits(t) {
      Seqs.KeepAll(t, IsDigit);
    }
    if CleanCollegeId(t) == t {
      CleanCollegeIdDigits(t);
    }
  }

  // ---- The error lists ----

  /** The field values the submit handler gathers; an absent element contributes `''`. */
  datatype Values = Values(firstname: string, email: string, collegeid: string, role: string,
                           password: string, repeatPassword: string)

  /** One check of the forms, named after the message it reports. */
  datatype Rule =
    | NameRequired | EmailRequired | EmailFormat | IdRequired | IdNumeric | RoleRequired
    | PasswordRequired | PasswordShort | Mismatch

  /** The message each check pushes when it fails. */
  function Message(r: Rule): string {
    match r
    case NameRequired => NameRequiredText
    case EmailRequired => EmailRequiredText
    case EmailFormat => EmailFormatText
    case IdRequired => IdRequiredText
    case IdNumeric => IdNumericText
    case RoleRequired => RoleRequiredText
    case PasswordRequired => PasswordRequiredText
    case PasswordShort => PasswordShortText
    case Mismatch => MismatchText
  }

  const NameRequiredText: string := "Name is required"
  const EmailRequiredText: string := "Email is required"
  const EmailFormatText: string := "Invalid email format"
  const IdRequiredText: string := "College ID is required"
  const IdNumericText: string := "College ID must be numeric"
  const RoleRequiredText: string := "Role is required"
  const PasswordRequiredText: string := "Password is required"
  const PasswordShortText: string := "Password must be at least 8 characters"
  const MismatchText: string := "Passwords do not match"

  /** Different checks report different messages. */
  lemma MessageInjective(r: Rule, q: Rule)
    ensures r != q ==> Message(r) != Message(q)
  {
    if r != q {
      assert |Message(r)| != |Message(q)| || Message(r)[0] != Message(q)[0];
    }
  }

  /**
   * Whether the check fails on the values. A string is falsy exactly when it is empty, so
   * `!x || x.trim() === ''` is a blank trimmed text; the second check of a field applies only when
   * its first passes.
   */
  predicate Breaks(v: Values, r: Rule) {
    match r
    case NameRequired => Trim(v.firstname) == ""
    case EmailRequired => Trim(v.email) == ""
    case EmailFormat => Trim(v.email) != "" && !IsValidEmail(v.email)
    case IdRequired => Trim(v.collegeid) == ""
    case IdNumeric => Trim(v.collegeid) != "" && !IsNumericStr(v.collegeid)
    case RoleRequired => v.role == ""
    case PasswordRequired => v.password == ""
    case PasswordShort => v.password != "" && |v.password| < 8
    case Mismatch => v.password != v.repeatPassword
  }

  /** The checks that fail on `v`, as a filter. */
  function Failing(v: Values): Rule -> bool {
    r => Breaks(v, r)
  }

  /** What one check pushes: its message when it fails, nothing otherwise. */
  function Push(v: Values, r: Rule): seq<string> {
    if Breaks(v, r) then [Message(r)] else []
  }

  /**
   * What a field with two checks pushes: the first check's message when it fails, otherwise the
   * second's when that one fails (an `if … else if …` of two pushes).
   */
  function Either(v: Values, r: Rule, q: Rule): seq<string> {
    if Breaks(v, r) then [Message(r)] else if Breaks(v, q) then [Message(q)] else []
  }

  /** The checks of the signup page, in the order they push their messages. */
  const SignupRules: seq<Rule> :=
    [NameRequired, EmailRequired, EmailFormat, IdRequired, IdNumeric, RoleRequired,
     PasswordRequired, PasswordShort, Mismatch]

  /** The checks of the login page, in order. */
  const LoginRules: seq<Rule> := [IdRequired, IdNumeric, PasswordRequired]

  /** The error list of `getSignupErrors`: each field's pushes, one field after another. */
  function SignupErrors(v: Values): seq<string> {
    Push(v, NameRequired)
    + Either(v, EmailRequired, EmailFormat)
    + Either(v, IdRequired, IdNumeric)
    + Push(v, RoleRequired)
    + Either(v, PasswordRequired, PasswordShort)
    + Push(v, Mismatch)
  }

  /** The error list of `getLoginErrors`. */
  function LoginErrors(v: Values): seq<string> {
    Either(v, IdRequired, IdNumeric) + Push(v, PasswordRequired)
  }

  /**
   * `getSignupErrors`: one `push` per failing check, in the order name, email, college id, role,
   * password, match.
   */
  method GetSignupErrors(v: Values) returns (errors: seq<string>)
    ensures errors == SignupErrors(v)
  {
    errors := [];
    if Trim(v.firstname) == "" {
      errors := errors + [Message(NameRequired)];
    }
    ghost var name := errors;
    assert name == Push(v, NameRequired);
    if Trim(v.email) == "" {
      errors := errors + [Message(EmailRequired)];
    } else if !IsValidEmail(v.email) {
      errors := errors + [Message(EmailFormat)];
    }
    ghost var email := errors;
    assert email == name + Either(v, EmailRequired, EmailFormat);
    if Trim(v.collegeid) == "" {
      errors := errors + [Message(IdRequired)];
    } else if !IsNumericStr(v.collegeid) {
      errors := errors + [Message(IdNumeric)];
    }
    ghost var id := errors;
    assert id == email + Either(v, IdRequired, IdNumeric);
    if v.role == "" {
      errors := errors + [Message(RoleRequired)];
    }
    ghost var role := errors;
    assert role == id + Push(v, RoleRequired);
    if v.password == "" {
      errors := errors + [Message(PasswordRequired)];
    } else if |v.password| < 8 {
      errors := errors + [Message(PasswordShort)];
    }
    ghost var password := errors;
    assert password == role + Either(v, PasswordRequired, PasswordShort);
    if v.password != v.repeatPassword {
      errors := errors + [Message(Mismatch)];
    }
    assert errors == password + Push(v, Mismatch);
  }

  /** `getLoginErrors`: the college-id checks, then whether a password was given. */
  method GetLoginErrors(v: Values) returns (errors: seq<string>)
    ensures errors == LoginErrors(v)
  {
    errors := [];
    if Trim(v.collegeid) == "" {
      errors := errors + [Message(IdRequired)];
    } else if !IsNumericStr(v.collegeid) {
      errors := errors + [Message(IdNumeric)];
    }
    if v.password == "" {
      errors := errors + [Message(PasswordRequired)];
    }
  }

  function Messages(rules: seq<Rule>): (r: seq<string>)
    ensures |r| == |rules|
    ensures forall i :: 0 <= i < |rules| ==> r[i] == Message(rules[i])
    decreases |rules|
  {
    if rules == [] then [] else [Message(rules[0])] + Messages(rules[1..])
  }

  /** The messages a run of checks reports: those of its failing checks, in order. */
  function Group(v: Values, rules: seq<Rule>): seq<string> {
    Messages(Seqs.Keep(rules, Failing(v)))
  }

  lemma {:induction false} MessagesAppend(a: seq<Rule>, b: seq<Rule>)
    ensures Messages(a + b) == Messages(a) + Messages(b)
    decreases |a|
  {
    if a == [] {
      assert a + b == b;
    } else {
      assert (a + b)[0] == a[0] && (a + b)[1..] == a[1..] + b;
      MessagesAppend(a[1..], b);
    }
  }

  /** Two runs of checks one after the other report one run's messages after the other's. */
  lemma GroupAppend(v: Values, a: seq<Rule>, b: seq<Rule>)
    ensures Group(v, a + b) == Group(v, a) + Group(v, b)
  {
    Seqs.KeepAppend(a, b, Failing(v));
    MessagesAppend(Seqs.Keep(a, Failing(v)), Seqs.Keep(b, Failing(v)));
  }

  /** A run of one check reports what it pushes. */
  lemma GroupOne(v: Values, r: Rule)
    ensures Group(v, [r]) == Push(v, r)
  {
    assert [r][1..] == [];
  }

  /** A run of two checks that cannot fail together reports at most the first failing one. */
  lemma GroupPair(v: Values, r: Rule, q: Rule)
    requires !(Breaks(v, r) && Breaks(v, q))
    ensures Group(v, [r, q]) == Either(v, r, q)
  {
    assert [r, q] == [r] + [q];
    GroupAppend(v, [r], [q]);
    GroupOne(v, r);
    GroupOne(v, q);
  }

  /**
   * The signup errors are the messages of exactly the failing checks, in the fixed rule order
   * (name, email, college id, role, password, match).
   */
  lemma SignupErrorsFilter(v: Values)
    ensures SignupErrors(v) == Group(v, SignupRules)
  {
    var n, e, i, r, p, m := [NameRequired], [EmailRequired, EmailFormat], [IdRequired, IdNumeric],
      [RoleRequired], [PasswordRequired, PasswordShort], [Mismatch];
    assert SignupRules == n + e + i + r + p + m;
    GroupAppend(v, n + e + i + r + p, m);
    GroupAppend(v, n + e + i + r, p);
    GroupAppend(v, n + e + i, r);
    GroupAppend(v, n + e, i);
    GroupAppend(v, n, e);
    GroupOne(v, NameRequired);
    GroupPair(v, EmailRequired, EmailFormat);
    GroupPair(v, IdRequired, IdNumeric);
    GroupOne(v, RoleRequired);
    GroupPair(v, PasswordRequired, PasswordShort);
    GroupOne(v, Mismatch);
  }

  /** The login errors are the messages of the failing login checks, in rule order. */
  lemma LoginErrorsFilter(v: Values)
    ensures LoginErrors(v) == Group(v, LoginRules)
  {
    assert LoginRules == [IdRequired, IdNumeric] + [PasswordRequired];
    GroupAppend(v, [IdRequired, IdNumeric], [PasswordRequired]);
    GroupPair(v, IdRequired, IdNumeric);
    GroupOne(v, PasswordRequired);
  }

  /** A check's message is among the errors of `rules` exactly when the check is one of them and fails. */
  lemma FilterIff(v: Values, rules: seq<Rule>, r: Rule)
    ensures Message(r) in Group(v, rules) <==> r in rules && Breaks(v, r)
  {
    var kept := Seqs.Keep(rules, Failing(v));
    if Message(r) in Messages(kept) {
      var i :| 0 <= i < |kept| && Messages(kept)[i] == Message(r);
      MessageInjective(kept[i], r);
    }
    if r in rules && Breaks(v, r) {
      var k :| 0 <= k < |kept| && kept[k] == r;
      assert Messages(kept)[k] == Message(r);
    }
  }

  /** Each message of the signup page appears exactly when its check fails. */
  lemma SignupMessages(v: Values, r: Rule)
    ensures Message(r) in SignupErrors(v) <==> Breaks(v, r)
  {
    SignupErrorsFilter(v);
    FilterIff(v, SignupRules, r);
    SignupRulesAll(r);
  }

  /** The signup page runs every check. */
  lemma SignupRulesAll(r: Rule)
    ensures r in SignupRules
  {
    match r
    case NameRequired => assert SignupRules[0] == r;
    case EmailRequired => assert SignupRules[1] == r;
    case EmailFormat => assert SignupRules[2] == r;
    case IdRequired => assert SignupRules[3] == r;
    case IdNumeric => assert SignupRules[4] == r;
    case RoleRequired => assert SignupRules[5] == r;
    case PasswordRequired => assert SignupRules[6] == r;
    case PasswordShort => assert SignupRules[7] == r;
    case Mismatch => assert SignupRules[8] == r;
  }

  /** Every signup field is acceptable. */
  predicate SignupValid(v: Values) {
    && Trim(v.firstname) != ""
    && IsValidEmail(v.email)
    && IsNumericStr(v.collegeid)
    && v.role != ""
    && |v.password| >= 8
    && v.password == v.repeatPassword
  }

  /** Both login fields are acceptable. */
  predicate LoginValid(v: Values) {
    IsNumericStr(v.collegeid) && v.password != ""
  }

  /** The signup page reports nothing exactly when every field is acceptable. */
  lemma SignupErrorsEmpty(v: Values)
    ensures SignupErrors(v) == [] <==> SignupValid(v)
  {
    if SignupErrors(v) == [] {
      assert Push(v, PasswordRequired) == [] && Push(v, PasswordShort) == [];
    }
  }

  /** The login page reports nothing exactly when both fields are acceptable. */
  lemma LoginErrorsEmpty(v: Values)
    ensures LoginErrors(v) == [] <==> LoginValid(v)
  {
    if LoginErrors(v) == [] {
      assert Either(v, IdRequired, IdNumeric) == [];
    }
  }

  /**
   * The email field yields at most one error: the "required" one when blank, otherwise the
   * "format" one when the check fails. The college id behaves the same way.
   */
  lemma OneErrorPerField(v: Values)
    ensures var e := SignupErrors(v);
      && ("Email is required" in e <==> Trim(v.email) == "")
      && ("Invalid email format" in e <==> Trim(v.email) != "" && !IsValidEmail(v.email))
      && !("Email is required" in e && "Invalid email format" in e)
      && ("College ID is required" in e <==> Trim(v.collegeid) == "")
      && ("College ID must be numeric" in e <==> Trim(v.collegeid) != "" && !IsNumericStr(v.collegeid))
      && !("College ID is required" in e && "College ID must be numeric" in e)
  {
    SignupMessages(v, EmailRequired);
    SignupMessages(v, EmailFormat);
    SignupMessages(v, IdRequired);
    SignupMessages(v, IdNumeric);
  }

  /**
   * A missing or short password yields exactly one of the two password errors; the mismatch error
   * depends only on the two passwords differing, so two empty passwords give none.
   */
  lemma PasswordErrors(v: Values)
    ensures var e := SignupErrors(v);
      && (v.password == "" || |v.password| < 8 <==>
            ("Password is required" in e) != ("Password must be at least 8 characters" in e))
      && ("Passwords do not match" in e <==> v.password != v.repeatPassword)
      && (v.password == "" && v.repeatPassword == "" ==> "Passwords do not match" !in e)
  {
    SignupMessages(v, PasswordRequired);
    SignupMessages(v, PasswordShort);
    SignupMessages(v, Mismatch);
  }

  /** The signup errors are at most six, one per field group. */
  lemma SignupErrorsAtMostSix(v: Values)
    ensures |SignupErrors(v)| <= 6
  {
  }

  /** The login page has no length rule and checks neither name, email nor role. */
  lemma LoginChecksOnly(v: Values)
    ensures var e := LoginErrors(v);
      && "Password must be at least 8 characters" !in e
      && "Name is required" !in e && "Email is required" !in e && "Role is required" !in e
      && ("Password is required" in e <==> v.password == "")
  {
    LoginErrorsFilter(v);
    FilterIff(v, LoginRules, PasswordShort);
    FilterIff(v, LoginRules, NameRequired);
    FilterIff(v, LoginRules, EmailRequired);
    FilterIff(v, LoginRules, RoleRequired);
    FilterIff(v, LoginRules, PasswordRequired);
    assert LoginRules[2] == PasswordRequired;
  }

  // ---- The submit handler ----

  /** Which of the form's elements the page has, with their values. */
  datatype Page = Page(firstname: Option<string>, email: Option<string>, collegeid: Option<string>,
                       role: Option<string>, password: Option<string>, repeatPassword: Option<string>)

  /** The values the submit handler gathers: `''` for every absent element. */
  function Gather(p: Page): Values {
    Values(p.firstname.GetOr(""), p.email.GetOr(""), p.collegeid.GetOr(""), p.role.GetOr(""),
           p.password.GetOr(""), p.repeatPassword.GetOr(""))
  }

  /** The signup rules apply when a signup-only element (name, repeat password, role) is present. */
  predicate IsSignupPage(p: Page) {
    p.firstname.Some? || p.repeatPassword.Some? || p.role.Some?
  }

  /** The errors the submit handler computes. */
  function SubmitErrors(p: Page): seq<string> {
    if IsSignupPage(p) then SignupErrors(Gather(p)) else LoginErrors(Gather(p))
  }

  /**
   * Whether the submit goes ahead (the handler prevents it when there are errors): on a signup page
   * every signup field must be acceptable, on any other page only the college id and password.
   */
  function Accepts(p: Page): (ok: bool)
    ensures ok <==> if IsSignupPage(p) then SignupValid(Gather(p)) else LoginValid(Gather(p))
  {
    SignupErrorsEmpty(Gather(p));
    LoginErrorsEmpty(Gather(p));
    SubmitErrors(p) == []
  }

  /** A signup page without an email element always reports the email as required. */
  lemma SignupWithoutEmail(p: Page)
    requires IsSignupPage(p) && p.email.None?
    ensures "Email is required" in SubmitErrors(p)
    ensures !Accepts(p)
  {
    SignupMessages(Gather(p), EmailRequired);
  }
}
