/** The sign-up and login form checks of the web frontend
    (frontend/src/lib/utils/validate.ts). Each returns the message to show,
    or None when the field is acceptable. */
module Validate {
  import opened Errors

  const EmailRequired := "Email is required"
  const EmailInvalid := "Please enter a valid email address"
  const PasswordRequired := "Password is required"
  const PasswordTooShort := "Password must be at least 8 characters long"
  const ConfirmRequired := "Please confirm your password"
  const PasswordsDiffer := "Passwords do not match"

  /** The minimum password length, in UTF-16 code units. */
  const MinPasswordLength := 8

  // ------------------------------------------------------------------ email

  /** The `\s` class of ECMAScript regular expressions: the WhiteSpace and
      LineTerminator code points of ECMA-262 (tab, line feed, vertical tab,
      form feed, carriage return, the Unicode space separators, the line and
      paragraph separators and the byte order mark). */
  predicate IsSpace(c: char) {
    var n := c as int;
    || (0x09 <= n <= 0x0D) || n == 0x20 || n == 0xA0 || n == 0x1680
    || (0x2000 <= n <= 0x200A) || n == 0x2028 || n == 0x2029 || n == 0x202F
    || n == 0x205F || n == 0x3000 || n == 0xFEFF
  }

  /** The class `[^\s@]`. */
  predicate InClass(c: char) {
    !IsSpace(c) && c != '@'
  }

  predicate AllInClass(t: string) {
    forall k | 0 <= k < |t| :: InClass(t[k])
  }

  /** `^[^\s@]+@[^\s@]+\.[^\s@]+$` read literally: three non-empty runs of the
      class, joined by an '@' and a '.'. A character outside the Basic
      Multilingual Plane is two code units to the pattern, neither of them
      space or '@', so matching by characters agrees with matching by units. */
  ghost predicate MatchesPattern(s: string) {
    exists at, dot ::
      && 0 < at && at + 1 < dot && dot + 1 < |s|
      && AllInClass(s[..at]) && s[at] == '@' && AllInClass(s[at + 1..dot])
      && s[dot] == '.' && AllInClass(s[dot + 1..])
  }

  /** The positions of '@' in `s`. */
  function AtSigns(s: string): (ids: set<nat>)
    ensures forall i: nat :: i in ids <==> i < |s| && s[i] == '@'
  {
    set i: nat | i < |s| && s[i] == '@'
  }

  /** The same shape stated field by field: no whitespace, exactly one '@',
      a non-empty local part, and a domain with a '.' that is neither its
      first nor its last character. */
  predicate WellShaped(s: string) {
    && (forall k | 0 <= k < |s| :: !IsSpace(s[k]))
    && exists at | 0 < at < |s| ::
         && s[at] == '@' && AtSigns(s) == {at}
         && exists dot | at + 1 < dot < |s| - 1 :: s[dot] == '.'
  }

  /** A string the pattern matches is well shaped. */
  lemma {:induction false} PatternGivesShape(s: string)
    requires MatchesPattern(s)
    ensures WellShaped(s)
  {
    var at, dot :|
      && 0 < at && at + 1 < dot && dot + 1 < |s|
      && AllInClass(s[..at]) && s[at] == '@' && AllInClass(s[at + 1..dot])
      && s[dot] == '.' && AllInClass(s[dot + 1..]);
    var local, domain, top := s[..at], s[at + 1..dot], s[dot + 1..];
    forall k | 0 <= k < |s| && k != at
      ensures InClass(s[k])
    {
      if k < at {
        assert local[k] == s[k];
      } else if k < dot {
        assert domain[k - at - 1] == s[k];
      } else if k > dot {
        assert top[k - dot - 1] == s[k];
      }
    }
    assert forall k | 0 <= k < |s| :: !IsSpace(s[k]);
    assert AtSigns(s) == {at};
  }

  /** A well-shaped string is matched by the pattern, splitting at its '@'
      and at any inner '.' of the domain. */
  lemma {:induction false} ShapeGivesPattern(s: string)
    requires WellShaped(s)
    ensures MatchesPattern(s)
  {
    var at :| 0 < at < |s| && s[at] == '@' && AtSigns(s) == {at} && exists dot | at + 1 < dot < |s| - 1 :: s[dot] == '.';
    var dot :| at + 1 < dot < |s| - 1 && s[dot] == '.';
    forall k | 0 <= k < |s| && k != at
      ensures InClass(s[k])
    {
      assert k !in AtSigns(s);
    }
    var local, domain, top := s[..at], s[at + 1..dot], s[dot + 1..];
    assert AllInClass(local) by {
      forall k | 0 <= k < |local| ensures InClass(local[k]) { assert local[k] == s[k]; }
    }
    assert AllInClass(domain) by {
      forall k | 0 <= k < |domain| ensures InClass(domain[k]) { assert domain[k] == s[at + 1 + k]; }
    }
    assert AllInClass(top) by {
      forall k | 0 <= k < |top| ensures InClass(top[k]) { assert top[k] == s[dot + 1 + k]; }
    }
  }

  /** The two readings of the pattern agree on every string. */
  lemma PatternIsWellShaped(s: string)
    ensures MatchesPattern(s) <==> WellShaped(s)
  {
    if MatchesPattern(s) { PatternGivesShape(s); }
    if WellShaped(s) { ShapeGivesPattern(s); }
  }

  /** validateEmail: emptiness is checked before the pattern. */
  function ValidateEmail(email: string): (r: Option<string>)
    ensures r == Some(EmailRequired) <==> email == []
    ensures r == Some(EmailInvalid) <==> email != [] && !MatchesPattern(email)
    ensures r == None <==> MatchesPattern(email)
  {
    PatternIsWellShaped(email);
    if email == [] then Some(EmailRequired)
    else if !WellShaped(email) then Some(EmailInvalid)
    else None
  }

  // --------------------------------------------------------------- password

  /** JavaScript's `length`: UTF-16 code units, two for a character outside
      the Basic Multilingual Plane. */
  function Utf16Length(s: string): (n: nat)
    ensures |s| <= n <= 2 * |s|
    ensures n == |s| <==> forall k | 0 <= k < |s| :: s[k] as int <= 0xFFFF
  {
    if s == [] then 0
    else (if s[0] as int > 0xFFFF then 2 else 1) + Utf16Length(s[1..])
  }

  /** validatePassword. */
  function ValidatePassword(password: string): (r: Option<string>)
    ensures r == Some(PasswordRequired) <==> password == []
    ensures r == Some(PasswordTooShort) <==> password != [] && Utf16Length(password) < MinPasswordLength
    ensures r == None <==> Utf16Length(password) >= MinPasswordLength
  {
    if password == [] then Some(PasswordRequired)
    else if Utf16Length(password) < MinPasswordLength then Some(PasswordTooShort)
    else None
  }

  /** The length is counted in code units, so four characters from outside
      the Basic Multilingual Plane make an acceptable password. */
  lemma FourAstralCharactersSuffice()
    ensures ValidatePassword("\U{1F600}\U{1F600}\U{1F600}\U{1F600}") == None
  {
    var p := "\U{1F600}\U{1F600}\U{1F600}\U{1F600}";
    assert Utf16Length(p[3..]) == 2;
  }

  /** validateConfirmPassword: the confirmation is checked for emptiness
      before it is compared. */
  function ValidateConfirmPassword(password: string, confirmPassword: string): (r: Option<string>)
    ensures r == Some(ConfirmRequired) <==> confirmPassword == []
    ensures r == Some(PasswordsDiffer) <==> confirmPassword != [] && confirmPassword != password
    ensures r == None <==> confirmPassword != [] && confirmPassword == password
  {
    if confirmPassword == [] then Some(ConfirmRequired)
    else if password != confirmPassword then Some(PasswordsDiffer)
    else None
  }

  /** A password that passes its own check can always be confirmed, and an
      empty password never can. */
  lemma ConfirmAcceptsOnlyTheSame(password: string, confirmPassword: string)
    ensures ValidatePassword(password) == None ==> ValidateConfirmPassword(password, password) == None
    ensures password == [] ==> ValidateConfirmPassword(password, confirmPassword).Some?
  {
  }
}
