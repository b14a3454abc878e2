/** The password-strength rule of `utils.py`: at least eight characters,
    then an uppercase letter, a lowercase letter and a digit, checked in that
    order, the first failure's message returned. Python's `str.isupper`,
    `str.islower` and `str.isdigit` are Unicode tables; here they are the
    character classes a caller supplies. */
module Password {

  /** The three character tests. */
  datatype Classes = Classes(isUpper: char -> bool, isLower: char -> bool, isDigit: char -> bool)

  const MIN_LENGTH: nat := 8

  const TOO_SHORT: string := "Password must be at least 8 characters long"
  const NO_UPPER: string := "Password must contain at least one uppercase letter"
  const NO_LOWER: string := "Password must contain at least one lowercase letter"
  const NO_DIGIT: string := "Password must contain at least one number"

  /** `any(p(c) for c in s)`. */
  predicate AnyChar(s: string, p: char -> bool) {
    exists i :: 0 <= i < |s| && p(s[i])
  }

  /** `validate_password_strength`. */
  function ValidatePasswordStrength(cl: Classes, password: string): (r: (bool, string))
    ensures r.0 <==> r.1 == ""
    ensures r.0 <==> |password| >= MIN_LENGTH && AnyChar(password, cl.isUpper) && AnyChar(password, cl.isLower)
                     && AnyChar(password, cl.isDigit)
  {
    if |password| < MIN_LENGTH then (false, TOO_SHORT)
    else if !AnyChar(password, cl.isUpper) then (false, NO_UPPER)
    else if !AnyChar(password, cl.isLower) then (false, NO_LOWER)
    else if !AnyChar(password, cl.isDigit) then (false, NO_DIGIT)
    else (true, "")
  }

  /** Every rule the password breaks, in the order of lines 11-21. */
  function Failures(cl: Classes, password: string): seq<string> {
    (if |password| < MIN_LENGTH then [TOO_SHORT] else [])
    + (if !AnyChar(password, cl.isUpper) then [NO_UPPER] else [])
    + (if !AnyChar(password, cl.isLower) then [NO_LOWER] else [])
    + (if !AnyChar(password, cl.isDigit) then [NO_DIGIT] else [])
  }

  /** The verdict reports the first broken rule, and passes exactly when no
      rule is broken. */
  lemma FirstFailureReported(cl: Classes, password: string)
    ensures var r := ValidatePasswordStrength(cl, password);
      var f := Failures(cl, password);
      (r == (true, "") <==> f == []) && (f != [] ==> r == (false, f[0]))
  {
  }

  /** The scan behind `any`: the loop stops at the first character that
      passes the test. */
  method HasAny(s: string, p: char -> bool) returns (found: bool)
    ensures found <==> AnyChar(s, p)
  {
    var i := 0;
    while i < |s|
      invariant 0 <= i <= |s|
      invariant forall j :: 0 <= j < i ==> !p(s[j])
    {
      if p(s[i]) {
        return true;
      }
      i := i + 1;
    }
    return false;
  }

  /** The checks as the source runs them, one generator scan at a time. */
  method CheckPassword(cl: Classes, password: string) returns (ok: bool, message: string)
    ensures (ok, message) == ValidatePasswordStrength(cl, password)
  {
    if |password| < MIN_LENGTH {
      return false, TOO_SHORT;
    }
    var upper := HasAny(password, cl.isUpper);
    if !upper {
      return false, NO_UPPER;
    }
    var lower := HasAny(password, cl.isLower);
    if !lower {
      return false, NO_LOWER;
    }
    var digit := HasAny(password, cl.isDigit);
    if !digit {
      return false, NO_DIGIT;
    }
    return true, "";
  }

  /** The ASCII part of Python's tables. */
  function Ascii(): Classes {
    Classes((c: char) => 'A' <= c <= 'Z', (c: char) => 'a' <= c <= 'z', (c: char) => '0' <= c <= '9')
  }

  /** A long lowercase password with a digit is refused for its missing
      uppercase letter, even though it is long enough. */
  lemma LowercaseOnlyNeedsUpper()
    ensures ValidatePasswordStrength(Ascii(), "password1") == (false, NO_UPPER)
    ensures ValidatePasswordStrength(Ascii(), "Password1") == (true, "")
  {
    var cl := Ascii();
    assert cl.isUpper("Password1"[0]) && cl.isLower("Password1"[1]) && cl.isDigit("Password1"[8]);
    assert !AnyChar("password1", cl.isUpper) by {
      forall i | 0 <= i < |"password1"| ensures !cl.isUpper("password1"[i]) {
      }
    }
  }
}
