/** The registration body and its password rule (app/api/user/schema.py). */
module UserSchema {
  import opened Outcomes

  datatype UserRequest = UserRequest(email: string, username: string, password: string)

  const WeakPassword := "Password must contain at least: eight symbols, one lower character, one upper character, one digit"

  predicate IsLower(c: char) { 'a' <= c <= 'z' }
  predicate IsUpper(c: char) { 'A' <= c <= 'Z' }
  /** ASCII digits only; see README for Python's wider `\d`. */
  predicate IsDigit(c: char) { '0' <= c <= '9' }

  predicate HasLower(s: string) { exists i :: 0 <= i < |s| && IsLower(s[i]) }
  predicate HasUpper(s: string) { exists i :: 0 <= i < |s| && IsUpper(s[i]) }
  predicate HasDigit(s: string) { exists i :: 0 <= i < |s| && IsDigit(s[i]) }
  predicate NoNewline(s: string) { forall i :: 0 <= i < |s| ==> s[i] != '\n' }

  /** The characters before the first newline: what `.` can reach from the
      start of the string. */
  function FirstLine(s: string): (r: string)
    ensures NoNewline(r) && r <= s
    ensures |r| < |s| ==> s[|r|] == '\n'
  {
    if s == [] || s[0] == '\n' then [] else [s[0]] + FirstLine(s[1..])
  }

  /** `re.match(r"^(?=.*[a-z])(?=.*[A-Z])(?=.*\d).{8,}$", p)`. Each lookahead
      looks for its character class within the first line, since `.*` does
      not cross a newline; `.{8,}` then consumes at least eight characters of
      that line, and `$` holds at the end of the string or just before a
      newline that ends it. */
  predicate MatchesPasswordPattern(p: string) {
    var line := FirstLine(p);
    && (p == line || p == line + "\n")
    && |line| >= 8
    && HasLower(line) && HasUpper(line) && HasDigit(line)
  }

  /** `validate_password`: a 400 with a fixed detail, or the password unchanged. */
  function ValidatePassword(p: string): (r: Result<string>)
    ensures r.Ok? <==> MatchesPasswordPattern(p)
    ensures r.Ok? ==> r.value == p
    ensures r.Err? ==> r.error == BadRequest(WeakPassword)
  {
    if MatchesPasswordPattern(p) then Ok(p) else Err(BadRequest(WeakPassword))
  }

  /** Only the password is validated: the email (left to pydantic's
      `EmailStr`) and the username are passed through. */
  function ValidateUserRequest(u: UserRequest): (r: Result<UserRequest>)
    ensures r.Ok? <==> MatchesPasswordPattern(u.password)
    ensures r.Ok? ==> r.value == u
    ensures r.Err? ==> r.error == BadRequest(WeakPassword)
  {
    match ValidatePassword(u.password)
    case Ok(_) => Ok(u)
    case Err(e) => Err(e)
  }

  lemma {:induction false} FirstLineOfSingleLine(s: string)
    requires NoNewline(s)
    ensures FirstLine(s) == s
  {
    if s != [] {
      FirstLineOfSingleLine(s[1..]);
    }
  }

  lemma {:induction false} FirstLineOfLineBreak(s: string)
    requires NoNewline(s)
    ensures FirstLine(s + "\n") == s
  {
    if s != [] {
      assert (s + "\n")[1..] == s[1..] + "\n";
      FirstLineOfLineBreak(s[1..]);
    }
  }

  /** For a password without line breaks the pattern means exactly: at least
      eight characters, with a lower-case letter, an upper-case letter and a
      digit among them. */
  lemma PasswordRule(p: string)
    requires NoNewline(p)
    ensures ValidatePassword(p).Ok? <==> |p| >= 8 && HasLower(p) && HasUpper(p) && HasDigit(p)
  {
    FirstLineOfSingleLine(p);
  }

  /** `$` also matches before a final newline, so one trailing line break
      does not change the verdict (and is kept in the returned password). */
  lemma PasswordTrailingNewline(p: string)
    requires NoNewline(p)
    ensures ValidatePassword(p + "\n").Ok? <==> ValidatePassword(p).Ok?
    ensures ValidatePassword(p + "\n").Ok? ==> ValidatePassword(p + "\n").value == p + "\n"
  {
    FirstLineOfSingleLine(p);
    FirstLineOfLineBreak(p);
  }

  /** A line break anywhere but at the very end rejects the password. */
  lemma PasswordInnerNewline(a: string, b: string)
    requires b != []
    ensures ValidatePassword(a + "\n" + b).Err?
  {
    var p := a + "\n" + b;
    var line := FirstLine(p);
    assert p[|a|] == '\n' && |p| > |a| + 1;
  }

  /** The password the tests register with passes. */
  lemma TestPasswordAccepted()
    ensures ValidatePassword("Testtest1").Ok?
  {
    var p := "Testtest1";
    assert NoNewline(p);
    PasswordRule(p);
    assert IsDigit(p[8]) && IsUpper(p[0]) && IsLower(p[1]);
  }

  /** A password without an upper-case letter fails, whatever its length
      and whatever follows a line break. */
  lemma NoUpperRejected(p: string)
    requires forall i :: 0 <= i < |p| ==> !IsUpper(p[i])
    ensures ValidatePassword(p).Err?
  {
    assert FirstLine(p) <= p;
  }
}
