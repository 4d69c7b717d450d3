/** The password policy check `validatePassword` (server/src/utils/password.ts). */
module Password {
  import opened Wrappers

  /** The policy constants shared with the client (shared/src/index.ts). */
  const MinLength := 8
  const RequireUppercase := true
  const RequireLowercase := true
  const RequireNumber := true
  const RequireSpecial := true

  /** The members of the special-character class of the policy's last check. */
  const SpecialCharacters: string := "!@#$%^&*()_+-=[]{};':\"\\|,.<>/?"

  predicate IsUpper(c: char) { 'A' <= c <= 'Z' }
  predicate IsLower(c: char) { 'a' <= c <= 'z' }
  predicate IsDigit(c: char) { '0' <= c <= '9' }
  predicate IsSpecial(c: char) { c in SpecialCharacters }

  /** Printable ASCII that is neither a letter, a digit nor the space. */
  predicate IsAsciiPunctuation(c: char) {
    ('!' <= c <= '/') || (':' <= c <= '@') || ('[' <= c <= '`') || ('{' <= c <= '~')
  }

  /** The special characters are exactly the ASCII punctuation marks other than the backtick and the tilde. */
  lemma SpecialIsPunctuationButBacktickAndTilde(c: char)
    ensures IsSpecial(c) <==> IsAsciiPunctuation(c) && c != '`' && c != '~'
  {
    if IsSpecial(c) {
      SpecialIsPunctuation(c);
    }
    if IsAsciiPunctuation(c) && c != '`' && c != '~' {
      if '!' <= c <= '/' {
        PunctuationBeforeDigits(c);
      } else if ':' <= c <= '@' {
        assert c == ':' || c == ';' || c == '<' || c == '=' || c == '>' || c == '?' || c == '@';
      } else if '[' <= c <= '`' {
        assert c == '[' || c == '\\' || c == ']' || c == '^' || c == '_';
      } else {
        assert c == '{' || c == '|' || c == '}';
      }
    }
  }

  /** Every special character is an ASCII punctuation mark other than the backtick and the tilde. */
  lemma SpecialIsPunctuation(c: char)
    requires IsSpecial(c)
    ensures IsAsciiPunctuation(c) && c != '`' && c != '~'
  {
    var k :| 0 <= k < |SpecialCharacters| && SpecialCharacters[k] == c;
  }

  /** The punctuation marks from `!` to `/` are all special characters. */
  lemma PunctuationBeforeDigits(c: char)
    requires '!' <= c <= '/'
    ensures IsSpecial(c)
  {
    if c <= '\'' {
      assert c == '!' || c == '"' || c == '#' || c == '$' || c == '%' || c == '&' || c == '\'';
    } else {
      assert c == '(' || c == ')' || c == '*' || c == '+' || c == ',' || c == '-' || c == '.' || c == '/';
    }
  }

  /** Whether some character of `s` satisfies `p`: what a one-class regular expression test answers. */
  function Contains(s: string, p: char -> bool): (r: bool)
    ensures r <==> exists k :: 0 <= k < |s| && p(s[k])
  {
    if s == [] then false
    else if p(s[0]) then true
    else
      var r := Contains(s[1..], p);
      assert forall k :: 1 <= k < |s| ==> s[k] == s[1..][k - 1];
      r
  }

  /** The failure reasons, in the order the checks run. */
  datatype PasswordError = TooShort | NoUppercase | NoLowercase | NoNumber | NoSpecial

  function Order(e: PasswordError): nat {
    match e
    case TooShort => 0
    case NoUppercase => 1
    case NoLowercase => 2
    case NoNumber => 3
    case NoSpecial => 4
  }

  /** Whether `password` breaks the rule that `e` reports. */
  ghost predicate Violates(password: string, e: PasswordError) {
    match e
    case TooShort => |password| < MinLength
    case NoUppercase => !exists k :: 0 <= k < |password| && IsUpper(password[k])
    case NoLowercase => !exists k :: 0 <= k < |password| && IsLower(password[k])
    case NoNumber => !exists k :: 0 <= k < |password| && IsDigit(password[k])
    case NoSpecial => !exists k :: 0 <= k < |password| && IsSpecial(password[k])
  }

  function Message(e: PasswordError): string {
    match e
    case TooShort => "Password must be at least 8 characters"
    case NoUppercase => "Password must contain at least one uppercase letter"
    case NoLowercase => "Password must contain at least one lowercase letter"
    case NoNumber => "Password must contain at least one number"
    case NoSpecial => "Password must contain at least one special character"
  }

  /**
   * `validatePassword`: None when every rule holds, otherwise the first rule broken,
   * with the length rule first.
   */
  function ValidatePassword(password: string): (r: Option<PasswordError>)
    ensures r == None <==> forall e :: !Violates(password, e)
    ensures |password| < MinLength ==> r == Some(TooShort)
    ensures r.Some? ==> Violates(password, r.value)
    ensures r.Some? ==> forall e :: Order(e) < Order(r.value) ==> !Violates(password, e)
  {
    var r :=
      if |password| < MinLength then Some(TooShort)
      else if RequireUppercase && !Contains(password, IsUpper) then Some(NoUppercase)
      else if RequireLowercase && !Contains(password, IsLower) then Some(NoLowercase)
      else if RequireNumber && !Contains(password, IsDigit) then Some(NoNumber)
      else if RequireSpecial && !Contains(password, IsSpecial) then Some(NoSpecial)
      else None;
    assert r.Some? ==> Violates(password, r.value);
    r
  }

  /** The password is accepted exactly when it is long enough and has all four kinds of character. */
  lemma AcceptedIff(password: string)
    ensures ValidatePassword(password) == None <==>
      && |password| >= MinLength
      && (exists k :: 0 <= k < |password| && IsUpper(password[k]))
      && (exists k :: 0 <= k < |password| && IsLower(password[k]))
      && (exists k :: 0 <= k < |password| && IsDigit(password[k]))
      && (exists k :: 0 <= k < |password| && IsSpecial(password[k]))
  {
    if ValidatePassword(password) == None {
      assert !Violates(password, TooShort) && !Violates(password, NoUppercase);
      assert !Violates(password, NoLowercase) && !Violates(password, NoNumber);
      assert !Violates(password, NoSpecial);
    }
  }
}
