/** The server's string validators (server/src/utils/validation.ts). */
module Validation {
  import opened Strings

  const MaxEmailLength := 254
  const MinUsernameLength := 2
  const MaxUsernameLength := 30

  /** A character the class `[^\s@]` accepts. */
  predicate IsAddressChar(c: char) {
    c != '@' && !IsWhitespace(c)
  }

  /**
   * The language of the pattern `^[^\s@]+@[^\s@]+\.[^\s@]+$`: the string is
   * `A @ B . C` with `A`, `B`, `C` non-empty runs of address characters.
   */
  ghost predicate EmailShape(s: string) {
    exists i, j :: 0 < i && i + 1 < j && j + 1 < |s| && s[i] == '@' && s[j] == '.'
      && (forall k :: 0 <= k < |s| && k != i ==> IsAddressChar(s[k]))
  }

  /** The first position of `c` in `s`, or -1 when there is none. */
  function IndexOf(s: string, c: char): (r: int)
    ensures -1 <= r < |s|
    ensures r >= 0 ==> s[r] == c && forall k :: 0 <= k < r ==> s[k] != c
    ensures r == -1 ==> forall k :: 0 <= k < |s| ==> s[k] != c
  {
    if s == [] then -1
    else if s[0] == c then 0
    else
      var r := IndexOf(s[1..], c);
      assert forall k :: 1 <= k < |s| ==> s[k] == s[1..][k - 1];
      if r == -1 then -1 else r + 1
  }

  /**
   * `isValidEmail`: one `@` with a non-empty local part before it, no whitespace, a
   * domain with a `.` that is neither its first nor its last character, at most 254
   * characters.
   */
  function IsValidEmail(email: string): (r: bool)
    ensures r <==> EmailShape(email) && |email| <= MaxEmailLength
  {
    var at := IndexOf(email, '@');
    var ok :=
      && 0 < at
      && (forall k | 0 <= k < |email| :: k == at || IsAddressChar(email[k]))
      && (exists j | at + 1 < j < |email| - 1 :: email[j] == '.')
      && |email| <= MaxEmailLength;
    assert EmailShape(email) && |email| <= MaxEmailLength ==> ok by {
      if EmailShape(email) && |email| <= MaxEmailLength {
        var i, j :| 0 < i && i + 1 < j && j + 1 < |email| && email[i] == '@' && email[j] == '.'
          && (forall k :: 0 <= k < |email| && k != i ==> IsAddressChar(email[k]));
        assert at != -1 && at <= i;
        assert at + 1 < j < |email| - 1 && email[j] == '.';
      }
    }
    ok
  }

  /** `isValidUsername`: the trimmed name has 2 to 30 characters. */
  function IsValidUsername(username: string): (r: bool)
    ensures r ==> !AllWhitespace(username)
    ensures r ==> |username| >= MinUsernameLength
  {
    var t := Trim(username);
    MinUsernameLength <= |t| <= MaxUsernameLength
  }

  /** Whitespace around a user name never changes whether it is accepted. */
  lemma UsernameIgnoresPadding(a: string, username: string, b: string)
    requires AllWhitespace(a) && AllWhitespace(b)
    ensures IsValidUsername(a + username + b) == IsValidUsername(username)
  {
    TrimPadded(a, username, b);
  }

  /** A name without surrounding whitespace is accepted exactly when it has 2 to 30 characters. */
  lemma TrimmedUsername(username: string)
    requires IsTrimmed(username)
    ensures IsValidUsername(username) <==> MinUsernameLength <= |username| <= MaxUsernameLength
  {
    TrimTrimmed(username);
  }

  /** `isValidStringField`: some non-whitespace character, and at most `maxLength` characters before trimming. */
  function IsValidStringField(value: string, maxLength: int): (r: bool)
    ensures r <==> (exists k :: 0 <= k < |value| && !IsWhitespace(value[k])) && |value| <= maxLength
  {
    |Trim(value)| > 0 && |value| <= maxLength
  }

  /** The four availability answers a date vote can hold. */
  datatype Availability = Available | NotAvailable | Maybe | NoResponse

  function AvailabilityName(a: Availability): string {
    match a
    case Available => "available"
    case NotAvailable => "not_available"
    case Maybe => "maybe"
    case NoResponse => "no_response"
  }

  /** `isValidAvailability`: exactly the names of the four answers. */
  function IsValidAvailability(value: string): (r: bool)
    ensures r <==> exists a :: AvailabilityName(a) == value
  {
    var ok := value in ["available", "not_available", "maybe", "no_response"];
    assert ok ==> (|| AvailabilityName(Available) == value || AvailabilityName(NotAvailable) == value
                   || AvailabilityName(Maybe) == value || AvailabilityName(NoResponse) == value);
    ok
  }
}
