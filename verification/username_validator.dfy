/**
 * The username validator: `validateUsername` tests the anchored pattern
 * `^[a-zA-Z][a-zA-Z0-9_]{4,14}$`, and `handleValidate` first rejects a blank
 * field, then reports the pattern's verdict on the untrimmed text.
 */
module UsernameValidator {
  import opened JsText

  const EMPTY_MESSAGE := "Username cannot be empty."
  const VALID_MESSAGE := "Valid Username"
  const INVALID_MESSAGE := "Invalid Name"

  /** `[a-zA-Z]` */
  predicate IsAsciiLetter(c: char)
  {
    'a' <= c <= 'z' || 'A' <= c <= 'Z'
  }

  /** `[a-zA-Z0-9_]` */
  predicate IsNameChar(c: char)
  {
    IsAsciiLetter(c) || '0' <= c <= '9' || c == '_'
  }

  /**
   * Whether `s` matches `[a-zA-Z0-9_]{min,max}$`: at least `min` and at most
   * `max` name characters, then the end of the input.
   */
  function MatchRepeat(s: string, min: nat, max: nat): bool
    decreases |s|
  {
    if s == [] then min == 0
    else max > 0 && IsNameChar(s[0]) && MatchRepeat(s[1..], if min > 0 then min - 1 else 0, max - 1)
  }

  /** `validateUsername(name)`: `/^[a-zA-Z][a-zA-Z0-9_]{4,14}$/.test(name)` */
  function ValidateUsername(name: string): bool
  {
    |name| > 0 && IsAsciiLetter(name[0]) && MatchRepeat(name[1..], 4, 14)
  }

  /** The bounded repetition matches exactly a run of `min` to `max` name characters. */
  lemma {:induction false} MatchRepeatCharacterized(s: string, min: nat, max: nat)
    requires min <= max
    ensures MatchRepeat(s, min, max)
        <==> min <= |s| <= max && forall k :: 0 <= k < |s| ==> IsNameChar(s[k])
    decreases |s|
  {
    if s != [] && max > 0 {
      MatchRepeatCharacterized(s[1..], if min > 0 then min - 1 else 0, max - 1);
      assert forall k :: 1 <= k < |s| ==> s[k] == s[1..][k - 1];
    }
  }

  /**
   * A username is accepted exactly when it has 5 to 15 characters, starts
   * with an ASCII letter, and has only ASCII letters, digits and `_` after it.
   */
  lemma ValidateUsernameCharacterized(name: string)
    ensures ValidateUsername(name)
        <==> && 5 <= |name| <= 15
             && IsAsciiLetter(name[0])
             && forall k :: 1 <= k < |name| ==> IsNameChar(name[k])
  {
    if |name| > 0 {
      MatchRepeatCharacterized(name[1..], 4, 14);
      assert forall k :: 1 <= k < |name| ==> name[k] == name[1..][k - 1];
    }
  }

  /** A space, or any character other than a letter, digit or `_`, anywhere in the name rejects it. */
  lemma ForeignCharacterRejected(name: string, k: nat)
    requires k < |name| && !IsNameChar(name[k])
    ensures !ValidateUsername(name)
  {
    ValidateUsernameCharacterized(name);
  }

  /** What `handleValidate` sets: the validation result and the message shown. */
  datatype Validation = Validation(isValid: bool, message: string)

  /** `handleValidate()` on the contents of the username field. */
  function HandleValidate(username: string): (r: Validation)
    ensures IsBlank(username) ==> r == Validation(false, EMPTY_MESSAGE)
    ensures !IsBlank(username) ==>
      && r.isValid == ValidateUsername(username)
      && r.message == (if ValidateUsername(username) then VALID_MESSAGE else INVALID_MESSAGE)
  {
    TrimEmptyIffBlank(username);
    if Trim(username) == "" then Validation(false, EMPTY_MESSAGE)
    else
      var isValid := ValidateUsername(username);
      Validation(isValid, if isValid then VALID_MESSAGE else INVALID_MESSAGE)
  }

  /** The pattern sees the untrimmed text, so white space before or after a name makes it invalid. */
  lemma PaddedNameInvalid(username: string)
    requires !IsBlank(username)
    requires IsWhiteSpace(username[0]) || IsWhiteSpace(username[|username| - 1])
    ensures HandleValidate(username) == Validation(false, INVALID_MESSAGE)
  {
    ValidateUsernameCharacterized(username);
  }
}
