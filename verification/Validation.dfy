/** What `enable` accepts, in terms of the characters of its arguments. */
module Validation {
  import opened Types
  import opened Handlers
  import Text

  predicate IsAscii(s: string) {
    forall i :: 0 <= i < |s| ==> s[i] as int < 0x80
  }

  lemma {:induction false} Utf8Bounds(s: string)
    ensures Text.Utf8Length(s) >= |s|
    ensures Text.Utf8Length(s) == |s| <==> IsAscii(s)
  {
    if s == [] {
    } else {
      Utf8Bounds(s[1..]);
      assert IsAscii(s) <==> s[0] as int < 0x80 && IsAscii(s[1..]) by {
        assert s == [s[0]] + s[1..];
      }
    }
  }

  /**
   * An `enable` gets as far as the database exactly when the caller names himself, the user id is not all white
   * space, and the address has an `@` and is more than one or two ASCII characters.
   */
  lemma EnableAccepted(sub: UserId, user: UserId, email: string, issuer: Option<string>, draws: Draws)
    ensures Validate(Enable(sub, user, email, issuer, draws)).None? <==>
            && sub == user
            && !Text.AllWhitespace(user)
            && '@' in email && !(|email| <= 2 && IsAscii(email))
  {
    Text.TrimEmptyIff(user);
    Utf8Bounds(email);
  }

  /** A missing or blank label becomes the default; any other loses the white space around it and nothing else. */
  lemma IssuerLabel(given: Option<string>)
    ensures given.None? || Text.AllWhitespace(given.value) ==> Issuer(given) == "Kora App"
    ensures given.Some? && !Text.AllWhitespace(given.value) ==> Issuer(given) != "" && Text.IsTrimOf(Issuer(given), given.value)
  {
    if given.Some? {
      Text.TrimEmptyIff(given.value);
      Text.TrimIsTrim(given.value);
    }
  }
}
