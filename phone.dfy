/**
 * Phone-number normalisation: `sanitizePhoneNumber` keeps the characters `0`..`9`
 * of its argument (the effect of `replace(/[^0-9]/g, "")`) and drops everything else.
 * The result is the session key used throughout the rest of the model.
 */
module Phone {

  predicate IsDigit(c: char) {
    '0' <= c <= '9'
  }

  predicate AllDigits(s: string) {
    forall i :: 0 <= i < |s| ==> IsDigit(s[i])
  }

  /** The digits of `s`, in their original order. */
  function Sanitize(s: string): (r: string)
    ensures AllDigits(r)
    ensures |r| <= |s|
  {
    if s == [] then []
    else (if IsDigit(s[0]) then [s[0]] else []) + Sanitize(s[1..])
  }

  /** Sanitising distributes over concatenation: every character is kept or dropped on its own,
      so the digits of `a` come before the digits of `b` in the result. */
  lemma {:induction false} SanitizeAppend(a: string, b: string)
    ensures Sanitize(a + b) == Sanitize(a) + Sanitize(b)
  {
    if a == [] {
      assert a + b == b;
    } else {
      var head := if IsDigit(a[0]) then [a[0]] else [];
      assert (a + b)[0] == a[0];
      assert (a + b)[1..] == a[1..] + b;
      assert Sanitize(a + b) == head + Sanitize(a[1..] + b);
      SanitizeAppend(a[1..], b);
      assert Sanitize(a) == head + Sanitize(a[1..]);
    }
  }

  /** A string is left unchanged exactly when it consists of digits only. */
  lemma {:induction false} SanitizeFixedPoint(s: string)
    ensures Sanitize(s) == s <==> AllDigits(s)
  {
    if s != [] {
      SanitizeFixedPoint(s[1..]);
      if !IsDigit(s[0]) {
        assert |Sanitize(s)| <= |s[1..]| < |s|;
      }
    }
  }

  /** Normalisation is idempotent. */
  lemma SanitizeIdempotent(s: string)
    ensures Sanitize(Sanitize(s)) == Sanitize(s)
  {
    SanitizeFixedPoint(Sanitize(s));
  }

  /** Every digit occurs in the result exactly as often as in the input, and nothing else occurs. */
  lemma {:induction false} SanitizeKeepsDigits(s: string, c: char)
    ensures multiset(Sanitize(s))[c] == if IsDigit(c) then multiset(s)[c] else 0
  {
    if s == [] {
    } else {
      SanitizeKeepsDigits(s[1..], c);
      assert s == [s[0]] + s[1..];
      assert multiset(s) == multiset([s[0]]) + multiset(s[1..]);
    }
  }

  /** Non-digit characters (punctuation, spaces, a leading `+`) written before or after an
      all-digit string are dropped, so they never change its session key. */
  lemma SameSessionWithPunctuation(digits: string, junk: string)
    requires AllDigits(digits)
    requires forall i :: 0 <= i < |junk| ==> !IsDigit(junk[i])
    ensures Sanitize(junk + digits) == digits
    ensures Sanitize(digits + junk) == digits
  {
    SanitizeAppend(junk, digits);
    SanitizeAppend(digits, junk);
    SanitizeFixedPoint(digits);
    SanitizeNoDigits(junk);
  }

  lemma {:induction false} SanitizeNoDigits(s: string)
    requires forall i :: 0 <= i < |s| ==> !IsDigit(s[i])
    ensures Sanitize(s) == []
  {
    if s != [] {
      SanitizeNoDigits(s[1..]);
    }
  }
}
