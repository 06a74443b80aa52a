/**
 * The token wrapper: an empty secret gives no token; otherwise every
 * whitespace character is removed from the secret and the rest is handed to
 * the otpauth library (Base32 decoding, then TOTP with SHA1, 6 digits and a
 * 30-second period). A library failure also gives no token.
 */
module Totp {
  import opened Wrappers
  import opened Countdown

  /**
   * The otpauth library, which this model does not see, configured with SHA1,
   * 6 digits and a 30-second period: given the whitespace-free secret and the
   * RFC 6238 time-step counter T of the moment `generate()` runs, the 6-digit
   * code, or None when it throws. The library derives T from the clock and
   * the period itself; the model takes that step in `GenerateTOTP`.
   */
  type Generator = (string, nat) -> Option<string>

  /**
   * The characters matched by the regular expression class `\s`: the
   * ECMAScript WhiteSpace (tab, vertical tab, form feed, no-break space,
   * byte-order mark and every space separator) and LineTerminator characters.
   */
  predicate IsWhitespace(c: char) {
    || c == '\t' || c == '\n' || c == '\U{000B}' || c == '\U{000C}' || c == '\r'
    || c == ' ' || c == '\U{00A0}' || c == '\U{1680}'
    || ('\U{2000}' <= c <= '\U{200A}')
    || c == '\U{2028}' || c == '\U{2029}' || c == '\U{202F}' || c == '\U{205F}'
    || c == '\U{3000}' || c == '\U{FEFF}'
  }

  /** `s.replace(/\s/g, '')`. */
  function StripWhitespace(s: string): (r: string)
    ensures |r| <= |s|
    ensures forall i :: 0 <= i < |r| ==> !IsWhitespace(r[i])
    ensures forall c :: c in r <==> c in s && !IsWhitespace(c)
  {
    if s == [] then []
    else if IsWhitespace(s[0]) then StripWhitespace(s[1..])
    else [s[0]] + StripWhitespace(s[1..])
  }

  /** `generateTOTP(secret)`, with the library call made at time `nowMs`. */
  function GenerateTOTP(secret: string, gen: Generator, nowMs: nat): (token: string)
    ensures secret == [] ==> token == []
    ensures token != [] ==> gen(StripWhitespace(secret), TimeStep(nowMs)) == Some(token)
  {
    if secret == [] then []
    else
      match gen(StripWhitespace(secret), TimeStep(nowMs))
      case Some(code) => code
      case None => []
  }

  // ---------------------------------------------------------------------------
  // Lemmas about whitespace removal

  /** Removal works piecewise, keeping the order of the other characters. */
  lemma {:induction false} StripAppend(a: string, b: string)
    ensures StripWhitespace(a + b) == StripWhitespace(a) + StripWhitespace(b)
  {
    if a == [] {
      assert a + b == b;
    } else {
      assert (a + b)[0] == a[0];
      assert (a + b)[1..] == a[1..] + b;
      StripAppend(a[1..], b);
    }
  }

  /** A string without whitespace is left as it is. */
  lemma {:induction false} StripNoWhitespace(s: string)
    requires forall i :: 0 <= i < |s| ==> !IsWhitespace(s[i])
    ensures StripWhitespace(s) == s
  {
    if s != [] {
      StripNoWhitespace(s[1..]);
      assert s == [s[0]] + s[1..];
    }
  }

  /** A string made only of whitespace becomes empty. */
  lemma {:induction false} StripAllWhitespace(s: string)
    requires forall i :: 0 <= i < |s| ==> IsWhitespace(s[i])
    ensures StripWhitespace(s) == []
  {
    if s != [] {
      assert IsWhitespace(s[0]);
      StripAllWhitespace(s[1..]);
    }
  }

  /** Removing whitespace twice is the same as removing it once. */
  lemma StripIdempotent(s: string)
    ensures StripWhitespace(StripWhitespace(s)) == StripWhitespace(s)
  {
  }

  /** A single whitespace character disappears wherever it stands. */
  lemma {:induction false} StripDropsInsertedWhitespace(a: string, w: char, b: string)
    requires IsWhitespace(w)
    ensures StripWhitespace(a + [w] + b) == StripWhitespace(a + b)
  {
    assert [w][1..] == [];
    assert StripWhitespace([w]) == [];
    StripAppend(a + [w], b);
    StripAppend(a, [w]);
    StripAppend(a, b);
    assert StripWhitespace(a + [w]) == StripWhitespace(a);
  }

  // ---------------------------------------------------------------------------
  // Lemmas about the wrapper

  /** When the library throws, the token is empty. */
  lemma GeneratorFailureGivesEmptyToken(secret: string, gen: Generator, nowMs: nat)
    requires gen(StripWhitespace(secret), TimeStep(nowMs)).None?
    ensures GenerateTOTP(secret, gen, nowMs) == []
  {
  }

  /** For a non-empty secret, the token is the library's code for the secret without whitespace. */
  lemma TokenFromStrippedSecret(secret: string, gen: Generator, nowMs: nat)
    requires secret != []
    requires gen(StripWhitespace(secret), TimeStep(nowMs)).Some?
    ensures GenerateTOTP(secret, gen, nowMs) == gen(StripWhitespace(secret), TimeStep(nowMs)).value
  {
  }

  /**
   * Inserting a whitespace character into a non-empty secret does not change
   * the token: secrets that differ only in whitespace give the same code.
   */
  lemma WhitespaceDoesNotChangeToken(a: string, w: char, b: string, gen: Generator, nowMs: nat)
    requires IsWhitespace(w)
    requires a + b != []
    ensures GenerateTOTP(a + [w] + b, gen, nowMs) == GenerateTOTP(a + b, gen, nowMs)
  {
    StripDropsInsertedWhitespace(a, w, b);
  }

  /** The token depends on the time only through the time step. */
  lemma SameStepSameToken(secret: string, gen: Generator, t1: nat, t2: nat)
    requires TimeStep(t1) == TimeStep(t2)
    ensures GenerateTOTP(secret, gen, t1) == GenerateTOTP(secret, gen, t2)
  {
  }

  /**
   * The token shown at time t1 stays the same for the next TimeLeft(t1)
   * seconds, the validity the countdown announces.
   */
  lemma TokenValidForTimeLeft(secret: string, gen: Generator, t1: nat, t2: nat)
    requires UnixSeconds(t1) <= UnixSeconds(t2) < UnixSeconds(t1) + TimeLeft(t1)
    ensures GenerateTOTP(secret, gen, t1) == GenerateTOTP(secret, gen, t2)
  {
    SameStepIff(t1, t2);
  }

  /**
   * Only the empty string short-cuts to the empty token: a secret made only of
   * whitespace is non-empty, so the library is called with the empty string.
   */
  lemma BlankSecretReachesGenerator(secret: string, gen: Generator, nowMs: nat)
    requires secret != []
    requires forall i :: 0 <= i < |secret| ==> IsWhitespace(secret[i])
    ensures GenerateTOTP(secret, gen, nowMs) == if gen([], TimeStep(nowMs)).Some? then gen([], TimeStep(nowMs)).value else []
  {
    StripAllWhitespace(secret);
  }
}
