/**
 * The e-mail variant of the verification-code issuer: codes keyed by
 * e-mail address, sent over SMTP, and the address format check.
 */
module EmailVerify {
  import opened Wrappers
  import opened Patterns
  import opened VerificationCodes

  const SentMessage: string := "验证码已发送到您的邮箱"

  class EmailVerification {
    /** The verification_codes table, keyed by e-mail address. */
    var codes: Store

    constructor(rows: Store)
      ensures codes == rows
    {
      codes := rows;
    }

    /**
     * send_code: refuse inside the cooldown or at the cap, otherwise
     * generate a code and mail it; any SMTP failure raises before the
     * upsert, so the row is written only when the mail went out.
     */
    method SendCode(email: string, now: int, picks: seq<int>, smtp: Delivery) returns (ok: bool, message: string)
      requires |picks| == CodeLength && IsDraw(picks)
      modifies this
      ensures var r := Send(old(codes), email, now, GenerateCode(picks), smtp);
        && codes == r.store
        && ok == (r.outcome == Sent)
        && message == SendMessage(r.outcome, SentMessage)
      ensures ok ==> email in codes && IsCode(codes[email].code)
      ensures old(WellFormed(codes)) ==> WellFormed(codes)
    {
      var row := Lookup(codes, email);
      var attempts := 0;
      if row.Some? {
        attempts := row.value.attempts;
        var last := row.value.lastAttempt;
        if last.Some? && now - last.value < SecondsToMicros(CooldownSeconds) {
          return false, CooldownMessage;
        }
        if attempts >= MaxSends {
          if now - row.value.created < SecondsToMicros(WindowSeconds) {
            return false, CapMessage;
          } else {
            attempts := 0;
          }
        }
      }
      var code := GenerateCode(picks);
      match smtp
      case Failed(error) =>
        ok, message := false, SendFailurePrefix + error;
      case Delivered =>
        var stamp := Stamp(now);
        codes := codes[email := CodeRow(code, stamp, if row.Some? then attempts + 1 else 1, Some(stamp))];
        ok, message := true, SentMessage;
      if old(WellFormed(codes)) {
        ApplyKeepsWellFormed(old(codes), SendEvent(email, now, code, smtp));
      }
    }

    /** verify_code: not found, expired (over 15 minutes), wrong code; success deletes the row. */
    method VerifyCode(email: string, code: string, now: int) returns (ok: bool, message: string)
      modifies this
      ensures var r := Verify(old(codes), email, code, now);
        && codes == r.store
        && ok == (r.outcome == Verified)
        && message == VerifyMessage(r.outcome)
      ensures old(WellFormed(codes)) ==> WellFormed(codes)
    {
      if email !in codes {
        return false, NotFoundMessage;
      }
      var row := codes[email];
      if now - row.created > SecondsToMicros(ValiditySeconds) {
        return false, ExpiredMessage;
      }
      if code != row.code {
        return false, MismatchMessage;
      }
      codes := codes - {email};
      return true, VerifiedMessage;
    }
  }

  // ---------------------------------------------------------------------
  // is_valid_email, pattern ^[a-zA-Z0-9._%+-]+@[a-zA-Z0-9.-]+\.[a-zA-Z]{2,}$

  /** [a-zA-Z0-9._%+-] */
  predicate IsLocalChar(c: char) {
    IsAsciiLetter(c) || IsDigit(c) || c == '.' || c == '_' || c == '%' || c == '+' || c == '-'
  }

  /** [a-zA-Z0-9.-] */
  predicate IsDomainChar(c: char) {
    IsAsciiLetter(c) || IsDigit(c) || c == '.' || c == '-'
  }

  /**
   * The pattern read literally: the '@' at position at and the '.' at
   * position dot cut t into a non-empty local part, a non-empty domain
   * part and a top-level part of at least two letters.
   */
  ghost predicate PatternSplit(t: string, at: int, dot: int) {
    && 1 <= at && at + 2 <= dot && dot + 3 <= |t|
    && t[at] == '@' && t[dot] == '.'
    && (forall i :: 0 <= i < at ==> IsLocalChar(t[i]))
    && (forall i :: at < i < dot ==> IsDomainChar(t[i]))
    && (forall i :: dot < i < |t| ==> IsAsciiLetter(t[i]))
  }

  /** What re.match accepts: some choice of the '@' and the '.' fits the pattern. */
  ghost predicate MatchesEmailPattern(t: string) {
    exists at, dot :: PatternSplit(t, at, dot)
  }

  /**
   * is_valid_email, decided by cutting at the first '@' and the last '.':
   * a non-empty local part, exactly one '@', and a domain whose text after
   * its last '.' is two or more ASCII letters and whose text before it is
   * non-empty.  It accepts exactly what the pattern accepts.
   */
  function IsValidEmail(email: string): (r: bool)
    ensures r <==> MatchesEmailPattern(WithoutFinalNewline(email))
  {
    var t := WithoutFinalNewline(email);
    var at := FirstIndex(t, '@');
    var dot := LastIndex(t, '.');
    var r := 1 <= at && at + 2 <= dot && dot + 3 <= |t|
      && (forall i :: 0 <= i < at ==> IsLocalChar(t[i]))
      && (forall i :: at < i < dot ==> IsDomainChar(t[i]))
      && (forall i :: dot < i < |t| ==> IsAsciiLetter(t[i]));
    assert r ==> PatternSplit(t, at, dot);
    assert MatchesEmailPattern(t) ==> r by {
      if MatchesEmailPattern(t) {
        var at', dot' :| PatternSplit(t, at', dot');
        CutsAreUnique(t, at', dot');
      }
    }
    r
  }

  /** Any fit of the pattern cuts at the first '@' and at the last '.'. */
  lemma CutsAreUnique(t: string, at: int, dot: int)
    requires PatternSplit(t, at, dot)
    ensures at == FirstIndex(t, '@') && dot == LastIndex(t, '.')
  {
    assert forall i :: 0 <= i < at ==> t[i] != '@' by {
      forall i | 0 <= i < at ensures t[i] != '@' { assert IsLocalChar(t[i]); }
    }
    assert forall i :: dot < i < |t| ==> t[i] != '.' by {
      forall i | dot < i < |t| ensures t[i] != '.' { assert IsAsciiLetter(t[i]); }
    }
  }

  /** A valid address holds exactly one '@'. */
  lemma ValidEmailHasOneAt(email: string, i: int)
    requires IsValidEmail(email)
    requires 0 <= i < |WithoutFinalNewline(email)| && WithoutFinalNewline(email)[i] == '@'
    ensures i == FirstIndex(WithoutFinalNewline(email), '@')
  {
    var t := WithoutFinalNewline(email);
    var at, dot :| PatternSplit(t, at, dot);
    CutsAreUnique(t, at, dot);
    forall j | 0 <= j < |t| && j != at ensures t[j] != '@' {
      if j < at { assert IsLocalChar(t[j]); }
      else if j < dot { assert IsDomainChar(t[j]); }
      else if j > dot { assert IsAsciiLetter(t[j]); }
    }
  }
}
