/**
 * The SMS variant of the verification-code issuer: codes keyed by phone
 * number, sent through Aliyun's SMS service, and the phone-number format
 * check.
 */
module SmsVerify {
  import opened Wrappers
  import opened VerificationCodes
  import opened Patterns

  /** What the SMS client's send call gives back: a reply body (status code and message), or an exception. */
  datatype SmsReply = Reply(status: string, message: string) | Raised(error: string)

  /** The reply read as a delivery: only the status "OK" counts as sent. */
  function DeliveryOf(reply: SmsReply): (d: Delivery)
    ensures d == Delivered <==> reply.Reply? && reply.status == "OK"
    ensures d.Failed? && reply.Reply? ==> d.detail == reply.message
    ensures d.Failed? && reply.Raised? ==> d.detail == reply.error
  {
    match reply
    case Reply(status, message) => if status == "OK" then Delivered else Failed(message)
    case Raised(error) => Failed(error)
  }

  const SentMessage: string := "验证码已发送"

  class SmsVerification {
    /** The verification_codes table, keyed by phone number. */
    var codes: Store

    constructor(rows: Store)
      ensures codes == rows
    {
      codes := rows;
    }

    /**
     * send_code: refuse inside the cooldown or at the cap, otherwise
     * generate a code, send it, and upsert the row only if the reply is OK.
     */
    method SendCode(phone: string, now: int, picks: seq<int>, reply: SmsReply) returns (ok: bool, message: string)
      requires |picks| == CodeLength && IsDraw(picks)
      modifies this
      ensures var r := Send(old(codes), phone, now, GenerateCode(picks), DeliveryOf(reply));
        && codes == r.store
        && ok == (r.outcome == Sent)
        && message == SendMessage(r.outcome, SentMessage)
      ensures ok ==> phone in codes && IsCode(codes[phone].code)
      ensures old(WellFormed(codes)) ==> WellFormed(codes)
    {
      var row := Lookup(codes, phone);
      var attempts := 0;
      if row.Some? {
        attempts := row.value.attempts;
        var last := row.value.lastAttempt;
        if last.Some? && now - last.value < SecondsToMicros(CooldownSeconds) {
          return false, CooldownMessage;
        }
        if attempts >= MaxSends {
          if now - row.value.created < SecondsToMicros(WindowSeconds) {
            return false, CapMessage;
          } else {
            attempts := 0;
          }
        }
      }
      var code := GenerateCode(picks);
      match reply
      case Reply(status, detail) =>
        if status == "OK" {
          var stamp := Stamp(now);
          codes := codes[phone := CodeRow(code, stamp, if row.Some? then attempts + 1 else 1, Some(stamp))];
          ok, message := true, SentMessage;
        } else {
          ok, message := false, SendFailurePrefix + detail;
        }
      case Raised(error) =>
        ok, message := false, SendFailurePrefix + error;
      if old(WellFormed(codes)) {
        ApplyKeepsWellFormed(old(codes), SendEvent(phone, now, code, DeliveryOf(reply)));
      }
    }

    /** verify_code: not found, expired (over 15 minutes), wrong code; success deletes the row. */
    method VerifyCode(phone: string, code: string, now: int) returns (ok: bool, message: string)
      modifies this
      ensures var r := Verify(old(codes), phone, code, now);
        && codes == r.store
        && ok == (r.outcome == Verified)
        && message == VerifyMessage(r.outcome)
      ensures old(WellFormed(codes)) ==> WellFormed(codes)
    {
      if phone !in codes {
        return false, NotFoundMessage;
      }
      var row := codes[phone];
      if now - row.created > SecondsToMicros(ValiditySeconds) {
        return false, ExpiredMessage;
      }
      if code != row.code {
        return false, MismatchMessage;
      }
      codes := codes - {phone};
      return true, VerifiedMessage;
    }
  }

  // ---------------------------------------------------------------------
  // is_valid_phone

  function Pow10(n: nat): (p: nat)
    ensures p >= 1
  {
    if n == 0 then 1 else 10 * Pow10(n - 1)
  }

  /** The number a digit string denotes, most significant digit first. */
  function DecimalValue(s: string): int
    requires AllDigits(s)
  {
    if s == [] then 0 else DigitValue(s[0]) * Pow10(|s| - 1) + DecimalValue(s[1..])
  }

  lemma MultiplyByDigit(d: int, p: int)
    requires 0 <= d <= 9 && p >= 0
    ensures 0 <= d * p <= 9 * p
  {
  }

  lemma {:induction false} DecimalValueBounds(s: string)
    requires AllDigits(s)
    ensures 0 <= DecimalValue(s) < Pow10(|s|)
    decreases |s|
  {
    if s != [] {
      DecimalValueBounds(s[1..]);
      var d, p := DigitValue(s[0]), Pow10(|s| - 1);
      assert DecimalValue(s) == d * p + DecimalValue(s[1..]);
      assert 0 <= d <= 9;
      MultiplyByDigit(d, p);
    }
  }

  const MobileLength: nat := 11
  /** The least and the greatest number the pattern ^1[3-9]\d{9}$ admits. */
  const LowestMobile: int := 13000000000
  const HighestMobile: int := 19999999999

  /**
   * is_valid_phone, pattern ^1[3-9]\d{9}$: a '1', one of '3'..'9', nine
   * digits; equivalently, eleven digits spelling a number from 13000000000
   * to 19999999999.
   */
  function IsValidPhone(phone: string): (r: bool)
    ensures r <==> var t := WithoutFinalNewline(phone);
      |t| == MobileLength && AllDigits(t) && LowestMobile <= DecimalValue(t) <= HighestMobile
  {
    var t := WithoutFinalNewline(phone);
    var r := |t| == MobileLength && t[0] == '1' && '3' <= t[1] <= '9'
      && forall i :: 2 <= i < |t| ==> IsDigit(t[i]);
    assert |t| == MobileLength && AllDigits(t) ==> (r <==> LowestMobile <= DecimalValue(t) <= HighestMobile) by {
      if |t| == MobileLength && AllDigits(t) {
        DecimalValueBounds(t[2..]);
        assert Pow10(9) == 1000000000 && Pow10(10) == 10000000000;
        assert DecimalValue(t) == DigitValue(t[0]) * 10000000000 + DigitValue(t[1]) * 1000000000 + DecimalValue(t[2..]);
      }
    }
    r
  }
}
