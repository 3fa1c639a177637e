/**
 * The one-time verification-code issuer shared by the SMS and the e-mail
 * variants: the verification_codes table as a map from identity (phone
 * number or e-mail address) to its row, the rate limits checked by
 * send_code, the expiry and single-use rules of verify_code, and the
 * six-digit code generator.
 *
 * Clock readings are integers counting microseconds, the resolution of
 * Python's datetime.  The table stores times formatted to whole seconds,
 * so every stored time is the reading truncated by Stamp.
 */
module VerificationCodes {
  import opened Wrappers
  import opened Patterns

  const MicrosPerSecond: int := 1000000
  /** Minimum interval between two issuances to one identity. */
  const CooldownSeconds: int := 60
  /** Window of the issuance cap, measured from the row's created time. */
  const WindowSeconds: int := 24 * 3600
  /** How long an issued code stays valid. */
  const ValiditySeconds: int := 15 * 60
  /** Number of issuances the window admits. */
  const MaxSends: int := 5
  const CodeLength: nat := 6
  /** The alphabet generate_code draws from. */
  const Digits: string := "0123456789"

  function SecondsToMicros(n: int): int { n * MicrosPerSecond }

  /** The time that reaches the table: formatting with '%Y-%m-%d %H:%M:%S' drops the microseconds. */
  function Stamp(now: int): (t: int)
    ensures t <= now < t + MicrosPerSecond
    ensures t % MicrosPerSecond == 0
  {
    now - now % MicrosPerSecond
  }

  /** One row of verification_codes; lastAttempt is a nullable column. */
  datatype CodeRow = CodeRow(code: string, created: int, attempts: int, lastAttempt: Option<int>)

  type Store = map<string, CodeRow>

  function Lookup(store: Store, key: string): (row: Option<CodeRow>)
    ensures row.Some? <==> key in store
    ensures row.Some? ==> row.value == store[key]
  {
    if key in store then Some(store[key]) else None
  }

  // ---------------------------------------------------------------------
  // Code generation

  /** A well-formed code: exactly six ASCII decimal digits. */
  predicate IsCode(s: string) {
    |s| == CodeLength && forall i :: 0 <= i < |s| ==> IsDigit(s[i])
  }

  /** Indices into Digits, as random.choices draws them. */
  predicate IsDraw(picks: seq<int>) {
    forall i :: 0 <= i < |picks| ==> 0 <= picks[i] < |Digits|
  }

  /** The string of the drawn digits, one per pick. */
  function Choose(picks: seq<int>): (s: string)
    requires IsDraw(picks)
    ensures |s| == |picks|
    ensures forall i :: 0 <= i < |s| ==> IsDigit(s[i]) && DigitValue(s[i]) == picks[i]
  {
    if picks == [] then []
    else
      var d := Digits[picks[0]];
      assert IsDigit(d) && DigitValue(d) == picks[0];
      [d] + Choose(picks[1..])
  }

  /** generate_code: six digits drawn from "0123456789"; the draw is a parameter. */
  function GenerateCode(picks: seq<int>): (code: string)
    requires |picks| == CodeLength && IsDraw(picks)
    ensures IsCode(code)
  {
    Choose(picks)
  }

  /** The draw that yields a given code. */
  function PicksOf(code: string): (picks: seq<int>)
    requires IsCode(code)
    ensures |picks| == CodeLength && IsDraw(picks)
  {
    seq(|code|, i requires 0 <= i < |code| => DigitValue(code[i]))
  }

  /** Every six-digit code can be generated, and by exactly one draw. */
  lemma GenerateCodeIsBijective(code: string, picks: seq<int>)
    requires IsCode(code)
    requires |picks| == CodeLength && IsDraw(picks)
    ensures GenerateCode(PicksOf(code)) == code
    ensures GenerateCode(picks) == code <==> picks == PicksOf(code)
  {
    var g := GenerateCode(PicksOf(code));
    forall i | 0 <= i < |code| ensures g[i] == code[i] {
      assert DigitValue(g[i]) == DigitValue(code[i]);
    }
    if GenerateCode(picks) == code {
      forall i | 0 <= i < |picks| ensures picks[i] == PicksOf(code)[i] {
        assert DigitValue(GenerateCode(picks)[i]) == picks[i];
      }
    }
  }

  // ---------------------------------------------------------------------
  // send_code

  /** What the outbound channel did with the message. */
  datatype Delivery = Delivered | Failed(detail: string)

  datatype SendOutcome = Sent | Cooldown | CapReached | Undelivered(detail: string)

  /**
   * The rate limits, checked before a code is generated: Wait for the
   * cooldown, Capped for the issuance cap, otherwise Open with the counter
   * value the upsert increments (the stored one, or 0 once the window has
   * passed).
   */
  datatype Gate = Wait | Capped | Open(prior: int)

  function CheckLimits(row: Option<CodeRow>, now: int): (g: Gate)
    ensures row.None? ==> g == Open(0)
    ensures g == Wait <==>
      row.Some? && row.value.lastAttempt.Some? && now - row.value.lastAttempt.value < SecondsToMicros(CooldownSeconds)
    ensures g == Capped <==>
      row.Some? && g != Wait && row.value.attempts >= MaxSends && now - row.value.created < SecondsToMicros(WindowSeconds)
    ensures g.Open? && row.Some? ==> g.prior == if row.value.attempts >= MaxSends then 0 else row.value.attempts
  {
    match row
    case None => Open(0)
    case Some(r) =>
      if r.lastAttempt.Some? && now - r.lastAttempt.value < SecondsToMicros(CooldownSeconds) then Wait
      else if r.attempts >= MaxSends then
        if now - r.created < SecondsToMicros(WindowSeconds) then Capped else Open(0)
      else Open(r.attempts)
  }

  datatype Sending = Sending(store: Store, outcome: SendOutcome)

  /**
   * send_code as one atomic step: the limits, then the outbound message,
   * then the INSERT OR REPLACE when the message went out.
   */
  function Send(store: Store, key: string, now: int, code: string, delivery: Delivery): (r: Sending)
    ensures r.outcome == Sent <==> CheckLimits(Lookup(store, key), now).Open? && delivery == Delivered
    ensures r.outcome == Cooldown <==> CheckLimits(Lookup(store, key), now) == Wait
    ensures r.outcome == CapReached <==> CheckLimits(Lookup(store, key), now) == Capped
    ensures delivery.Failed? && CheckLimits(Lookup(store, key), now).Open? ==> r.outcome == Undelivered(delivery.detail)
    ensures r.outcome != Sent ==> r.store == store
    ensures r.outcome == Sent ==>
      && key in r.store
      && r.store[key].code == code
      && r.store[key].created == Stamp(now)
      && r.store[key].lastAttempt == Some(Stamp(now))
      && r.store[key].attempts == (if key in store && store[key].attempts < MaxSends then store[key].attempts + 1 else 1)
    ensures forall k :: k != key ==> (k in r.store <==> k in store) && (k in r.store ==> r.store[k] == store[k])
  {
    var row := Lookup(store, key);
    match CheckLimits(row, now)
    case Wait => Sending(store, Cooldown)
    case Capped => Sending(store, CapReached)
    case Open(prior) =>
      match delivery
      case Failed(detail) => Sending(store, Undelivered(detail))
      case Delivered =>
        var attempts := if row.Some? then prior + 1 else 1;
        Sending(store[key := CodeRow(code, Stamp(now), attempts, Some(Stamp(now)))], Sent)
  }

  // ---------------------------------------------------------------------
  // verify_code

  datatype VerifyOutcome = NotFound | Expired | Mismatch | Verified

  datatype Checking = Checking(store: Store, outcome: VerifyOutcome)

  /**
   * verify_code as one atomic step: not found, then expired, then wrong
   * code; only success deletes the row.
   */
  function Verify(store: Store, key: string, code: string, now: int): (r: Checking)
    ensures r.outcome == NotFound <==> key !in store
    ensures r.outcome == Expired <==> key in store && now - store[key].created > SecondsToMicros(ValiditySeconds)
    ensures r.outcome == Verified <==>
      key in store && now - store[key].created <= SecondsToMicros(ValiditySeconds) && code == store[key].code
    ensures r.store == if r.outcome == Verified then store - {key} else store
  {
    if key !in store then Checking(store, NotFound)
    else
      var row := store[key];
      if now - row.created > SecondsToMicros(ValiditySeconds) then Checking(store, Expired)
      else if code != row.code then Checking(store, Mismatch)
      else Checking(store - {key}, Verified)
  }

  // ---------------------------------------------------------------------
  // The messages both issuers return beside their success flag

  const CooldownMessage: string := "请等待60秒后再次获取验证码"
  const CapMessage: string := "24小时内验证码获取次数已达上限"
  const SendFailurePrefix: string := "发送失败: "
  const NotFoundMessage: string := "验证码不存在"
  const ExpiredMessage: string := "验证码已过期"
  const MismatchMessage: string := "验证码错误"
  const VerifiedMessage: string := "验证成功"

  /** The message for a send outcome; the success text is the channel's own. */
  function SendMessage(outcome: SendOutcome, sentText: string): (m: string)
    ensures outcome == Sent ==> m == sentText
    ensures outcome == Cooldown ==> m == CooldownMessage
    ensures outcome == CapReached ==> m == CapMessage
    ensures outcome.Undelivered? ==> m == SendFailurePrefix + outcome.detail && m[..|SendFailurePrefix|] == SendFailurePrefix
  {
    match outcome
    case Sent => sentText
    case Cooldown => CooldownMessage
    case CapReached => CapMessage
    case Undelivered(detail) => SendFailurePrefix + detail
  }

  /** The message for a verify outcome; distinct outcomes give distinct messages. */
  function VerifyMessage(outcome: VerifyOutcome): (m: string)
    ensures m == VerifiedMessage <==> outcome == Verified
    ensures m == NotFoundMessage <==> outcome == NotFound
    ensures m == ExpiredMessage <==> outcome == Expired
    ensures m == MismatchMessage <==> outcome == Mismatch
  {
    match outcome
    case NotFound => NotFoundMessage
    case Expired => ExpiredMessage
    case Mismatch => MismatchMessage
    case Verified => VerifiedMessage
  }

  // ---------------------------------------------------------------------
  // Properties of single steps

  /**
   * The cooldown is measured from the stored (truncated) time of the last
   * successful send: a resend less than 59 s later is always refused, and
   * one at least 60 s later is never refused for the cooldown.
   */
  lemma ResendCooldown(store: Store, key: string, t1: int, code1: string, d1: Delivery,
                       t2: int, code2: string, d2: Delivery)
    requires Send(store, key, t1, code1, d1).outcome == Sent
    ensures var s1 := Send(store, key, t1, code1, d1).store;
      var r := Send(s1, key, t2, code2, d2);
      && (r.outcome == Cooldown <==> t2 < Stamp(t1) + SecondsToMicros(CooldownSeconds))
      && (t2 - t1 < SecondsToMicros(CooldownSeconds - 1) ==> r == Sending(s1, Cooldown))
      && (t2 - t1 >= SecondsToMicros(CooldownSeconds) ==> r.outcome != Cooldown)
  {
  }

  /** Once the counter has reached the cap, the window decides: refused inside it, restarted at 1 after it. */
  lemma CapDecidedByWindow(store: Store, key: string, now: int, code: string, d: Delivery)
    requires key in store && store[key].attempts >= MaxSends
    requires store[key].lastAttempt == Some(store[key].created)
    requires now - store[key].created >= SecondsToMicros(CooldownSeconds)
    ensures var r := Send(store, key, now, code, d);
      && (now - store[key].created < SecondsToMicros(WindowSeconds) ==> r == Sending(store, CapReached))
      && (now - store[key].created >= SecondsToMicros(WindowSeconds) && d == Delivered ==>
            r.outcome == Sent && r.store[key].attempts == 1)
  {
  }

  /** An issued code is accepted when presented within 899 s, refused as expired after 900 s, refused when different. */
  lemma IssuedCodeAccepted(store: Store, key: string, t1: int, code: string, d: Delivery, t2: int, given: string)
    requires Send(store, key, t1, code, d).outcome == Sent
    ensures var s1 := Send(store, key, t1, code, d).store;
      var r := Verify(s1, key, given, t2);
      && (t2 - t1 <= SecondsToMicros(ValiditySeconds - 1) && given == code ==> r.outcome == Verified)
      && (t2 - t1 <= SecondsToMicros(ValiditySeconds - 1) && given != code ==> r == Checking(s1, Mismatch))
      && (t2 - t1 > SecondsToMicros(ValiditySeconds) ==> r == Checking(s1, Expired))
  {
  }

  /** A verified code is single use: whatever is presented next, the identity has no code. */
  lemma VerifiedCodeIsSingleUse(store: Store, key: string, code: string, now: int, again: string, later: int)
    requires Verify(store, key, code, now).outcome == Verified
    ensures Verify(Verify(store, key, code, now).store, key, again, later).outcome == NotFound
  {
  }

  /** Deleting the row on success also clears the issuance counter: the next delivered send starts again at 1. */
  lemma VerifyRestartsCounter(store: Store, key: string, code: string, now: int, t: int, next: string)
    requires Verify(store, key, code, now).outcome == Verified
    ensures var r := Send(Verify(store, key, code, now).store, key, t, next, Delivered);
      r.outcome == Sent && r.store[key].attempts == 1
  {
  }

  // ---------------------------------------------------------------------
  // Runs of many steps

  /** A stored row as send_code writes it: counter within 1..5, both times equal and whole seconds. */
  ghost predicate RowInvariant(row: CodeRow) {
    && 1 <= row.attempts <= MaxSends
    && row.lastAttempt == Some(row.created)
    && row.created % MicrosPerSecond == 0
  }

  ghost predicate WellFormed(store: Store) {
    forall k :: k in store ==> RowInvariant(store[k])
  }

  datatype Event =
    | SendEvent(key: string, now: int, code: string, delivery: Delivery)
    | VerifyEvent(key: string, code: string, now: int)

  function Apply(store: Store, e: Event): Store {
    match e
    case SendEvent(key, now, code, delivery) => Send(store, key, now, code, delivery).store
    case VerifyEvent(key, code, now) => Verify(store, key, code, now).store
  }

  /** The table after a sequence of calls, oldest first. */
  function Replay(store: Store, events: seq<Event>): Store
    decreases |events|
  {
    if events == [] then store
    else Apply(Replay(store, events[..|events| - 1]), events[|events| - 1])
  }

  lemma ApplyKeepsWellFormed(store: Store, e: Event)
    requires WellFormed(store)
    ensures WellFormed(Apply(store, e))
  {
    if e.SendEvent? {
      var r := Send(store, e.key, e.now, e.code, e.delivery);
      forall k | k in r.store ensures RowInvariant(r.store[k]) {
        if k == e.key && r.outcome == Sent {
          assert k in store ==> RowInvariant(store[k]);
        }
      }
    }
  }

  /** Whatever sequence of sends and verifications runs, every stored counter stays within 1..5. */
  lemma {:induction false} ReplayKeepsWellFormed(store: Store, events: seq<Event>)
    requires WellFormed(store)
    ensures WellFormed(Replay(store, events))
    decreases |events|
  {
    if events != [] {
      ReplayKeepsWellFormed(store, events[..|events| - 1]);
      ApplyKeepsWellFormed(Replay(store, events[..|events| - 1]), events[|events| - 1]);
    }
  }

  /** Delivered sends to one identity, each at least the cooldown after the one before. */
  ghost predicate SpacedSends(key: string, events: seq<Event>) {
    && (forall i :: 0 <= i < |events| ==>
          events[i].SendEvent? && events[i].key == key && events[i].delivery == Delivered)
    && (forall i :: 0 < i < |events| ==> events[i].now >= events[i - 1].now + SecondsToMicros(CooldownSeconds))
  }

  /** Up to five spaced sends to a fresh identity all succeed, and the counter counts them. */
  lemma {:induction false} SendsAreCounted(store: Store, key: string, events: seq<Event>)
    requires key !in store
    requires SpacedSends(key, events) && |events| <= MaxSends
    ensures events != [] ==>
      var s := Replay(store, events);
      && key in s
      && s[key].attempts == |events|
      && s[key].created == Stamp(events[|events| - 1].now)
      && s[key].lastAttempt == Some(s[key].created)
    decreases |events|
  {
    if |events| > 1 {
      var init := events[..|events| - 1];
      assert SpacedSends(key, init) by {
        forall i | 0 < i < |init| ensures init[i].now >= init[i - 1].now + SecondsToMicros(CooldownSeconds) {
          assert init[i] == events[i] && init[i - 1] == events[i - 1];
        }
      }
      SendsAreCounted(store, key, init);
      assert init[|init| - 1] == events[|events| - 2];
    } else if |events| == 1 {
      assert events[..0] == [];
    }
  }

  /** After five spaced sends, a sixth inside the day that follows the fifth is refused and changes nothing. */
  lemma SixthSendWithinDayRefused(store: Store, key: string, events: seq<Event>,
                                  now: int, code: string, d: Delivery)
    requires key !in store
    requires SpacedSends(key, events) && |events| == MaxSends
    requires now < Stamp(events[MaxSends - 1].now) + SecondsToMicros(WindowSeconds)
    ensures var s := Replay(store, events);
      var r := Send(s, key, now, code, d);
      && r.store == s
      && r.outcome == if now < Stamp(events[MaxSends - 1].now) + SecondsToMicros(CooldownSeconds) then Cooldown else CapReached
  {
    SendsAreCounted(store, key, events);
  }
}
