# Verification codes and quota ledger, modelled in Dafny

This project models two sequential components of a gated chat service. Both work against one SQLite file.

- **The one-time verification-code issuer**, in an SMS variant (`SMSVerification`) and an e-mail variant (`EmailVerification`). `send_code` applies a 60-second resend cooldown and a cap of five issuances. The cap's 24-hour window is measured from the row's `created_time`. If the limits allow it, `send_code` generates a six-digit code and hands it to the outbound channel. It upserts the identity's row only when the message went out. `verify_code` checks, in order: the row exists, the code is at most 15 minutes old, and the code matches. It deletes the row on success, so each code is single use. Each variant also has a format validator: `is_valid_phone` or `is_valid_email`.
- **The account and quota ledger** (`UserManager`). It holds a users table keyed by username, with a unique email column, and an append-only `api_usage` log. It adds and authenticates users. It deducts conversations under a cap (`deduct_conversation`). It charges tokens with no cap and logs them (`update_quota`). It resets quotas and answers read-only lookups.

Each database call is one atomic step over a value-level table. A table is a `map`:

- the issuer's `verification_codes` is a `map<string, CodeRow>`;
- `users` is a `map<string, User>`;
- `api_usage` is a `seq<UsageRecord>`.

The three manager classes keep these tables as fields. Their methods follow the source's statements, and each method is proved equal to a pure transition function (`Send`, `Verify`, `Inserted`, `Deducted`, `Charged`, `Reset`). The lemmas state the properties of those functions.

The model replaces these environment parts with parameters:

- **Clock.** The clock is an integer count of microseconds, the resolution of Python's `datetime`. Stored times are truncated to whole seconds (`Stamp`), because the source stores them formatted to seconds. So the cooldown and the expiry are measured from the truncated time. A resend less than 59 s after a successful send is always refused, and one 60 s or more after it is never refused for the cooldown. A code presented within 899 s is accepted, and one presented more than 900 s after issue has expired. The ledger's dates and usage timestamps are the already formatted strings the clock would give.
- **Randomness.** `random.choices` becomes the drawn indices (`picks`).
- **Outbound channel.** The SMS provider's reply or exception becomes `SmsReply`. The SMTP outcome becomes `Delivery`.
- **Password hash.** `hash_password` is the manager's `hash` field, an uninterpreted function.

Behaviour of the code worth knowing:

- The 24-hour cap window is measured from the row's `created_time`. Every successful send overwrites it, so the window runs from the latest send.
- A successful verification deletes the row, and with it the issuance counter. The next send starts again at 1 (`VerifyRestartsCounter`).
- `send_code` itself does not check the identity's format. Callers are expected to call the validator first.
- `verify_user` compares against one hash scheme only; there is no legacy-hash upgrade path.

The validators follow Python's `re.match` with a trailing `$`, which also matches just before one final newline. So `"13812345678\n"` is a valid phone number, and the model says so (`WithoutFinalNewline`).

## Model

| member | source | states |
|---|---|---|
| VerificationCodes.Stamp | sms_verify.py:111-113 | the stored time is the clock reading truncated to the whole second: at most the reading and less than a second below it |
| VerificationCodes.GenerateCode | sms_verify.py:53-55 | the generated code is six ASCII decimal digits (email_verify.py:39-41 is the same generator) |
| VerificationCodes.Choose | sms_verify.py:55 | joining the drawn characters gives one digit per draw, and the digit's value is the drawn index |
| VerificationCodes.GenerateCodeIsBijective | sms_verify.py:53-55 | every six-digit code can be generated, and by exactly one draw |
| VerificationCodes.CheckLimits | sms_verify.py:73-88 | for any row: Wait iff the last attempt is under 60 s ago; otherwise Capped iff the counter is at least 5 and creation is under 24 h ago; otherwise Open, from 0 with no row or once the window has passed, else from the stored counter |
| VerificationCodes.Send | sms_verify.py:66-120 | Sent iff the limits are open and the message was delivered; Cooldown and CapReached iff the limits say so; a failed delivery past open limits gives the failure detail; only a successful send changes the table; it writes the given code, created = last attempt = the stamped time, and attempts + 1 (or 1 with no row or after the window restarted); other identities are untouched |
| VerificationCodes.Verify | sms_verify.py:133-154 | not found iff no row; expired iff more than 900 s after creation; verified iff within 900 s and the code matches; only success changes the table, and it deletes exactly that row |
| VerificationCodes.SendMessage | sms_verify.py:78-120 | the message beside the flag: the channel's success text, the cooldown text, the cap text, or "发送失败: " followed by the failure detail |
| VerificationCodes.VerifyMessage | sms_verify.py:137-154 | the message beside the flag: not found, expired, wrong code or success, one distinct text per outcome |
| VerificationCodes.ResendCooldown | sms_verify.py:78-80 | after a successful send, a resend is refused for the cooldown iff it comes less than 60 s after the stamped time; a refusal changes nothing; under 59 s real gap is always refused, 60 s or more never is |
| VerificationCodes.CapDecidedByWindow | sms_verify.py:83-88 | with the counter at the cap, a send inside 24 h of creation is refused with the table unchanged, and a delivered send after it succeeds with the counter restarted at 1 |
| VerificationCodes.IssuedCodeAccepted | sms_verify.py:143-154 | the code just issued is accepted within 899 s, any other code is refused as wrong, and after 900 s it is refused as expired, with the row kept |
| VerificationCodes.VerifiedCodeIsSingleUse | sms_verify.py:150-154 | after a successful verification, any further verification for that identity reports not found |
| VerificationCodes.VerifyRestartsCounter | sms_verify.py:151 | after a successful verification, the next delivered send succeeds with the counter at 1 |
| VerificationCodes.ApplyKeepsWellFormed | sms_verify.py:107-113 | one send or verification keeps every row with attempts in 1..5, created equal to last attempt, and whole-second times |
| VerificationCodes.ReplayKeepsWellFormed | sms_verify.py:83-88 | over any sequence of sends and verifications, every stored counter stays within 1..5 |
| VerificationCodes.SendsAreCounted | sms_verify.py:107-113 | up to five delivered sends to a fresh identity, each at least 60 s apart, all succeed, and the counter equals their number |
| VerificationCodes.SixthSendWithinDayRefused | sms_verify.py:79-85 | after five such sends, a sixth before 24 h past the fifth's stamped time is refused (cooldown, then cap) and changes nothing |
| Patterns.WithoutFinalNewline | sms_verify.py:164 | the text the anchored pattern must match is the input, or the input less one final newline |
| Patterns.FirstIndex | email_verify.py:161 | the first occurrence of a character, or the length when there is none |
| Patterns.LastIndex | email_verify.py:161 | the last occurrence of a character, or -1 when there is none |
| SmsVerify.DeliveryOf | sms_verify.py:103-120 | the send counts as delivered iff the reply's status is "OK"; otherwise the failure detail is the reply's message or the exception text |
| SmsVerify.SmsVerification.constructor | sms_verify.py:17-19 | the issuer starts over the given table contents |
| SmsVerify.SmsVerification.SendCode | sms_verify.py:57-122 | the new table, the success flag and the message are those of `Send` with a generated code; a stored code is six digits; well-formed rows stay well formed |
| SmsVerify.SmsVerification.VerifyCode | sms_verify.py:124-159 | the new table, the flag and the message are those of `Verify`; well-formed rows stay well formed |
| SmsVerify.IsValidPhone | sms_verify.py:161-165 | accepted iff the text, less one final newline, is eleven ASCII digits spelling a number from 13000000000 to 19999999999 ('1', one of '3'..'9', nine digits) |
| EmailVerify.EmailVerification.constructor | email_verify.py:17-19 | the issuer starts over the given table contents |
| EmailVerify.EmailVerification.SendCode | email_verify.py:43-120 | the new table, the flag and the message are those of `Send` with the SMTP outcome; an SMTP failure writes nothing |
| EmailVerify.EmailVerification.VerifyCode | email_verify.py:122-157 | the new table, the flag and the message are those of `Verify`; well-formed rows stay well formed |
| EmailVerify.IsValidEmail | email_verify.py:159-162 | cutting at the first '@' and the last '.' accepts exactly what the regular expression accepts (some '@' and '.' splitting a non-empty local part, a non-empty domain part and two or more letters) |
| EmailVerify.CutsAreUnique | email_verify.py:161 | any way the pattern fits cuts at the first '@' and at the last '.' |
| EmailVerify.ValidEmailHasOneAt | email_verify.py:161 | a valid address holds exactly one '@' |
| Accounts.Inserted | user_manager.py:247-260 | refused iff the username exists or the email is taken; otherwise exactly one new row with quota_used 0, the given limit, today and the admin flag |
| Accounts.Charged | user_manager.py:327-329 | quota_used of an existing user grows by the amount with no cap; nothing else changes, and an unknown user changes nothing |
| Accounts.Deducted | user_manager.py:298-316 | refused iff the user is unknown or quota_used + count exceeds quota_limit; otherwise the charge of count (the sign of count is not checked) |
| Accounts.Reset | user_manager.py:344-354 | quota_used becomes 0 and last_reset_date today for an existing user; nothing else changes |
| Accounts.DeductStaysWithinLimit | user_manager.py:305-315 | a successful deduction adds exactly count and leaves quota_used at most quota_limit, so it preserves "everyone within limits" |
| Accounts.DeductAtTheBoundary | user_manager.py:305-315 | at 999 of 1000, deducting 2 is refused and deducting 1 reaches 1000 |
| Accounts.DeductionsCompose | user_manager.py:305-313 | two successful deductions in a row equal one deduction of their sum |
| Accounts.ChargeIgnoresLimit | user_manager.py:328-329 | where deduction would be refused, update_quota's charge still goes past the limit |
| Accounts.ResetIsIdempotent | user_manager.py:344-354 | resetting twice on the same day equals resetting once |
| Accounts.InsertKeepsEmailsUnique | user_manager.py:221 | a successful insertion keeps the email column unique |
| Accounts.UserManager.constructor | user_manager.py:208-210 | the manager starts over given tables that satisfy the unique-email constraint |
| Accounts.UserManager.AddUser | user_manager.py:247-260 | the table is `Inserted`'s result, or unchanged on refusal (default limit 1000, not admin); after success, the password verifies, the email finds the user and the info reads back the new row; the log is unchanged |
| Accounts.UserManager.VerifyUser | user_manager.py:262-271 | true only for an existing user, and for one exactly when the stored hash equals the password's hash |
| Accounts.UserManager.CheckQuota | user_manager.py:273-284 | true iff a deduction of one conversation would succeed; false for an unknown user |
| Accounts.UserManager.DeductConversation | user_manager.py:286-321 | the table is `Deducted`'s result, or unchanged on refusal (default count 1); success leaves the user within the limit; the log is unchanged |
| Accounts.UserManager.UpdateQuota | user_manager.py:323-342 | the table is `Charged`'s result, and exactly one usage record is appended, whether or not the user exists |
| Accounts.UserManager.ResetQuota | user_manager.py:344-354 | the table is `Reset`'s result; afterwards check_quota holds iff the limit is positive |
| Accounts.UserManager.GetUserInfo | user_manager.py:356-370 | the user's limit, usage, reset date and admin flag, or None exactly for an unknown user |
| Accounts.UserManager.IsAdmin | user_manager.py:372-379 | the admin flag get_user_info reports; false for an unknown user |
| Accounts.UserManager.GetUserByEmail | user_manager.py:381-388 | None iff no user has the email; otherwise the one user who has it |

## Left out

- SQLite connections, cursors, commits and `init_db` are not modelled. Each call is one atomic step on the tables. The constructors take the tables' initial contents.
- Database errors are not modelled: an `IntegrityError` other than a duplicate username or email, `OperationalError`, or a stored value of the wrong type. So the generic `except` branches are absent: "验证失败: …" in `verify_code`, and the error returns of `deduct_conversation` and `update_quota`.
- Both issuers create a table named `verification_codes` in the same file, with different key columns. They are modelled as two separate stores. The failures that the name clash causes in practice are not modelled.
- The SELECT-then-UPDATE race in `deduct_conversation` is not modelled. It needs concurrent callers, and the model is sequential.
- Hashing is an uninterpreted function. SHA-256 is not modelled.
- The first, shadowed `UserManager` definition (user_manager.py:11-195) is not part of this model. The second definition rebinds the name.
- Transports: the Aliyun client set-up and the SMS request, and the SMTP session and MIME message. Only their success or failure enters the model. The outbound message itself is not recorded.
- The clock's source is not modelled: local time, daylight-saving jumps, and date and time formatting. The clock reading is a parameter with no assumption that it increases.
- Logging configuration and log messages are not modelled.
- IsValidPhone: accepts only ASCII digits, while Python's `\d` also matches other Unicode decimal digits (Arabic-Indic or full-width digits, for example).
- Accounts.UserManager.DeductConversation: values outside SQLite's signed 64-bit integer range are not modelled; the source's UPDATE then raises and the call returns False with nothing changed, while the model applies the unbounded sum.
- Accounts.UserManager.UpdateQuota: values outside the signed 64-bit range are not modelled; the source then writes neither the charge nor the usage record, and an overflowing `quota_used + ?` becomes a REAL in SQLite, while the model charges and appends with unbounded integers.
- Accounts.UserManager.AddUser: a quota limit outside the signed 64-bit range is not modelled; the source then raises an error that its `IntegrityError` handler does not catch, while the model inserts the row.
