# Katabump auto-renewal, modelled in Dafny

`renew_katabump.py` logs into the Katabump dashboard with a real browser, once
per configured account, asks for a server renewal, and sends one notification
with the outcome of every account. This project models the decisions the script
makes around that browser session and proves what they guarantee:

- `Text` (`text.dfy`): the Python string operations the script relies on:
  `str.strip()` (Python's `isspace` characters), `s.split(c, 1)`, `s.split(c)[0]`,
  `re.split('[,;]', s)`, `sep.join(parts)`, `s[:n]` and `str(n)` for a count.
- `Renewal` (`renewal.dfy`): class `KatabumpAutoRenew`. It covers `mask_email`,
  the bounded poll of the challenge-token field, and the test that decides
  whether the expiry date moved. It also covers the chain of steps in `process`
  and what `run` reports, including the truncated error text and the name of
  the screenshot it records. The browser is replaced by a `Page` value: for each
  driver step, whether it went through or raised (and with what text); the
  expiry text before and after; and what each read of the token field returned.
  `KatabumpAutoRenew.Run` is a method on the class and updates
  `screenshotPath` as the script does.
- `Manager` (`manager.dfy`): class `MultiManager`. Its constructor parses the
  account list with a loop, as `__init__` does. `RunAll` loops over the
  accounts. It creates one `KatabumpAutoRenew` per account, counts successes,
  keeps the latest screenshot path and pauses after every account but the
  last. At the end it builds the summary text.

Behaviour of the code that the model keeps and the proofs make explicit:
- The first step that raises ends the account's attempt; nothing is retried
  (lines 225-235). Two steps are tolerated instead: a failed first read of
  the expiry value leaves it empty (lines 151-158), and the challenge step
  is only logged (lines 171-196).
- After the final submit, only the expiry value is checked (lines 212-223).
- The token field is read at most 10 times (line 180). Failing to validate is
  only logged (lines 192-196).
- When a step raises, the failure outcome carries the masked identifier and
  the first 50 characters of the exception text only (line 235). The expiry
  check's own failures carry the old expiry value (line 221) or the full
  exception text, never cut (line 223).
- Identifier masking is not idempotent, and it can return the identifier
  unchanged. For example, "ab@x" masks to "a***@x", which masks again to
  "a****@x". "a@b@c" masks to "UnknownUser", which masks again to "U***r".
  "a***b" masks to itself. `Renewal.MaskShortLocalNotIdempotent`,
  `Renewal.MaskUnknownNotIdempotent` and `Renewal.MaskCanReturnInput` prove
  these cases. `Renewal.MaskPlainIdempotent` and `Renewal.MaskEmailIdempotent`
  prove the cases where masking twice changes nothing.

## Model

| member | source | states |
|---|---|---|
| Renewal.MaskEmail | renew_katabump.py:84-90 | with exactly one '@' and a non-empty local part, the domain is kept verbatim and the local part shows only its first character followed by "***", plus its last character when it is longer than two |
| Renewal.MaskUnknown | renew_katabump.py:85-93 | an empty local part, or a second '@', makes the split or the indexing raise, and the result is "UnknownUser" |
| Renewal.MaskPlain | renew_katabump.py:91 | a plain identifier of at most two characters comes back unchanged; a longer one becomes its first character, "***" and its last character; the result equals the input exactly when the input is that short or already has the shape x***y |
| Renewal.MaskPlainIdempotent | renew_katabump.py:91 | masking a plain identifier twice gives the same as masking it once |
| Renewal.MaskEmailIdempotent | renew_katabump.py:86-90 | for a local part longer than two, masking twice gives the same as masking once |
| Renewal.MaskShortLocalNotIdempotent | renew_katabump.py:88-89 | for a local part of one or two characters, a second masking adds a fourth star |
| Renewal.MaskUnknownNotIdempotent | renew_katabump.py:87-93 | "a@b@c" masks to "UnknownUser", which masks to "U***r" |
| Renewal.MaskCanReturnInput | renew_katabump.py:91 | "a***b" is its own mask, so masking can return the identifier in full |
| Renewal.PollFrom | renew_katabump.py:178-190 | the poll stops at the first token longer than 20 characters or at the first failing read; before that, every read returned an unacceptable value; no more than 10 reads happen |
| Renewal.PollValidatedIff | renew_katabump.py:180-189 | the poll validates exactly when, within the first 10 reads, an acceptable token comes after nothing but unacceptable values |
| Renewal.PollToken | renew_katabump.py:178-193 | the loop with its flag and `break` computes exactly what `Poll` specifies |
| Renewal.ChallengeNeverDecides | renew_katabump.py:171-196 | whatever locating and clicking the challenge widget and the token reads do, the account's outcome is the same: the step is only logged |
| Renewal.Verify | renew_katabump.py:212-223 | the renewal counts exactly when the expiry element could be read and its stripped text is non-empty and differs from the value before |
| Renewal.VerifyMessage | renew_katabump.py:218-223 | the message opens with ✅ or ❌ and the masked identifier; it ends with the new expiry on success, with the old value in parentheses when nothing changed, and with the exception text when the read failed |
| Renewal.FailureMessage | renew_katabump.py:235 | the failure message is the fixed head with the masked identifier, followed by the first 50 characters of the error (all of it when shorter) |
| Renewal.ScreenshotNameOf | renew_katabump.py:232 | the screenshot name holds the identifier's part before its first '@', or the whole identifier when there is none |
| Renewal.Process | renew_katabump.py:116-223 | the first step that raises, in the order of the source, ends the flow with its text: the two fixed texts for the login fields, the raw text for the login submit and the details link, the text behind "无法打开弹窗: " or "弹窗内提交失败: " for the two dialog steps; when every step goes through, the result is the expiry check |
| Renewal.Attempt | renew_katabump.py:116-235 | an account succeeds exactly when every driver step went through and the expiry moved to a non-empty new value; a screenshot name is recorded exactly when a step raised; the message is then the failure message built from the text of the first raising step, and otherwise the expiry check's message |
| Renewal.KatabumpAutoRenew.constructor | renew_katabump.py:77-82 | a new worker keeps the identifier and password and has no screenshot path |
| Renewal.KatabumpAutoRenew.Run | renew_katabump.py:225-238 | `run` returns the outcome of `Attempt`; it sets the screenshot path only when an exception escaped and otherwise leaves it as it was |
| Manager.ParseEntry | renew_katabump.py:246-248 | a piece gives an account exactly when it holds ':', and the user then holds no ':' |
| Manager.ParseEntryOf | renew_katabump.py:247-248 | "user:password" splits at its first ':' only, into the stripped user and the stripped rest |
| Manager.ParseAllMatches | renew_katabump.py:245-248 | parsing keeps one account per piece that holds ':', in the order of the pieces, each the account that piece gives |
| Manager.ParseAccountsMatches | renew_katabump.py:243-248 | the pieces are the stretches of the list between ',' and ';', which weave back into the list, and the accounts come from exactly the pieces that hold ':' |
| Manager.ParseTwoAccounts | renew_katabump.py:242-248 | two "user:password" entries joined by ',' or ';' give the two stripped accounts in order |
| Manager.MultiManager.constructor | renew_katabump.py:242-248 | the parsing loop leaves exactly `ParseAccounts` of the list in `accounts` |
| Manager.SuccessesCount | renew_katabump.py:255-262 | the success count is the number of accounts whose outcome is a success |
| Manager.LastScreenshotIsLatest | renew_katabump.py:254-263 | the attachment is the screenshot path of the latest account that recorded one, and there is none only when no account recorded one |
| Manager.AttachmentIsFailure | renew_katabump.py:263 | an attachment comes from an account that failed, and its name is the screenshot name of line 232 for that account's identifier |
| Manager.RunAccount | renew_katabump.py:259-261 | a fresh worker run once yields exactly the account's `Attempt` outcome, screenshot path included |
| Manager.SummaryHoldsMessage | renew_katabump.py:270-271 | the summary opens with the header and then holds every account's message in order, with a blank line after each but the last |
| Manager.HeaderNumbers | renew_katabump.py:270 | the header's two numbers read back as the success count and the total |
| Manager.MultiManager.RunAll | renew_katabump.py:250-271 | the loop's count, attachment and summary are those of the outcomes of all accounts in order, and it pauses after every account but the last |
| Text.StripUnique | renew_katabump.py:248 | `Strip` cuts exactly the leading and trailing whitespace: any slice with only whitespace around it and none at its ends is the result |
| Text.StripIdempotent | renew_katabump.py:248 | stripping twice gives the same as stripping once |
| Text.SplitFirstOfJoined | renew_katabump.py:247 | splitting `u + c + v` at the first `c`, where `u` holds no `c`, gives back `u` and `v` |
| Text.BeforeFirst | renew_katabump.py:232 | the text before the first `c` is a prefix without `c`; it is shorter than the input exactly when `c` occurs |
| Text.SplitAnyWeave | renew_katabump.py:243 | weaving the pieces of `re.split` back together with the separators that were cut out gives the original string |
| Text.WeaveSplitAny | renew_katabump.py:243 | splitting separator-free pieces woven with separators gives the pieces back |
| Text.JoinAt | renew_katabump.py:271 | every part stands in the joined text at its offset, followed by the separator unless it is the last |
| Text.Take | renew_katabump.py:235 | `s[:n]` is a prefix of `s` of length `min(|s|, n)` |
| Text.DecimalRoundTrip | renew_katabump.py:270 | the digits written for a count read back as that count |

## Left out

- Browser driving: the model does not capture WebDriver waits, selectors,
  clicks, scrolling, the offset click on the challenge widget or the typing of
  characters. Each step is an observation in `Page`: went through, or raised
  with a text. A failed `human_type` is a `false` field.
- The values of the expiry element and of the token field come from the page.
  A JavaScript `null` from the token read is modelled as the empty value;
  Python treats both as false.
- Random delays, `sleep` and `human_delay`: time is not modelled. The pause
  between accounts is recorded as the position after which it happens, not as
  a duration.
- `send_telegram` and the HTTP request it makes: the model builds the summary
  text and picks the screenshot to attach. It does not model the notification
  prefix with the timestamp, or the delivery.
- Saving the screenshot file, deleting `error-*.png` files after the
  notification, and `driver.quit()`: these are file-system and browser effects.
  An exception raised by `save_screenshot` or `quit` itself is not modelled.
- The driver set-up fallback in `setup_driver`, reading the `ACCOUNTS` and
  other environment variables, logging, and the exit at the end: configuration
  and I/O. The account list is a parameter of the `MultiManager` constructor.
- The check at lines 280-282: when `ACCOUNTS` is empty, the script logs an
  error and exits with status 1 before any `MultiManager` is built. The model
  has no exit. `MultiManager("")` has no accounts, and its `RunAll` gives a
  "0/0" summary that the script never sends.
- The text of an exception is an opaque string. Selenium's own formatting of
  exception messages is not modelled.
- Renewal.KatabumpAutoRenew.Run: the method does not launch or quit a browser.
  The whole session is the `Page` it is given.
