/** One account's renewal: class `KatabumpAutoRenew` of renew_katabump.py.

    The browser is not modelled. What the flow in `process` observes is a
    `Page`: for each step whether the driver call went through or raised (and
    with what text), whether the two login fields could be typed into, the text
    of the expiry element before and after the renewal, and the values the
    hidden challenge-token field returns on successive reads. Over such a page
    the model decides what the script decides: the masked identifier, the
    outcome of the token poll, whether the renewal took effect, and what `run`
    reports and which screenshot name it records when an exception escapes. */
module Renewal {
  import opened Wrappers
  import opened Text

  // ---------------------------------------------------------------------
  // Identifier masking (`mask_email`)
  // ---------------------------------------------------------------------

  /** What `mask_email` returns when its body raises. */
  const UnknownUser: string := "UnknownUser"

  /** `mask_email`: an identifier with one '@' keeps its domain and shows only
      the first (and, for a local part longer than two, the last) character of
      the local part; a plain identifier longer than two shows its first and
      last character; a plain identifier of at most two characters is returned
      as it is. The tuple unpacking of `user.split('@')` raises when there is
      more than one '@', and `prefix[0]` raises when the local part is empty;
      both land in the bare `except` and give "UnknownUser". */
  function Mask(user: string): string
  {
    if '@' in user then
      if Count(user, '@') != 1 then UnknownUser
      else
        var (prefix, domain) := SplitFirst(user, '@').value;
        if |prefix| <= 2 then
          if prefix == [] then UnknownUser else [prefix[0]] + "***@" + domain
        else [prefix[0]] + "***" + [prefix[|prefix| - 1]] + "@" + domain
    else if |user| > 2 then [user[0]] + "***" + [user[|user| - 1]]
    else user
  }

  /** An identifier with exactly one '@' and a non-empty local part keeps its
      domain verbatim, and of the local part only its first character, and its
      last one when the local part is longer than two. */
  lemma MaskEmail(local: string, domain: string)
    requires '@' !in local && '@' !in domain && local != []
    ensures Mask(local + "@" + domain) ==
      if |local| <= 2 then [local[0]] + "***@" + domain
      else [local[0]] + "***" + [local[|local| - 1]] + "@" + domain
  {
    var user := local + "@" + domain;
    assert Count(user, '@') == 1 by {
      CountAppend(local, "@", '@');
      CountAppend(local + "@", domain, '@');
    }
    assert '@' in user by { assert user[|local|] == '@'; }
    SplitFirstOfJoined(local, '@', domain);
  }

  /** Masking gives "UnknownUser" when the local part is empty or a second '@'
      follows the first: every identifier with '@' that `MaskEmail` leaves out. */
  lemma MaskUnknown(local: string, rest: string)
    requires '@' !in local
    requires local == [] || '@' in rest
    ensures Mask(local + "@" + rest) == UnknownUser
  {
    var user := local + "@" + rest;
    CountAppend(local, "@", '@');
    CountAppend(local + "@", rest, '@');
    assert '@' in user by { assert user[|local|] == '@'; }
    SplitFirstOfJoined(local, '@', rest);
  }

  /** A plain identifier longer than two characters is cut down to its first
      and last character around "***"; a shorter one comes back unchanged.
      Such an identifier is returned as it is exactly when it is at most two
      characters long or already has the masked shape x***y. */
  lemma MaskPlain(user: string)
    requires '@' !in user
    ensures |user| <= 2 ==> Mask(user) == user
    ensures |user| > 2 ==>
      |Mask(user)| == 5 && Mask(user)[0] == user[0] && Mask(user)[4] == user[|user| - 1] &&
      Mask(user)[1..4] == "***"
    ensures Mask(user) == user <==> |user| <= 2 || (|user| == 5 && user[1..4] == "***")
  {
    if |user| == 5 && user[1..4] == "***" {
      assert Mask(user) == [user[0]] + user[1..4] + [user[4]];
      assert user == [user[0]] + user[1..4] + [user[4]];
    }
  }

  /** Masking a plain identifier twice gives what masking it once gives. */
  lemma MaskPlainIdempotent(user: string)
    requires '@' !in user
    ensures Mask(Mask(user)) == Mask(user)
  {
    MaskPlain(user);
    var m := Mask(user);
    if |user| > 2 {
      assert '@' !in m by {
        assert m == [user[0]] + "***" + [user[|user| - 1]];
      }
      MaskPlain(m);
    }
  }

  /** Masking an identifier whose local part is longer than two characters
      twice gives what masking it once gives. */
  lemma MaskEmailIdempotent(local: string, domain: string)
    requires '@' !in local && '@' !in domain && |local| > 2
    ensures Mask(Mask(local + "@" + domain)) == Mask(local + "@" + domain)
  {
    MaskEmail(local, domain);
    var shown := [local[0]] + "***" + [local[|local| - 1]];
    assert Mask(local + "@" + domain) == shown + "@" + domain;
    MaskEmail(shown, domain);
  }

  /** Masking is not idempotent in general: masking again an identifier whose
      local part has one or two characters adds a fourth star. */
  lemma MaskShortLocalNotIdempotent(local: string, domain: string)
    requires '@' !in local && '@' !in domain && 1 <= |local| <= 2
    ensures Mask(local + "@" + domain) == [local[0]] + "***@" + domain
    ensures Mask(Mask(local + "@" + domain)) == [local[0]] + "****@" + domain
  {
    MaskEmail(local, domain);
    assert local[0] in local;
    MaskStarred(local[0], domain);
  }

  /** The mask of a short local part, masked again. */
  lemma MaskStarred(c: char, domain: string)
    requires c != '@' && '@' !in domain
    ensures Mask([c] + "***@" + domain) == [c] + "****@" + domain
  {
    var shown := [c] + "***";
    assert '@' !in shown by {
      assert forall k :: 0 <= k < |shown| ==> shown[k] == c || shown[k] == '*';
    }
    MaskEmail(shown, domain);
    assert shown + "@" + domain == [c] + "***@" + domain by {
      assert "***" + "@" == "***@";
    }
    assert shown[0] == c && shown[|shown| - 1] == '*';
    assert "***" + "*" + "@" == "****@";
    assert [c] + "***" + "*" + "@" + domain == [c] + ("***" + "*" + "@") + domain;
  }

  /** Nor is it idempotent on "UnknownUser", which is masked again like any
      plain identifier. */
  lemma MaskUnknownNotIdempotent()
    ensures Mask("a@b@c") == UnknownUser && Mask(UnknownUser) == "U***r"
  {
    MaskUnknown("a", "b@c");
    assert "a" + "@" + "b@c" == "a@b@c";
    MaskPlain(UnknownUser);
  }

  /** An identifier longer than two characters can come back in full: one that
      already has the masked shape is its own mask. */
  lemma MaskCanReturnInput()
    ensures Mask("a***b") == "a***b"
  {
    MaskPlain("a***b");
  }

  // ---------------------------------------------------------------------
  // The challenge-token poll (lines 172-196)
  // ---------------------------------------------------------------------

  /** The poll reads the hidden token field at most this many times. */
  const PollLimit: nat := 10

  /** A token is accepted when it is longer than this. */
  const TokenMinLength: nat := 20

  /** What one read of the hidden token field gives: the field's value (a
      JavaScript null is the empty value, both being falsy in Python), or the
      text of the exception `execute_script` raised. */
  datatype Probe = Value(text: string) | ScriptFailed(error: string)

  /** `token and len(token) > 20` */
  predicate Ready(p: Probe) {
    p.Value? && |p.text| > TokenMinLength
  }

  /** How the poll ended: a token was seen on read number `readsDone`; all
      reads came back without one; or read number `readsDone` raised, which
      ends the challenge step through its `try`, where it is only logged. */
  datatype PollResult = Validated(readsDone: nat) | NotValidated | Interrupted(readsDone: nat, error: string)

  /** The poll from read `i` on, where `token(j)` is what read `j` returns. */
  function Poll(token: nat -> Probe, i: nat): PollResult
    requires i <= PollLimit
    decreases PollLimit - i
  {
    if i == PollLimit then NotValidated
    else
      match token(i)
      case ScriptFailed(e) => Interrupted(i + 1, e)
      case Value(t) => if |t| > TokenMinLength then Validated(i + 1) else Poll(token, i + 1)
  }

  /** Reads `lo` to `hi - 1` all returned a value that is not an acceptable token. */
  ghost predicate Quiet(token: nat -> Probe, lo: nat, hi: nat) {
    forall j :: lo <= j < hi ==> token(j).Value? && !Ready(token(j))
  }

  /** What the poll from read `i` returns, described read by read: it stops at
      the first acceptable token or the first failing read, and otherwise gives
      up after read `PollLimit - 1`; it never reads more than `PollLimit` times. */
  lemma {:induction false} PollFrom(token: nat -> Probe, i: nat)
    requires i <= PollLimit
    ensures match Poll(token, i)
      case Validated(n) => i < n <= PollLimit && Ready(token(n - 1)) && Quiet(token, i, n - 1)
      case NotValidated => Quiet(token, i, PollLimit)
      case Interrupted(n, e) => i < n <= PollLimit && token(n - 1) == ScriptFailed(e) && Quiet(token, i, n - 1)
    decreases PollLimit - i
  {
    if i < PollLimit && token(i).Value? && !Ready(token(i)) {
      PollFrom(token, i + 1);
    }
  }

  /** The poll validates exactly when an acceptable token appears within the
      first `PollLimit` reads with nothing but unacceptable values before it. */
  lemma PollValidatedIff(token: nat -> Probe)
    ensures Poll(token, 0).Validated? <==>
      exists n :: 0 <= n < PollLimit && Ready(token(n)) && Quiet(token, 0, n)
  {
    PollFrom(token, 0);
    if n :| 0 <= n < PollLimit && Ready(token(n)) && Quiet(token, 0, n) {
      match Poll(token, 0)
      case Validated(_) =>
      case NotValidated =>
      case Interrupted(m, _) =>
    }
  }

  /** The bounded `for _ in range(10)` loop with its `validated` flag and
      `break`; a read that raises leaves the loop through the enclosing `try`. */
  method PollToken(token: nat -> Probe) returns (r: PollResult)
    ensures r == Poll(token, 0)
  {
    var validated := false;
    r := NotValidated;
    var i := 0;
    while i < PollLimit
      invariant i <= PollLimit
      invariant Poll(token, i) == Poll(token, 0)
    {
      var probe := token(i);
      if probe.ScriptFailed? {
        return Interrupted(i + 1, probe.error);
      }
      if |probe.text| > TokenMinLength {
        r := Validated(i + 1);
        validated := true;
        break;
      }
      i := i + 1;
    }
    if !validated {
      r := NotValidated;
    }
  }

  // ---------------------------------------------------------------------
  // The page the flow observes, and the result check (lines 212-223)
  // ---------------------------------------------------------------------

  /** A driver call that either went through or raised an exception with the
      given text. */
  datatype Step = Done | Raised(error: string)

  /** A read of the expiry element after the renewal: its text, or the text of
      the exception `find_element` raised. */
  datatype Read = Shown(text: string) | Unreadable(error: string)

  /** What one account's browser session observes, step by step. */
  datatype Page = Page(
    launch: Step,                 // `setup_driver`, then loading the login page
    emailTyped: bool,             // `human_type` into input#email
    passwordTyped: bool,          // `human_type` into input#password
    loginSubmit: Step,            // clicking the login button
    detailsLink: Step,            // waiting for and clicking the "See" link
    expiryBefore: Option<string>, // the expiry element's text, or None when it could not be read
    renewTrigger: Step,           // waiting for and clicking the "Renew" button
    widget: Step,                 // locating and clicking the challenge widget
    token: nat -> Probe,          // successive reads of the hidden token field
    confirm: Step,                // waiting for and clicking the dialog's submit button
    expiryAfter: Read)            // the expiry element after the settle delay

  const NoEmailField: string := "未找到用户名输入框"
  const NoPasswordField: string := "未找到密码输入框"
  const DialogFailed: string := "无法打开弹窗: "
  const SubmitFailed: string := "弹窗内提交失败: "

  /** The expiry value read before the renewal: the stripped text, or "" when
      it could not be read (that failure is only logged). */
  function InitialExpiry(before: Option<string>): string
  {
    match before
    case None => ""
    case Some(t) => Strip(t)
  }

  /** The success test of line 218: the value after the renewal is not empty
      and differs from the one before it. */
  predicate Renewed(initial: string, final: string) {
    final != initial && |final| > 0
  }

  /** What `process` returns once the final submit went through. */
  datatype Verdict = Verdict(renewed: bool, message: string)

  /** The result check of lines 212-223. */
  function Verify(masked: string, initial: string, after: Read): (v: Verdict)
    ensures v.renewed <==> after.Shown? && Strip(after.text) != "" && Strip(after.text) != initial
  {
    match after
    case Unreadable(e) => Verdict(false, "❌ " + masked + "\n⚠️ 验证结果出错: " + e)
    case Shown(t) =>
      var final := Strip(t);
      if Renewed(initial, final) then Verdict(true, "✅ " + masked + "\n🎉 续期成功： " + final)
      else Verdict(false, "❌ " + masked + "\n⚠️ 时间未更新 (" + initial + ")")
  }

  /** `s` begins with `p`. */
  predicate StartsWith(s: string, p: string) {
    |p| <= |s| && s[..|p|] == p
  }

  /** `s` ends with `p`. */
  predicate EndsWith(s: string, p: string) {
    |p| <= |s| && s[|s| - |p|..] == p
  }

  /** What the result check reports: the message opens with the mark and the
      masked identifier, and ends with the new value on success, with the old
      value in parentheses when the value did not change, and with the
      exception's text when the expiry element could not be read. */
  lemma VerifyMessage(masked: string, initial: string, after: Read)
    ensures var v := Verify(masked, initial, after);
      StartsWith(v.message, if v.renewed then "✅ " + masked else "❌ " + masked)
    ensures var v := Verify(masked, initial, after);
      && (v.renewed ==> EndsWith(v.message, Strip(after.text)))
      && (after.Shown? && !v.renewed ==> EndsWith(v.message, "(" + initial + ")"))
      && (after.Unreadable? ==> EndsWith(v.message, after.error))
  {
    match after {
      case Unreadable(e) =>
        Framed("❌ ", masked, "\n⚠️ 验证结果出错: ", e);
      case Shown(t) =>
        VerifyShown(masked, initial, t);
    }
  }

  /** `VerifyMessage` when the expiry element could be read. */
  lemma VerifyShown(masked: string, initial: string, t: string)
    ensures var v := Verify(masked, initial, Shown(t));
      && (v.renewed ==> StartsWith(v.message, "✅ " + masked) && EndsWith(v.message, Strip(t)))
      && (!v.renewed ==> StartsWith(v.message, "❌ " + masked) && EndsWith(v.message, "(" + initial + ")"))
  {
    if Renewed(initial, Strip(t)) {
      Framed("✅ ", masked, "\n🎉 续期成功： ", Strip(t));
    } else {
      Framed("❌ ", masked, "\n⚠️ 时间未更新 ", "(" + initial + ")");
    }
  }

  /** A message made of a mark, the masked identifier, fixed text and a body
      opens with the mark and the identifier and ends with the body. */
  lemma Framed(mark: string, masked: string, middle: string, body: string)
    ensures StartsWith(mark + masked + middle + body, mark + masked)
    ensures EndsWith(mark + masked + middle + body, body)
  {
    var m := mark + masked + middle + body;
    assert m[..|mark + masked|] == mark + masked;
    assert m[|m| - |body|..] == body;
  }

  /** `process` after the driver is up: the first step that raises ends it with
      that exception's text (wrapped as the script wraps it); otherwise the
      result check decides. The challenge step never ends it. */
  function Process(masked: string, page: Page): (r: Result<Verdict, string>)
    ensures !page.emailTyped ==> r == Err(NoEmailField)
    ensures page.emailTyped && !page.passwordTyped ==> r == Err(NoPasswordField)
    ensures page.emailTyped && page.passwordTyped && page.loginSubmit.Raised? ==>
      r == Err(page.loginSubmit.error)
    ensures page.emailTyped && page.passwordTyped && page.loginSubmit.Done? && page.detailsLink.Raised? ==>
      r == Err(page.detailsLink.error)
    ensures (page.emailTyped && page.passwordTyped && page.loginSubmit.Done? && page.detailsLink.Done? &&
             page.renewTrigger.Raised?) ==>
      r == Err(DialogFailed + page.renewTrigger.error)
    ensures (page.emailTyped && page.passwordTyped && page.loginSubmit.Done? && page.detailsLink.Done? &&
             page.renewTrigger.Done? && page.confirm.Raised?) ==>
      r == Err(SubmitFailed + page.confirm.error)
    ensures r.Ok? <==> StepsPass(page.(launch := Done))
    ensures r.Ok? ==> r.value == Verify(masked, InitialExpiry(page.expiryBefore), page.expiryAfter)
  {
    if !page.emailTyped then Err(NoEmailField)
    else if !page.passwordTyped then Err(NoPasswordField)
    else if page.loginSubmit.Raised? then Err(page.loginSubmit.error)
    else if page.detailsLink.Raised? then Err(page.detailsLink.error)
    else
      var initial := InitialExpiry(page.expiryBefore);
      if page.renewTrigger.Raised? then Err(DialogFailed + page.renewTrigger.error)
      else if page.confirm.Raised? then Err(SubmitFailed + page.confirm.error)
      else Ok(Verify(masked, initial, page.expiryAfter))
  }

  // ---------------------------------------------------------------------
  // `run`: exceptions become a failed outcome with a screenshot name
  // ---------------------------------------------------------------------

  /** How many characters of an exception's text a failure message keeps. */
  const ErrorTextLimit: nat := 50

  /** The failure message of line 235: the masked identifier and at most the
      first 50 characters of the exception's text. */
  function FailureMessage(masked: string, error: string): (m: string)
    ensures |m| == |masked| + 8 + (if |error| <= ErrorTextLimit then |error| else ErrorTextLimit)
    ensures m[..|masked| + 8] == "❌ " + masked + " 操作失败："
    ensures m[|masked| + 8..] <= error
    ensures |error| <= ErrorTextLimit ==> m[|masked| + 8..] == error
  {
    var head := "❌ " + masked + " 操作失败：";
    assert |head| == |masked| + 8;
    head + Take(error, ErrorTextLimit)
  }

  /** The screenshot name of line 232: "error-", the identifier up to its first
      '@' (all of it when there is none), ".png". */
  function ScreenshotName(user: string): string
  {
    "error-" + BeforeFirst(user, '@') + ".png"
  }

  /** The screenshot name holds exactly the local part of an identifier with
      '@', and the whole identifier otherwise. */
  lemma ScreenshotNameOf(local: string, rest: string)
    requires '@' !in local
    ensures ScreenshotName(local + "@" + rest) == "error-" + local + ".png"
    ensures ScreenshotName(local) == "error-" + local + ".png"
  {
    SplitFirstOfJoined(local, '@', rest);
  }

  /** What `run` reports for one account. */
  datatype Outcome = Outcome(success: bool, message: string, screenshot: Option<string>)

  /** Every driver call before the result check went through. */
  predicate StepsPass(page: Page) {
    && page.launch.Done? && page.emailTyped && page.passwordTyped
    && page.loginSubmit.Done? && page.detailsLink.Done?
    && page.renewTrigger.Done? && page.confirm.Done?
  }

  /** `run` for an account with identifier `user`. It succeeds exactly when
      every step went through and the expiry value changed to a non-empty one;
      it records a screenshot name exactly when a step raised, and then reports
      a failure with the truncated exception text. The challenge step plays no
      part in any of this. */
  function Attempt(user: string, page: Page): (o: Outcome)
    ensures o.success <==>
      StepsPass(page) && page.expiryAfter.Shown? &&
      Renewed(InitialExpiry(page.expiryBefore), Strip(page.expiryAfter.text))
    ensures o.screenshot == if StepsPass(page) then None else Some(ScreenshotName(user))
    ensures !StepsPass(page) ==>
      (|Mask(user)| + 8 <= |o.message| <= |Mask(user)| + 8 + ErrorTextLimit &&
       o.message[..|Mask(user)| + 8] == "❌ " + Mask(user) + " 操作失败：")
    ensures page.launch.Raised? ==> o.message == FailureMessage(Mask(user), page.launch.error)
    ensures page.launch.Done? && Process(Mask(user), page).Err? ==>
      o.message == FailureMessage(Mask(user), Process(Mask(user), page).error)
    ensures StepsPass(page) ==>
      o.message == Verify(Mask(user), InitialExpiry(page.expiryBefore), page.expiryAfter).message
  {
    var masked := Mask(user);
    var r := if page.launch.Raised? then Err(page.launch.error) else Process(masked, page);
    match r
    case Ok(v) => Outcome(v.renewed, v.message, None)
    case Err(e) => Outcome(false, FailureMessage(masked, e), Some(ScreenshotName(user)))
  }

  /** However the challenge step goes, `run` reports the same. The page's
      `widget` and `token` fields are read by no step of the flow; they are
      there so that this independence can be stated, and it holds by the way
      `Process` and `Attempt` are built, as the step's catch-all `except`
      makes it hold in the script. */
  lemma ChallengeNeverDecides(user: string, page: Page, widget: Step, token: nat -> Probe)
    ensures Attempt(user, page.(widget := widget, token := token)) == Attempt(user, page)
  {
  }

  /** The worker for one account. */
  class KatabumpAutoRenew {
    const user: string
    const password: string
    const maskedUser: string := Mask(user)
    var screenshotPath: Option<string>

    constructor (user: string, password: string)
      ensures this.user == user && this.password == password
      ensures screenshotPath == None
    {
      this.user := user;
      this.password := password;
      screenshotPath := None;
    }

    /** `run`: sets the screenshot path only when an exception escaped. */
    method Run(page: Page) returns (success: bool, message: string)
      modifies this
      ensures success == Attempt(user, page).success
      ensures message == Attempt(user, page).message
      ensures screenshotPath ==
        if Attempt(user, page).screenshot.Some? then Attempt(user, page).screenshot else old(screenshotPath)
    {
      var r := if page.launch.Raised? then Err(page.launch.error) else Process(maskedUser, page);
      match r {
        case Ok(v) =>
          success, message := v.renewed, v.message;
        case Err(e) =>
          screenshotPath := Some(ScreenshotName(user));
          success, message := false, FailureMessage(maskedUser, e);
      }
    }
  }
}
