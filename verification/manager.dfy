/** The orchestrator: class `MultiManager` of renew_katabump.py. Its
    constructor reads the account list, and `RunAll` runs one
    `KatabumpAutoRenew` per account, strictly one after the other, and builds
    the one summary that is sent at the end. The list is a parameter of the
    constructor instead of the `ACCOUNTS` environment variable, and what each
    account's browser observes is a parameter of `RunAll`. */
module Manager {
  import opened Wrappers
  import opened Text
  import opened Renewal

  // ---------------------------------------------------------------------
  // The account list (`MultiManager.__init__`)
  // ---------------------------------------------------------------------

  /** One configured account. */
  datatype Account = Account(user: string, pass: string)

  /** The characters `re.split(r'[,;]', ...)` cuts the list at. */
  const AccountSeparators: set<char> := {',', ';'}

  /** One piece of the list: no account when it holds no ':'; otherwise the
      text before its first ':' is the user and the rest the password, both
      stripped. The user therefore never holds a ':'. */
  function ParseEntry(piece: string): (r: Option<Account>)
    ensures r.Some? <==> ':' in piece
    ensures r.Some? ==> ':' !in r.value.user
  {
    match SplitFirst(piece, ':')
    case None => None
    case Some((u, p)) =>
      StripKeepsOut(u, ':');
      Some(Account(Strip(u), Strip(p)))
  }

  /** A piece splits at its first ':' only: the user is the stripped text
      before it and the password the stripped rest, later ':' included. */
  lemma ParseEntryOf(user: string, pass: string)
    requires ':' !in user
    ensures ParseEntry(user + ":" + pass) == Some(Account(Strip(user), Strip(pass)))
  {
    SplitFirstOfJoined(user, ':', pass);
  }

  /** The accounts the pieces give, in order: the loop of lines 245-248. */
  function ParseAll(pieces: seq<string>): (r: seq<Account>)
    ensures |r| <= |pieces|
  {
    if pieces == [] then []
    else
      var last := pieces[|pieces| - 1];
      ParseAll(pieces[..|pieces| - 1]) + (if ':' in last then [ParseEntry(last).value] else [])
  }

  /** The account list a configuration string gives. */
  function ParseAccounts(raw: string): seq<Account>
  {
    ParseAll(SplitAny(raw, AccountSeparators))
  }

  /** The positions of the pieces that hold ':', in increasing order. */
  function ColonPieces(pieces: seq<string>): (r: seq<nat>)
    ensures forall k :: 0 <= k < |r| ==> r[k] < |pieces| && ':' in pieces[r[k]]
    ensures forall k, l :: 0 <= k < l < |r| ==> r[k] < r[l]
    ensures forall i :: 0 <= i < |pieces| && ':' in pieces[i] ==> i in r
  {
    if pieces == [] then []
    else
      var n := |pieces| - 1;
      var front := ColonPieces(pieces[..n]);
      assert forall k :: 0 <= k < |front| ==> pieces[front[k]] == pieces[..n][front[k]];
      assert forall i :: 0 <= i < n ==> pieces[..n][i] == pieces[i];
      if ':' in pieces[n] then front + [n] else front
  }

  /** Parsing yields exactly one account per piece that holds ':', in the order
      of the pieces, each the one that piece gives; pieces without ':' are
      dropped. */
  lemma {:induction false} ParseAllMatches(pieces: seq<string>)
    ensures |ParseAll(pieces)| == |ColonPieces(pieces)|
    ensures forall k :: 0 <= k < |ParseAll(pieces)| ==>
      ParseEntry(pieces[ColonPieces(pieces)[k]]) == Some(ParseAll(pieces)[k])
  {
    if pieces != [] {
      var n := |pieces| - 1;
      var front := pieces[..n];
      ParseAllMatches(front);
      var r, idx := ParseAll(pieces), ColonPieces(pieces);
      var fr, fidx := ParseAll(front), ColonPieces(front);
      if ':' in pieces[n] {
        assert r == fr + [ParseEntry(pieces[n]).value] && idx == fidx + [n];
      } else {
        assert r == fr && idx == fidx;
      }
      forall k | 0 <= k < |fr|
        ensures ParseEntry(pieces[idx[k]]) == Some(r[k])
      {
        assert idx[k] == fidx[k] && r[k] == fr[k];
        assert pieces[fidx[k]] == front[fidx[k]];
      }
    }
  }

  /** Together with `SplitAnyWeave`: the pieces parsed are the separator-free
      stretches of the configuration string, and parsing keeps exactly those
      that hold ':'. */
  lemma ParseAccountsMatches(raw: string)
    ensures var pieces := SplitAny(raw, AccountSeparators);
      && |pieces| == |SepsOf(raw, AccountSeparators)| + 1
      && Weave(pieces, SepsOf(raw, AccountSeparators)) == raw
      && |ParseAccounts(raw)| == |ColonPieces(pieces)|
      && forall k :: 0 <= k < |ParseAccounts(raw)| ==>
           ParseEntry(pieces[ColonPieces(pieces)[k]]) == Some(ParseAccounts(raw)[k])
  {
    SplitAnyWeave(raw, AccountSeparators);
    ParseAllMatches(SplitAny(raw, AccountSeparators));
  }

  /** A list of two entries "user:password" joined by ',' or ';' gives the
      two accounts, in order, each user and password stripped. */
  lemma ParseTwoAccounts(u1: string, p1: string, sep: char, u2: string, p2: string)
    requires sep in AccountSeparators
    requires ':' !in u1 && ':' !in u2
    requires Avoids(u1, AccountSeparators) && Avoids(p1, AccountSeparators)
    requires Avoids(u2, AccountSeparators) && Avoids(p2, AccountSeparators)
    ensures ParseAccounts(u1 + ":" + p1 + [sep] + u2 + ":" + p2) ==
      [Account(Strip(u1), Strip(p1)), Account(Strip(u2), Strip(p2))]
  {
    var e1, e2 := u1 + ":" + p1, u2 + ":" + p2;
    EntryAvoids(u1, p1);
    EntryAvoids(u2, p2);
    var pieces := [e1, e2];
    assert Weave(pieces, [sep]) == u1 + ":" + p1 + [sep] + u2 + ":" + p2 by {
      assert pieces[1..] == [e2];
    }
    WeaveSplitAny(pieces, [sep], AccountSeparators);
    ParseEntryOf(u1, p1);
    ParseEntryOf(u2, p2);
    ParseAllPair(pieces, Account(Strip(u1), Strip(p1)), Account(Strip(u2), Strip(p2)));
  }

  /** An entry built from separator-free parts is separator-free. */
  lemma EntryAvoids(user: string, pass: string)
    requires Avoids(user, AccountSeparators) && Avoids(pass, AccountSeparators)
    ensures Avoids(user + ":" + pass, AccountSeparators)
  {
    var e := user + ":" + pass;
    forall k | 0 <= k < |e|
      ensures e[k] !in AccountSeparators
    {
      if k < |user| {
        assert e[k] == user[k];
      } else if k > |user| {
        assert e[k] == pass[k - |user| - 1];
      }
    }
  }

  /** Two pieces that both hold ':' give their two accounts, in order. */
  lemma ParseAllPair(pieces: seq<string>, a: Account, b: Account)
    requires |pieces| == 2
    requires ParseEntry(pieces[0]) == Some(a) && ParseEntry(pieces[1]) == Some(b)
    ensures ParseAll(pieces) == [a, b]
  {
    var front := pieces[..1];
    assert front[0] == pieces[0];
    assert ParseAll(front[..0]) == [];
    assert ParseAll(front) == [a];
    assert ParseAll(pieces) == ParseAll(front) + [b];
    assert [a] + [b] == [a, b];
  }

  // ---------------------------------------------------------------------
  // The run over all accounts (`MultiManager.run_all`)
  // ---------------------------------------------------------------------

  /** What `run` reports for each account, in order, when account `i`'s
      browser observes `world(i)`. */
  function Outcomes(accounts: seq<Account>, world: nat -> Page): (r: seq<Outcome>)
    ensures |r| == |accounts|
  {
    seq(|accounts|, i requires 0 <= i < |accounts| => Attempt(accounts[i].user, world(i)))
  }

  /** How many outcomes are successes. */
  function Successes(outs: seq<Outcome>): (n: nat)
    ensures n <= |outs|
  {
    if outs == [] then 0
    else Successes(outs[..|outs| - 1]) + (if outs[|outs| - 1].success then 1 else 0)
  }

  /** One more outcome adds one to the count exactly when it is a success. */
  lemma SuccessesSnoc(outs: seq<Outcome>, o: Outcome)
    ensures Successes(outs + [o]) == Successes(outs) + if o.success then 1 else 0
  {
    assert (outs + [o])[..|outs|] == outs;
  }

  /** The count is the number of positions that hold a success. */
  lemma {:induction false} SuccessesCount(outs: seq<Outcome>)
    ensures Successes(outs) == |set i | 0 <= i < |outs| && outs[i].success|
  {
    if outs != [] {
      var n := |outs| - 1;
      var front := outs[..n];
      SuccessesCount(front);
      var before := set i | 0 <= i < n && front[i].success;
      var now := set i | 0 <= i < |outs| && outs[i].success;
      if outs[n].success {
        assert now == before + {n};
      } else {
        assert now == before;
      }
    }
  }

  /** The screenshot path of the latest outcome that has one. */
  function LastScreenshot(outs: seq<Outcome>): Option<string>
  {
    if outs == [] then None
    else if outs[|outs| - 1].screenshot.Some? then outs[|outs| - 1].screenshot
    else LastScreenshot(outs[..|outs| - 1])
  }

  /** One more outcome leaves the path in place unless it brings its own. */
  lemma LastScreenshotSnoc(outs: seq<Outcome>, o: Outcome)
    ensures LastScreenshot(outs + [o]) == if o.screenshot.Some? then o.screenshot else LastScreenshot(outs)
  {
    assert (outs + [o])[..|outs|] == outs;
  }

  /** `LastScreenshot` is the path of an outcome after which no outcome has
      one, and it is absent only when no outcome has one. */
  lemma {:induction false} LastScreenshotIsLatest(outs: seq<Outcome>)
    ensures LastScreenshot(outs).None? ==> forall i :: 0 <= i < |outs| ==> outs[i].screenshot.None?
    ensures LastScreenshot(outs).Some? ==>
      exists i :: 0 <= i < |outs| && outs[i].screenshot == LastScreenshot(outs) &&
        forall j :: i < j < |outs| ==> outs[j].screenshot.None?
  {
    if outs != [] && outs[|outs| - 1].screenshot.None? {
      var n := |outs| - 1;
      LastScreenshotIsLatest(outs[..n]);
      assert forall i :: 0 <= i < n ==> outs[..n][i] == outs[i];
    }
  }

  /** The screenshot a run attaches belongs to an account that failed, and is
      named after that account's identifier. */
  lemma AttachmentIsFailure(accounts: seq<Account>, world: nat -> Page)
    ensures var outs := Outcomes(accounts, world);
      LastScreenshot(outs).Some? ==>
        exists i :: 0 <= i < |accounts| && !outs[i].success &&
          LastScreenshot(outs) == Some(ScreenshotName(accounts[i].user))
  {
    var outs := Outcomes(accounts, world);
    LastScreenshotIsLatest(outs);
    if LastScreenshot(outs).Some? {
      var i :| 0 <= i < |outs| && outs[i].screenshot == LastScreenshot(outs) &&
        forall j :: i < j < |outs| ==> outs[j].screenshot.None?;
      assert outs[i] == Attempt(accounts[i].user, world(i));
    }
  }

  /** The messages of the outcomes, in order. */
  function Messages(outs: seq<Outcome>): (ms: seq<string>)
    ensures |ms| == |outs|
  {
    seq(|outs|, i requires 0 <= i < |outs| => outs[i].message)
  }

  /** Blank line between two messages of the summary. */
  const MessageSeparator: string := "\n\n"

  /** The summary's first line, "<successes>/<total>", and the blank line after it. */
  function Header(successes: nat, total: nat): string
  {
    "📊 登录汇总: " + DecimalString(successes) + "/" + DecimalString(total) + " 个账号成功\n\n"
  }

  /** The text of the one notification: the header, then every message. */
  function Summary(outs: seq<Outcome>): string
  {
    Header(Successes(outs), |outs|) + Join(Messages(outs), MessageSeparator)
  }

  /** The summary opens with the header and then holds every message in
      processing order, at its offset, a blank line after each but the last. */
  lemma SummaryHoldsMessage(outs: seq<Outcome>, i: nat)
    requires i < |outs|
    ensures var h := Header(Successes(outs), |outs|);
      var m := outs[i].message;
      var at := |h| + Offset(Messages(outs), MessageSeparator, i);
      && Summary(outs)[..|h|] == h
      && at + |m| <= |Summary(outs)|
      && Summary(outs)[at..at + |m|] == m
      && (i + 1 < |outs| ==>
            && |h| + Offset(Messages(outs), MessageSeparator, i + 1) <= |Summary(outs)|
            && Summary(outs)[at + |m|..|h| + Offset(Messages(outs), MessageSeparator, i + 1)] == MessageSeparator)
      && (i + 1 == |outs| ==> |Summary(outs)| == at + |m|)
  {
    var ms := Messages(outs);
    assert ms[i] == outs[i].message;
    JoinedAfter(Header(Successes(outs), |outs|), ms, MessageSeparator, i);
  }

  /** The header's two numbers read back as the success count and the total. */
  lemma HeaderNumbers(successes: nat, total: nat)
    ensures var s := DecimalString(successes);
      var t := DecimalString(total);
      && Header(successes, total) == "📊 登录汇总: " + s + "/" + t + " 个账号成功\n\n"
      && DecimalValue(s) == successes && DecimalValue(t) == total
  {
    DecimalRoundTrip(successes);
    DecimalRoundTrip(total);
  }

  /** What one run hands over: the summary text and the screenshot to attach
      to the notification, the number of successes, and the positions of the
      accounts after which it paused. */
  datatype Report = Report(summary: string, attachment: Option<string>, successCount: nat, pausedAfter: seq<nat>)

  /** The positions 0, 1, ..., n - 1 in order. */
  function Range(n: nat): (r: seq<nat>)
    ensures |r| == n && forall k :: 0 <= k < n ==> r[k] == k
  {
    if n == 0 then [] else Range(n - 1) + [n - 1]
  }

  /** Lines 259-261: a fresh bot for the account, run once; what it reports
      and the screenshot path it ends with are the account's outcome. */
  method RunAccount(acc: Account, page: Page) returns (o: Outcome)
    ensures o == Attempt(acc.user, page)
  {
    var bot := new KatabumpAutoRenew(acc.user, acc.pass);
    var success, message := bot.Run(page);
    o := Outcome(success, message, bot.screenshotPath);
  }

  class MultiManager {
    var accounts: seq<Account>

    /** `__init__`: one account per piece of the list that holds ':'. */
    constructor (raw: string)
      ensures accounts == ParseAccounts(raw)
    {
      var pieces := SplitAny(raw, AccountSeparators);
      var parsed: seq<Account> := [];
      for i := 0 to |pieces|
        invariant parsed == ParseAll(pieces[..i])
      {
        var a := pieces[i];
        assert pieces[..i + 1][..i] == pieces[..i];
        if ':' in a {
          var (u, p) := SplitFirst(a, ':').value;
          parsed := parsed + [Account(Strip(u), Strip(p))];
        }
      }
      assert pieces[..|pieces|] == pieces;
      accounts := parsed;
    }

    /** `run_all`: runs every account in order, counts the successes, keeps
        the latest screenshot path, pauses after every account but the last,
        and builds the summary. */
    method RunAll(world: nat -> Page) returns (report: Report)
      ensures report.successCount == Successes(Outcomes(accounts, world))
      ensures report.summary == Summary(Outcomes(accounts, world))
      ensures report.attachment == LastScreenshot(Outcomes(accounts, world))
      ensures report.pausedAfter == if |accounts| == 0 then [] else Range(|accounts| - 1)
    {
      var total := |accounts|;
      ghost var outs := Outcomes(accounts, world);
      var results: seq<Outcome> := [];
      var lastScreenshot: Option<string> := None;
      var successCount: nat := 0;
      var pausedAfter: seq<nat> := [];
      for i := 0 to total
        invariant results == outs[..i]
        invariant successCount == Successes(results)
        invariant lastScreenshot == LastScreenshot(results)
        invariant i < total ==> pausedAfter == Range(i)
        invariant i == total ==> pausedAfter == if total == 0 then [] else Range(total - 1)
      {
        var o := RunAccount(accounts[i], world(i));
        SuccessesSnoc(results, o);
        LastScreenshotSnoc(results, o);
        assert outs[..i + 1] == outs[..i] + [o];
        results := results + [o];
        if o.success {
          successCount := successCount + 1;
        }
        if o.screenshot.Some? {
          lastScreenshot := o.screenshot;
        }
        if i < total - 1 {
          pausedAfter := pausedAfter + [i];
          assert pausedAfter == Range(i + 1);
        }
      }
      assert results == outs;
      var messages := seq(|results|, k requires 0 <= k < |results| => results[k].message);
      assert messages == Messages(outs);
      var summary := Header(successCount, total) + Join(messages, MessageSeparator);
      report := Report(summary, lastScreenshot, successCount, pausedAfter);
    }
  }
}
