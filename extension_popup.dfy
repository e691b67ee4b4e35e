/**
 * The synced extension's popup (extension/popup/popup.js): how long ago the
 * last sync was, the clean-up of a typed url before it is posted to the
 * server, the badge and schedule line of each rule, and the attempt total.
 */
module SyncedPopup {
  import opened Common
  import opened Text
  import opened Clock
  import opened UrlClean
  import opened Sync

  /** Whole seconds since the last sync; JavaScript's Math.floor, which Dafny's division by a positive constant matches. */
  function ElapsedSeconds(elapsedMs: int): int
  {
    elapsedMs / 1000
  }

  /** `getTimeAgo(date)` given the milliseconds since `date`. */
  function GetTimeAgo(elapsedMs: int): string
  {
    var seconds := ElapsedSeconds(elapsedMs);
    if seconds < 60 then "Just now"
    else if seconds < 3600 then NatToString(seconds / 60) + "m ago"
    else if seconds < 86400 then NatToString(seconds / 3600) + "h ago"
    else NatToString(seconds / 86400) + "d ago"
  }

  /** "Just now" is shown exactly for less than a minute (a clock running behind included). */
  lemma TimeAgoJustNow(elapsedMs: int)
    ensures GetTimeAgo(elapsedMs) == "Just now" <==> ElapsedSeconds(elapsedMs) < 60
  {
    var seconds := ElapsedSeconds(elapsedMs);
    if seconds >= 60 {
      var t := GetTimeAgo(elapsedMs);
      assert IsDigit(t[0]) && !IsDigit("Just now"[0]);
    }
  }

  /** Reading a minutes label back: "Km ago" means K whole minutes, in the first hour. */
  lemma TimeAgoMinutes(elapsedMs: int, k: nat)
    ensures GetTimeAgo(elapsedMs) == NatToString(k) + "m ago" <==>
      60 <= ElapsedSeconds(elapsedMs) < 3600 && k == ElapsedSeconds(elapsedMs) / 60
  {
    var seconds := ElapsedSeconds(elapsedMs);
    TimeAgoJustNow(elapsedMs);
    if GetTimeAgo(elapsedMs) == NatToString(k) + "m ago" {
      assert seconds >= 60 by {
        assert IsDigit((NatToString(k) + "m ago")[0]);
      }
      var unit := if seconds < 3600 then seconds / 60 else if seconds < 86400 then seconds / 3600 else seconds / 86400;
      var tail := if seconds < 3600 then "m ago" else if seconds < 86400 then "h ago" else "d ago";
      NumberPrefixCancel(unit, tail, k, "m ago");
    }
  }

  /** Reading an hours label back: "Kh ago" means K whole hours, in the first day. */
  lemma TimeAgoHours(elapsedMs: int, k: nat)
    ensures GetTimeAgo(elapsedMs) == NatToString(k) + "h ago" <==>
      3600 <= ElapsedSeconds(elapsedMs) < 86400 && k == ElapsedSeconds(elapsedMs) / 3600
  {
    var seconds := ElapsedSeconds(elapsedMs);
    TimeAgoJustNow(elapsedMs);
    if GetTimeAgo(elapsedMs) == NatToString(k) + "h ago" {
      assert seconds >= 60 by {
        assert IsDigit((NatToString(k) + "h ago")[0]);
      }
      var unit := if seconds < 3600 then seconds / 60 else if seconds < 86400 then seconds / 3600 else seconds / 86400;
      var tail := if seconds < 3600 then "m ago" else if seconds < 86400 then "h ago" else "d ago";
      NumberPrefixCancel(unit, tail, k, "h ago");
    }
  }

  /** Reading a days label back: "Kd ago" means K whole days, from one day on. */
  lemma TimeAgoDays(elapsedMs: int, k: nat)
    ensures GetTimeAgo(elapsedMs) == NatToString(k) + "d ago" <==>
      86400 <= ElapsedSeconds(elapsedMs) && k == ElapsedSeconds(elapsedMs) / 86400
  {
    var seconds := ElapsedSeconds(elapsedMs);
    TimeAgoJustNow(elapsedMs);
    if GetTimeAgo(elapsedMs) == NatToString(k) + "d ago" {
      assert seconds >= 60 by {
        assert IsDigit((NatToString(k) + "d ago")[0]);
      }
      var unit := if seconds < 3600 then seconds / 60 else if seconds < 86400 then seconds / 3600 else seconds / 86400;
      var tail := if seconds < 3600 then "m ago" else if seconds < 86400 then "h ago" else "d ago";
      NumberPrefixCancel(unit, tail, k, "d ago");
    }
  }

  /** `handleAddSite`'s clean-up: trim, nothing for a blank entry, then strip the prefixes and the path, keeping the case. */
  function CleanInput(typed: string): (url: Option<string>)
    ensures url.None? <==> Trim(typed) == ""
    ensures url.Some? ==> url.value == CleanHost(Trim(typed)) && '/' !in url.value
  {
    var url := Trim(typed);
    if url == "" then None else Some(CleanHost(url))
  }

  /** A typed link reduces to its host, with its case kept. */
  lemma CleanInputOfLink(scheme: string, www: string, host: string, path: string)
    requires scheme == "" || scheme == "http://" || scheme == "https://"
    requires www == "" || www == "www."
    requires '/' !in host && !StartsWith(host, "www.") && host != "http:" && host != "https:"
    requires host != "" && !IsSpace(host[0]) && !IsSpace(host[|host| - 1])
    requires path == "" || (path[0] == '/' && !IsSpace(path[|path| - 1]))
    ensures CleanInput(scheme + www + host + path) == Some(host)
  {
    var s := scheme + www + host + path;
    assert s[0] == if scheme != "" then 'h' else if www != "" then 'w' else host[0];
    assert s[|s| - 1] == if path != "" then path[|path| - 1] else host[|host| - 1];
    TrimOfUntrimmed(s);
    CleanHostOfUrl(scheme, www, host, path);
  }

  /** `trim` leaves a string alone when both of its ends are not white space. */
  lemma TrimOfUntrimmed(s: string)
    requires s != [] && !IsSpace(s[0]) && !IsSpace(s[|s| - 1])
    ensures Trim(s) == s
  {
    assert TrimStart(s) == s;
  }

  /** A bare scheme cleans to the empty url, which the server refuses with 400. */
  lemma BareSchemeCleansToEmpty(s: string)
    requires s == "https://"
    ensures CleanInput(s) == Some("")
  {
    assert !IsSpace(s[0]) && !IsSpace(s[|s| - 1]);
    TrimOfUntrimmed(s);
    StripSchemeOf(s, "");
    assert s + "" == s;
    assert CleanHost(s) == BeforeSlash(StripWww(""));
  }

  datatype Badge = AllDay | Scheduled

  /** One window as the schedule line shows it, "HH:MM-HH:MM". */
  function WindowText(w: RuleWindow): string
  {
    Slice5(w.startTime) + "-" + Slice5(w.endTime)
  }

  function WindowTexts(ws: seq<RuleWindow>): (r: seq<string>)
    ensures |r| == |ws| && forall i :: 0 <= i < |ws| ==> r[i] == WindowText(ws[i])
  {
    seq(|ws|, i requires 0 <= i < |ws| => WindowText(ws[i]))
  }

  /** The badge and schedule line of one rule: at most two windows are spelled out. */
  function RuleSummary(timeWindows: Option<seq<RuleWindow>>): (Badge, string)
  {
    var ws := timeWindows.GetOr([]);
    if |ws| == 0 then (AllDay, "Blocked all day")
    else
      (Scheduled, Join(WindowTexts(ws[..if |ws| < 2 then |ws| else 2]), ", ") + MoreSuffix(|ws|))
  }

  /** " +N more" for the windows beyond the first two. */
  function MoreSuffix(n: nat): string
  {
    if n > 2 then " +" + NatToString(n - 2) + " more" else ""
  }

  /** "24/7" and "Blocked all day" exactly for a rule without windows; an absent list counts as empty. */
  lemma SummaryAllDay(ws: seq<RuleWindow>)
    ensures RuleSummary(Some(ws)).0 == AllDay <==> |ws| == 0
    ensures |ws| == 0 ==> RuleSummary(Some(ws)).1 == "Blocked all day"
    ensures RuleSummary(None) == RuleSummary(Some([]))
  {
  }

  /** One or two windows are all spelled out, joined by ", ". */
  lemma SummaryFewWindows(ws: seq<RuleWindow>)
    requires 1 <= |ws| <= 2
    ensures RuleSummary(Some(ws)).1 ==
      if |ws| == 1 then WindowText(ws[0]) else WindowText(ws[0]) + ", " + WindowText(ws[1])
  {
    assert ws[..|ws|] == ws;
    var texts := WindowTexts(ws);
    if |ws| == 2 {
      assert texts[1..] == [WindowText(ws[1])];
      assert Join(texts, ", ") == texts[0] + ", " + Join(texts[1..], ", ");
    }
  }

  /** Beyond two windows the first two are spelled out and the others counted. */
  lemma SummaryManyWindows(ws: seq<RuleWindow>)
    requires |ws| > 2
    ensures RuleSummary(Some(ws)).1 == WindowText(ws[0]) + ", " + WindowText(ws[1]) + MoreSuffix(|ws|)
    ensures MoreSuffix(|ws|) == " +" + NatToString(|ws| - 2) + " more"
  {
    var texts := WindowTexts(ws[..2]);
    assert texts[1..] == [WindowText(ws[1])];
    assert Join(texts, ", ") == texts[0] + ", " + Join(texts[1..], ", ");
  }

  /** A rule as the popup receives it; rules from the server carry no attempt count. */
  datatype ListedRule = ListedRule(url: string, timeWindows: Option<seq<RuleWindow>>, accessAttempts: Option<int>)

  function FromSynced(r: Rule): (l: ListedRule)
    ensures l.url == r.url && l.timeWindows == Some(r.timeWindows) && l.accessAttempts.None?
  {
    ListedRule(r.url, Some(r.timeWindows), None)
  }

  /** `rule.accessAttempts || 0`. */
  function AttemptsOf(r: ListedRule): int
  {
    if r.accessAttempts.Some? then r.accessAttempts.value else 0
  }

  /** The sum of the attempt counts of the list. */
  function SumAttempts(rules: seq<ListedRule>): int
  {
    if |rules| == 0 then 0 else SumAttempts(rules[..|rules| - 1]) + AttemptsOf(rules[|rules| - 1])
  }

  /** The `forEach` in `loadStats` that adds up the attempt counts. */
  method TotalAttempts(rules: seq<ListedRule>) returns (total: int)
    ensures total == SumAttempts(rules)
  {
    total := 0;
    var i := 0;
    while i < |rules|
      invariant 0 <= i <= |rules|
      invariant total == SumAttempts(rules[..i])
    {
      assert rules[..i + 1][..i] == rules[..i];
      total := total + AttemptsOf(rules[i]);
      i := i + 1;
    }
    assert rules[..i] == rules;
  }

  /** The total-blocked figure shown: the rule total when positive, else the stored counter. */
  function DisplayedTotal(storedTotal: int, rules: seq<ListedRule>): (shown: int)
    ensures SumAttempts(rules) > 0 ==> shown == SumAttempts(rules)
    ensures SumAttempts(rules) <= 0 ==> shown == storedTotal
  {
    if SumAttempts(rules) > 0 then SumAttempts(rules) else storedTotal
  }

  /** Rules fetched from the server sum to 0, so the stored counter is what the popup shows. */
  lemma {:induction false} SyncedRulesSumToZero(rules: seq<Rule>)
    ensures SumAttempts(seq(|rules|, i requires 0 <= i < |rules| => FromSynced(rules[i]))) == 0
    decreases |rules|
  {
    if |rules| > 0 {
      var listed := seq(|rules|, i requires 0 <= i < |rules| => FromSynced(rules[i]));
      var prefix := rules[..|rules| - 1];
      assert listed[..|rules| - 1] == seq(|prefix|, i requires 0 <= i < |prefix| => FromSynced(prefix[i]));
      SyncedRulesSumToZero(prefix);
    }
  }
}
