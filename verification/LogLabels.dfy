/** Directory names for the rescued app logs: `sanitizeForFilename` and what its results can be. */
module LogLabels {
  import opened Basics

  const SESSION_LOG_LABEL := "session"

  /** The characters that survive the filter. */
  predicate IsKept(c: char) {
    'a' <= c <= 'z' || 'A' <= c <= 'Z' || '0' <= c <= '9' || c == '.' || c == '_' || c == '-'
  }

  /** Each run of other characters becomes one hyphen; `inRun` when the run has its hyphen already. */
  function Collapse(value: string, inRun: bool): (s: string) {
    if value == "" then ""
    else if IsKept(value[0]) then [value[0]] + Collapse(value[1..], false)
    else (if inRun then "" else "-") + Collapse(value[1..], true)
  }

  function StripLeading(s: string): (t: string) {
    if s != "" && s[0] == '-' then StripLeading(s[1..]) else s
  }

  function StripTrailing(s: string): (t: string) {
    if s != "" && s[|s| - 1] == '-' then StripTrailing(s[..|s| - 1]) else s
  }

  function Cleaned(value: string): (s: string) {
    StripTrailing(StripLeading(Collapse(value, false)))
  }

  predicate AllDots(s: string) { forall i :: 0 <= i < |s| ==> s[i] == '.' }

  /** `slice(0, 120)`. */
  function Truncated(s: string): (t: string) { if |s| <= 120 then s else s[..120] }

  function SanitizeForFilename(value: string): (dirName: string) {
    var cleaned := Cleaned(value);
    if cleaned == "" || AllDots(cleaned) then "failure"
    else if Truncated(cleaned) == SESSION_LOG_LABEL then SESSION_LOG_LABEL + "-test"
    else Truncated(cleaned)
  }

  // ------------------------------------------------------------- cleaning ---

  ghost predicate AllKept(s: string) { forall i :: 0 <= i < |s| ==> IsKept(s[i]) }

  predicate EndsInHyphen(s: string) { s != "" && s[|s| - 1] == '-' }

  predicate StartsWithHyphen(s: string) { s != "" && s[0] == '-' }

  lemma {:induction false} CollapseKeeps(value: string, inRun: bool)
    ensures AllKept(Collapse(value, inRun))
    ensures AllKept(value) ==> Collapse(value, inRun) == value
  {
    if value != "" {
      CollapseKeeps(value[1..], !IsKept(value[0]));
      if AllKept(value) { assert value == [value[0]] + value[1..]; }
    }
  }

  /** By code: the ASCII letters and digits, and `.`, `_` and `-`. */
  lemma KeptAre(c: char)
    ensures IsKept(c) <==>
      65 <= c as int <= 90 || 97 <= c as int <= 122 || 48 <= c as int <= 57 || c as int in {0x2E, 0x5F, 0x2D}
  {
  }

  ghost predicate NoneKept(s: string) { forall i :: 0 <= i < |s| ==> !IsKept(s[i]) }

  ghost predicate EndsKept(s: string) { s == "" || IsKept(s[|s| - 1]) }

  ghost predicate StartsKept(s: string) { s == "" || IsKept(s[0]) }

  lemma {:induction false} CollapseRun(run: string, rest: string, inRun: bool)
    requires run != "" && NoneKept(run) && StartsKept(rest)
    ensures Collapse(run + rest, inRun) == (if inRun then "" else "-") + Collapse(rest, false)
    decreases |run|
  {
    assert (run + rest)[0] == run[0] && (run + rest)[1..] == run[1..] + rest;
    if |run| > 1 {
      CollapseRun(run[1..], rest, true);
    } else {
      assert run[1..] + rest == rest;
    }
  }

  lemma {:induction false} CollapseAfter(a: string, rest: string)
    requires a != "" && EndsKept(a)
    ensures forall inRun :: Collapse(a + rest, inRun) == Collapse(a, inRun) + Collapse(rest, false)
    decreases |a|
  {
    assert (a + rest)[0] == a[0] && (a + rest)[1..] == a[1..] + rest;
    if |a| > 1 {
      CollapseAfter(a[1..], rest);
    } else {
      assert a[1..] + rest == rest && a[1..] == "";
    }
  }

  /** Between kept characters a run of others, however long, becomes one hyphen. */
  lemma RunBecomesHyphen(a: string, run: string, rest: string)
    requires EndsKept(a) && run != "" && NoneKept(run) && StartsKept(rest)
    ensures Collapse(a + (run + rest), false) == Collapse(a, false) + ("-" + Collapse(rest, false))
  {
    CollapseRun(run, rest, false);
    if a == "" {
      assert a + (run + rest) == run + rest;
    } else {
      CollapseAfter(a, run + rest);
    }
  }

  ghost predicate AllHyphens(s: string) { forall i :: 0 <= i < |s| ==> s[i] == '-' }

  lemma {:induction false} LeadingGo(front: string, s: string)
    requires AllHyphens(front)
    ensures StripLeading(front + s) == StripLeading(s)
    decreases |front|
  {
    if front == "" {
      assert front + s == s;
    } else {
      assert (front + s)[1..] == front[1..] + s;
      LeadingGo(front[1..], s);
    }
  }

  lemma {:induction false} TrailingGo(s: string, back: string)
    requires AllHyphens(back)
    ensures StripTrailing(s + back) == StripTrailing(s)
    decreases |back|
  {
    if back == "" {
      assert s + back == s;
    } else {
      assert (s + back)[..|s + back| - 1] == s + back[..|back| - 1];
      TrailingGo(s, back[..|back| - 1]);
    }
  }

  /** Hyphens at both ends go, all of them, and nothing else. */
  lemma HyphensGo(front: string, s: string, back: string)
    requires AllHyphens(front) && AllHyphens(back) && !StartsWithHyphen(s) && !EndsInHyphen(s)
    ensures StripTrailing(StripLeading(front + (s + back))) == s
  {
    LeadingGo(front, s + back);
    if s == "" {
      LeadingGo(back, "");
      assert s + back == back + "";
    } else {
      assert StripLeading(s + back) == s + back;
      TrailingGo(s, back);
    }
  }

  lemma {:induction false} StripLeadingKeeps(s: string)
    requires AllKept(s)
    ensures AllKept(StripLeading(s)) && !StartsWithHyphen(StripLeading(s))
    ensures !StartsWithHyphen(s) ==> StripLeading(s) == s
  {
    if StartsWithHyphen(s) { StripLeadingKeeps(s[1..]); }
  }

  lemma {:induction false} StripTrailingKeeps(s: string)
    requires AllKept(s) && !StartsWithHyphen(s)
    ensures var t := StripTrailing(s);
            AllKept(t) && t <= s && !EndsInHyphen(t) && !StartsWithHyphen(t)
    ensures StripTrailing(s) == s <==> !EndsInHyphen(s)
  {
    if EndsInHyphen(s) { StripTrailingKeeps(s[..|s| - 1]); }
  }

  lemma CleanedIs(value: string)
    ensures var c := Cleaned(value); AllKept(c) && !EndsInHyphen(c) && !StartsWithHyphen(c)
    ensures AllKept(value) && !StartsWithHyphen(value) ==>
      Cleaned(value) <= value && (Cleaned(value) == value <==> !EndsInHyphen(value))
  {
    var collapsed := Collapse(value, false);
    CollapseKeeps(value, false);
    StripLeadingKeeps(collapsed);
    StripTrailingKeeps(StripLeading(collapsed));
  }

  // ----------------------------------------------------------- guarantees ---

  /**
   * Every label is a safe directory name: not empty, at most 120 characters of
   * the kept kind, no leading hyphen, neither `.` nor `..`, and never the label
   * reserved for the session.
   */
  lemma LabelIsSafe(value: string)
    ensures var dirName := SanitizeForFilename(value);
            && 0 < |dirName| <= 120 && AllKept(dirName) && !StartsWithHyphen(dirName)
            && dirName != "." && dirName != ".." && dirName != SESSION_LOG_LABEL
  {
    var cleaned := Cleaned(value);
    CleanedIs(value);
    if cleaned != "" && !AllDots(cleaned) {
      assert cleaned != "." && cleaned != "..";
      if Truncated(cleaned) != SESSION_LOG_LABEL { CutIsSafe(cleaned, Truncated(cleaned)); }
    }
  }

  lemma CutIsSafe(cleaned: string, cut: string)
    requires cut == Truncated(cleaned) && AllKept(cleaned) && !StartsWithHyphen(cleaned)
    requires cleaned != "" && cleaned != "." && cleaned != ".."
    ensures 0 < |cut| <= 120 && AllKept(cut) && !StartsWithHyphen(cut) && cut != "." && cut != ".."
  {
  }

  /** What the label is of the cleaned title: its first 120 characters, but for the two kinds that get another. */
  lemma LabelIs(value: string)
    ensures var cleaned, dirName := Cleaned(value), SanitizeForFilename(value);
            && (cleaned == "" || AllDots(cleaned) ==> dirName == "failure")
            && (cleaned == "session" ==> dirName == "session-test")
            && (cleaned != "" && !AllDots(cleaned) && cleaned != "session" ==>
                  dirName <= cleaned && |dirName| == if |cleaned| < 120 then |cleaned| else 120)
  {
    var cleaned := Cleaned(value);
    TruncatedShort(cleaned, "session");
    assert "session"[0] != '.' && "session" + "-test" == "session-test";
  }

  /**
   * A trailing hyphen and an all-dots label are not impossible: they occur
   * exactly when the cut at 120 characters leaves them.
   */
  lemma WhatTheCutLeaves(value: string)
    ensures var cleaned, dirName := Cleaned(value), SanitizeForFilename(value);
            && (EndsInHyphen(dirName) <==> |cleaned| > 120 && cleaned[119] == '-')
            && (AllDots(dirName) <==> |cleaned| > 120 && !AllDots(cleaned) && AllDots(cleaned[..120]))
  {
    var cleaned, dirName := Cleaned(value), SanitizeForFilename(value);
    CleanedIs(value);
    if cleaned == "" || AllDots(cleaned) {
      assert dirName[0] == 'f';
      if |cleaned| > 120 { assert cleaned[119] == '.'; }
    } else if Truncated(cleaned) == SESSION_LOG_LABEL {
      assert dirName[0] == 's';
    }
  }

  /** One title of each kind. */
  lemma TheCutDoesLeaveThem() returns (hyphen: string, dots: string)
    ensures EndsInHyphen(SanitizeForFilename(hyphen)) && AllDots(SanitizeForFilename(dots))
  {
    hyphen := seq(119, _ => 'a') + "-a";
    CleanedIs(hyphen);
    assert hyphen[119] == '-' && hyphen[0] == 'a';
    WhatTheCutLeaves(hyphen);
    dots := seq(120, _ => '.') + "a";
    CleanedIs(dots);
    assert dots[120] == 'a' && dots[0] == '.';
    WhatTheCutLeaves(dots);
  }

  /** Sanitizing a label again changes nothing exactly when the cut left neither a trailing hyphen nor only dots. */
  lemma SanitizingTwice(value: string)
    ensures var dirName := SanitizeForFilename(value);
            SanitizeForFilename(dirName) == dirName <==> !EndsInHyphen(dirName) && !AllDots(dirName)
  {
    var dirName := SanitizeForFilename(value);
    LabelIsSafe(value);
    WhatTheCutLeaves(value);
    CleanedIs(dirName);
    var again := Cleaned(dirName);
    if EndsInHyphen(dirName) {
      assert |dirName| == 120;
      assert |again| < 120;
    } else {
      assert again == dirName;
    }
  }

  lemma LeadingHyphen(title: string)
    requires AllKept(title)
    ensures Cleaned("-" + title) == Cleaned(title)
  {
    var s := "-" + title;
    CollapseKeeps(s, false);
    CollapseKeeps(title, false);
    assert s[1..] == title;
  }

  /** A title that needs no cleaning. */
  lemma CleanTitle(title: string)
    requires AllKept(title) && !StartsWithHyphen(title) && !EndsInHyphen(title)
    requires 0 < |title| <= 120 && title[0] != '.'
    ensures SanitizeForFilename(title) == if title == SESSION_LOG_LABEL then SESSION_LOG_LABEL + "-test" else title
  {
    CleanedIs(title);
  }

  lemma TruncatedShort(s: string, t: string)
    requires |t| < 120
    ensures Truncated(s) == t <==> s == t
  {
  }

  /**
   * The reservation is not free of collisions. Exactly two kinds of titles get
   * the label it moves to: those that clean up to the reserved label, and those
   * that clean up to that other label itself.
   */
  lemma MovedLabelIsShared(value: string)
    ensures SanitizeForFilename(value) == SESSION_LOG_LABEL + "-test"
       <==> Cleaned(value) == SESSION_LOG_LABEL || Cleaned(value) == SESSION_LOG_LABEL + "-test"
  {
    var cleaned, moved := Cleaned(value), SESSION_LOG_LABEL + "-test";
    TruncatedShort(cleaned, SESSION_LOG_LABEL);
    TruncatedShort(cleaned, moved);
    assert SESSION_LOG_LABEL[0] != '.' && moved[0] != '.';
    assert "failure"[0] != moved[0];
  }

  /** One of each. */
  lemma SuffixCollides()
    ensures SanitizeForFilename("-" + SESSION_LOG_LABEL) == SESSION_LOG_LABEL + "-test"
    ensures SanitizeForFilename(SESSION_LOG_LABEL + "-test") == SESSION_LOG_LABEL + "-test"
  {
    var title, moved := SESSION_LOG_LABEL, SESSION_LOG_LABEL + "-test";
    assert AllKept(title) && AllKept(moved);
    assert moved[|moved| - 1] == 't' && moved[0] == 's';
    LeadingHyphen(title);
    CleanTitle(title);
    CleanTitle(moved);
  }
}
