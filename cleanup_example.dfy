/** The fallback-cleaning scenario of src/TestRunner.tsx, worked through the full
    battery of src/Stage.tsx: an opener line is dropped, then a bracketed mode
    block, and the third pass changes nothing. */
module CleanupExample {
  import opened TextUtil
  import opened Cleanup

  // The raw text, built from its lines so that the verifier can index into it.
  const Final: string := "Hello fallback"
  const ModeLine: string := "[Mode: Impersonation]\n"
  const AfterTrim: string := ModeLine + Final
  const AfterOpener: string := "\n" + AfterTrim
  const OpenerLine: string := "Sure thing! Understood.\n"
  const Raw: string := OpenerLine + AfterOpener

  // The battery around the opener rewrite.
  const Head: seq<Rule> := [BracketBlock, BraceBlock, StarLabel, Percentage, NowResponding,
    Counter, Drafting, SlashCommand, NumberedItem, LetteredItem]
  const Tail: seq<Rule> := [RoleFraming, BeginReal, PromptMetadata]

  lemma BatteryIsSplit()
    ensures Battery == Head + ([Preamble] + Tail)
  {
  }

  /** Running a chain that has one rewrite between two parts. */
  lemma SplitChain(rs: seq<Rule>, hs: seq<Rule>, r: Rule, ts: seq<Rule>, s: string)
    requires rs == hs + ([r] + ts)
    ensures ApplyAll(rs, s) == ApplyAll(ts, Apply(r, ApplyAll(hs, s)))
  {
    ApplyAllAppend(hs, [r] + ts, s);
    assert ([r] + ts)[0] == r && ([r] + ts)[1..] == ts;
  }

  /** A pass whose rewrites produce `u` yields `u` trimmed. */
  lemma PassFrom(s: string, u: string)
    requires ApplyAll(Battery, s) == u
    ensures Pass(s) == Trim(u)
  {
  }

  // ---- generic facts: when a rewrite leaves a text alone ----------------------------

  predicate QuietLineStarts(s: string) {
    forall i :: 0 <= i < |s| && LineStart(s, i) ==> !LeadsLine(s, SkipSpace(s, i))
  }

  /** No alternative of `alts` can start at `q` when their first letters all differ from `s[q]`. */
  lemma FirstLetterRulesOut(s: string, q: nat, alts: seq<string>)
    requires q < |s|
    requires forall k :: 0 <= k < |alts| ==> |alts[k]| > 0 && Lower(alts[k][0]) != Lower(s[q])
    ensures FirstAlt(s, q, alts).None?
  {
    forall k | 0 <= k < |alts| ensures !LitAt(s, q, alts[k], true) {
      assert Lower(s[q + 0]) != Lower(alts[k][0]);
    }
  }

  /** The six anchored rewrites do nothing when the first character is visible and opens none of them. */
  lemma AnchoredQuiet(s: string, r: Rule)
    requires !IsLineRule(r)
    requires |s| > 0 && !IsSpace(s[0]) && s[0] !in "[{YyAaCcIiGgBbUuNnSsOoEeTt"
    ensures Apply(r, s) == s
  {
    assert SkipSpace(s, 0) == 0;
    match r
    case BracketBlock => assert MatchAt(BracketBlock, s, 0).None?;
    case BraceBlock => assert MatchAt(BraceBlock, s, 0).None?;
    case Preamble => OpenerQuiet(s);
    case RoleFraming => RoleQuiet(s, 0);
    case BeginReal => BeginRealQuiet(s, 0);
    case PromptMetadata => MetadataQuiet(s, 0);
  }

  lemma OpenerQuiet(s: string)
    requires |s| > 0 && !IsSpace(s[0]) && s[0] !in "UuNnSsOoAaEeTtIi"
    ensures MatchAt(Preamble, s, 0).None?
  {
    assert SkipSpace(s, 0) == 0;
    FirstLetterRulesOut(s, 0, PreambleWords);
    assert !LitAt(s, 0, "System", true) by { assert Lower(s[0 + 0]) != Lower("System"[0]); }
  }

  lemma RoleQuiet(s: string, q: nat)
    requires q < |s| && SkipSpace(s, 0) == q && s[q] !in "Yy"
    ensures MatchAt(RoleFraming, s, 0).None?
  {
    FirstLetterRulesOut(s, q, RoleOpeners);
  }

  lemma MetadataQuiet(s: string, q: nat)
    requires q < |s| && SkipSpace(s, 0) == q && s[q] !in "AaCcIiGgBb"
    ensures MatchAt(PromptMetadata, s, 0).None?
  {
    FirstLetterRulesOut(s, q, MetadataWords);
  }

  /** `Begin real` starts neither at the first visible character nor, after a `[`, at the next one. */
  lemma BeginRealQuiet(s: string, q: nat)
    requires q < |s| && SkipSpace(s, 0) == q && s[q] !in "Bb"
    requires s[q] == '[' ==> q + 1 < |s| && s[q + 1] !in "Bb"
    ensures MatchAt(BeginReal, s, 0).None?
  {
    assert !LitAt(s, q, "Begin real", true) by { assert Lower(s[q + 0]) != Lower("Begin real"[0]); }
    if s[q] == '[' {
      assert !LitAt(s, q + 1, "Begin real", true) by { assert Lower(s[q + 1 + 0]) != Lower("Begin real"[0]); }
    }
  }

  /** Such a text, with quiet line starts and no trailing space, is a fixed point of a pass. */
  lemma QuietFixed(s: string)
    requires QuietLineStarts(s) && NoOuterSpace(s)
    requires |s| > 0 && s[0] !in "[{YyAaCcIiGgBbUuNnSsOoEeTt"
    ensures Pass(s) == s
  {
    forall r | r in Battery ensures Apply(r, s) == s {
      if IsLineRule(r) { QuietLines(r, s); } else { AnchoredQuiet(s, r); }
    }
    ApplyAllFixed(Battery, s);
    TrimKeepsTrimmed(s);
  }

  lemma HeadQuiet(hs: seq<Rule>, s: string)
    requires hs == Head
    requires QuietLineStarts(s)
    requires |s| > 0 && !IsSpace(s[0]) && s[0] != '[' && s[0] != '{'
    ensures ApplyAll(hs, s) == s
  {
    assert SkipSpace(s, 0) == 0;
    forall r | r in hs ensures Apply(r, s) == s {
      if IsLineRule(r) { QuietLines(r, s); } else { assert r == BracketBlock || r == BraceBlock; }
    }
    ApplyAllFixed(hs, s);
  }

  /** The last three rewrites, when the text opens with a space and a `[` not followed by `Begin real`. */
  lemma TailQuiet(ts: seq<Rule>, s: string)
    requires ts == Tail
    requires |s| > 2 && IsSpace(s[0]) && !IsSpace(s[1]) && s[1] == '[' && s[2] !in "Bb"
    ensures ApplyAll(ts, s) == s
  {
    assert SkipSpace(s, 0) == 1;
    RoleQuiet(s, 1);
    BeginRealQuiet(s, 1);
    MetadataQuiet(s, 1);
    forall r | r in ts ensures Apply(r, s) == s {
      assert MatchAt(r, s, 0).None?;
    }
    ApplyAllFixed(ts, s);
  }

  /** The first alternative that occurs is the third one. */
  lemma ThirdAlt(s: string, q: nat, alts: seq<string>)
    requires |alts| >= 3
    requires !LitAt(s, q, alts[0], true) && !LitAt(s, q, alts[1], true) && LitAt(s, q, alts[2], true)
    ensures FirstAlt(s, q, alts) == Some(q + |alts[2]|)
  {
    assert alts[1..][0] == alts[1] && alts[1..][1..][0] == alts[2];
    assert FirstAlt(s, q, alts[1..][1..]) == Some(q + |alts[2]|);
    assert FirstAlt(s, q, alts[1..]) == Some(q + |alts[2]|);
  }

  /** An opener word that ends at `k`, followed by a line that ends at `e`, is cut off up to `e`. */
  lemma OpenerCut(s: string, k: nat, e: nat)
    requires |s| > 0 && !IsSpace(s[0])
    requires k <= |s| && FirstAlt(s, 0, PreambleWords) == Some(k) && ThroughNewline(s, k) == e
    ensures Apply(Preamble, s) == s[e..]
  {
    assert SkipSpace(s, 0) == 0;
    assert PreambleWord(s, 0) == Some(k);
  }

  // ---- facts about the concrete texts ---------------------------------------------------

  lemma RawBreaks()
    ensures forall k :: 0 <= k < |Raw| && IsLineTerminator(Raw[k]) ==> k == 23 || k == 24 || k == 46
  {
    assert forall k :: 0 <= k < |OpenerLine| && IsLineTerminator(OpenerLine[k]) ==> k == 23;
    assert forall k :: 0 <= k < |ModeLine| && IsLineTerminator(ModeLine[k]) ==> k == 21;
    assert forall k :: 0 <= k < |Final| ==> !IsLineTerminator(Final[k]);
  }

  lemma RawLines()
    ensures QuietLineStarts(Raw)
  {
    RawBreaks();
    assert SkipSpace(Raw, 0) == 0;
    assert SkipSpace(Raw, 25) == 25;
    assert SkipSpace(Raw, 24) == 25;
    assert SkipSpace(Raw, 47) == 47;
  }

  lemma RawOpensWithSure()
    ensures FirstAlt(Raw, 0, PreambleWords) == Some(4)
  {
    assert Raw[0] == 'S' && Raw[1] == 'u' && Raw[2] == 'r' && Raw[3] == 'e';
    assert PreambleWords[0] == "Understood" && PreambleWords[1] == "Noted" && PreambleWords[2] == "Sure";
    assert !LitAt(Raw, 0, "Understood", true) by { assert Lower(Raw[0 + 0]) != Lower("Understood"[0]); }
    assert !LitAt(Raw, 0, "Noted", true) by { assert Lower(Raw[0 + 0]) != Lower("Noted"[0]); }
    assert LitAt(Raw, 0, "Sure", true);
    ThirdAlt(Raw, 0, PreambleWords);
  }

  lemma RawFirstLine()
    ensures ThroughNewline(Raw, 4) == 24
  {
    assert forall k :: 0 <= k < |OpenerLine| && OpenerLine[k] == '\n' ==> k == 23;
    assert Raw[23] == '\n';
  }

  /** The opener rewrite matches `Sure` and drops the first line, newline included. */
  lemma RawOpener()
    ensures Apply(Preamble, Raw) == AfterOpener
  {
    RawOpensWithSure();
    RawFirstLine();
    assert Raw[0] == 'S';
    OpenerCut(Raw, 4, 24);
    assert Raw[24..] == AfterOpener;
  }

  lemma RawShape()
    ensures QuietLineStarts(Raw)
    ensures |Raw| > 0 && !IsSpace(Raw[0]) && Raw[0] != '[' && Raw[0] != '{'
  {
    RawLines();
    assert Raw[0] == 'S';
  }

  lemma AfterOpenerShape()
    ensures |AfterOpener| > 2 && IsSpace(AfterOpener[0]) && !IsSpace(AfterOpener[1])
    ensures AfterOpener[1] == '[' && AfterOpener[2] !in "Bb"
  {
    assert AfterOpener[0] == '\n' && AfterOpener[1] == '[' && AfterOpener[2] == 'M';
  }

  lemma FirstBattery()
    ensures ApplyAll(Battery, Raw) == AfterOpener
  {
    RawShape();
    HeadQuiet(Head, Raw);
    RawOpener();
    AfterOpenerShape();
    TailQuiet(Tail, AfterOpener);
    BatteryIsSplit();
    SplitChain(Battery, Head, Preamble, Tail, Raw);
  }

  lemma AfterOpenerTrim()
    ensures Trim(AfterOpener) == AfterTrim
  {
    assert AfterOpener[0] == '\n' && AfterOpener[1] == '[';
    assert SkipSpace(AfterOpener, 0) == 1;
    assert AfterOpener[|AfterOpener| - 1] == 'k';
    assert SkipSpaceBack(AfterOpener, |AfterOpener|) == |AfterOpener|;
    assert AfterOpener[1..] == AfterTrim;
  }

  lemma FirstPass()
    ensures Pass(Raw) == AfterTrim
  {
    FirstBattery();
    AfterOpenerTrim();
    PassFrom(Raw, AfterOpener);
  }

  lemma FinalShape()
    ensures QuietLineStarts(Final) && NoOuterSpace(Final)
    ensures |Final| > 0 && Final[0] !in "[{YyAaCcIiGgBbUuNnSsOoEeTt"
  {
    assert forall k :: 0 <= k < |Final| ==> !IsLineTerminator(Final[k]);
    assert SkipSpace(Final, 0) == 0;
    assert Final[0] == 'H' && Final[1] == 'e' && Final[|Final| - 1] == 'k';
  }

  lemma FinalFixed()
    ensures Pass(Final) == Final
  {
    FinalShape();
    QuietFixed(Final);
  }

  lemma ModeBlock()
    ensures Apply(BracketBlock, AfterTrim) == Final
  {
    var s := AfterTrim;
    assert SkipSpace(s, 0) == 0 && s[0] == '[';
    assert forall k :: 0 <= k < 20 ==> ModeLine[k] != ']';
    assert s[20] == ']';
    assert FindChar(s, 1, ']') == Some(20);
    assert s[21] == '\n' && s[22] == 'H';
    assert SkipSpace(s, 21) == 22;
    assert s[22..] == Final;
  }

  lemma SecondPass()
    ensures Pass(AfterTrim) == Final
  {
    ModeBlock();
    FinalFixed();
    PassFixedEachFixed(Final);
    ApplyAllFixed(Battery[1..], Final);
    TrimKeepsTrimmed(Final);
  }

  /** Two passes that change the text followed by one that does not. */
  lemma CleanedInTwo(a: string, b: string, c: string)
    requires Pass(a) == b && b != a && Pass(b) == c && c != b && Pass(c) == c
    ensures Cleaned(a) == c
  {
    CleanedStep(a);
    CleanedStep(b);
    CleanedStep(c);
  }

  /** The loop turns the raw enhancement into "Hello fallback", as the test expects. */
  lemma TestRunnerFallback()
    ensures Cleaned(Raw) == Final
  {
    FirstPass();
    SecondPass();
    FinalFixed();
    assert |AfterTrim| < |Raw| && |Final| < |AfterTrim|;
    CleanedInTwo(Raw, AfterTrim, Final);
  }
}
