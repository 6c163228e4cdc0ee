/** The cleanup filter run over an enhancement result: a fixed battery of
    deletion-only regular-expression rewrites followed by `trim`, repeated until a
    pass changes nothing. Each rewrite is modelled by an explicit matcher that
    returns where the expression's match starting at a given index ends, following
    the backtracking of the JavaScript engine. */
module Cleanup {
  import opened TextUtil

  /** The rewrites of one pass, in order. The first two and the last four carry no
      `g`/`m` flags and can only match at the start of the text; the rest carry
      `gm` and delete every match that starts at a line start. */
  datatype Rule =
    | BracketBlock    // a leading `[`...`]` block and the white space around it
    | BraceBlock      // a leading `{`...`}` block and the white space around it
    | StarLabel       // lines of the form `*LABEL: ... *`
    | Percentage      // lines opening with a number and `%`
    | NowResponding   // lines opening with "Now responding as"
    | Counter         // lines like "1/1 responses remaining"
    | Drafting        // lines opening with "Drafting as"
    | SlashCommand    // lines holding only a `/word` command
    | NumberedItem    // lines opening with a number and `.`
    | LetteredItem    // lines opening with a capital letter and `)`
    | Preamble        // a leading conversational opener or refusal, through its line
    | RoleFraming     // a leading "You are ... Mode" style role description, through its line
    | BeginReal       // a leading "Begin real ..." line, bracketed or not
    | PromptMetadata  // a leading "About"/"Context:"/"Goal:" style metadata line

  const Battery: seq<Rule> := [BracketBlock, BraceBlock, StarLabel, Percentage, NowResponding,
    Counter, Drafting, SlashCommand, NumberedItem, LetteredItem, Preamble, RoleFraming,
    BeginReal, PromptMetadata]

  /** The battery runs each of the fourteen rewrites once, in the order the source lists them. */
  lemma BatteryRules()
    ensures |Battery| == 14
    ensures forall r: Rule :: r in Battery
    ensures forall i, j :: 0 <= i < j < |Battery| ==> Battery[i] != Battery[j]
  {
    forall r: Rule ensures r in Battery {
      match r
      case BracketBlock => assert Battery[0] == r;
      case BraceBlock => assert Battery[1] == r;
      case StarLabel => assert Battery[2] == r;
      case Percentage => assert Battery[3] == r;
      case NowResponding => assert Battery[4] == r;
      case Counter => assert Battery[5] == r;
      case Drafting => assert Battery[6] == r;
      case SlashCommand => assert Battery[7] == r;
      case NumberedItem => assert Battery[8] == r;
      case LetteredItem => assert Battery[9] == r;
      case Preamble => assert Battery[10] == r;
      case RoleFraming => assert Battery[11] == r;
      case BeginReal => assert Battery[12] == r;
      case PromptMetadata => assert Battery[13] == r;
    }
  }

  predicate IsLineRule(r: Rule) {
    !(r.BracketBlock? || r.BraceBlock? || r.Preamble? || r.RoleFraming? || r.BeginReal? || r.PromptMetadata?)
  }

  const PreambleWords: seq<string> :=
    ["Understood", "Noted", "Sure", "Okay", "Alright", "Error", "Terminating", "I cannot"]
  const RoleOpeners: seq<string> := ["You are", "Your task", "Your role", "You're"]
  const RoleMarkers: seq<string> := ["Mode", "perspective", "acting as"]
  const MetadataWords: seq<string> := ["About", "Context:", "Instruction:", "Goal:", "Background"]

  // ---- character-level building blocks ------------------------------------------

  /** ASCII case folding, which is what the `i` flag does without the `u` flag for these patterns. */
  function Lower(c: char): char {
    if 'A' <= c <= 'Z' then (c as int + 32) as char else c
  }

  /** The literal `lit` occurs at `p`, case-insensitively when `ci`. */
  predicate LitAt(s: string, p: nat, lit: string, ci: bool) {
    p + |lit| <= |s| && forall k :: 0 <= k < |lit| ==> (if ci then Lower(s[p + k]) == Lower(lit[k]) else s[p + k] == lit[k])
  }

  datatype CharClass = Digits | Uppers | Words

  predicate InClass(cls: CharClass, c: char) {
    match cls
    case Digits => IsDigit(c)
    case Uppers => IsUpper(c)
    case Words => IsWordChar(c)
  }

  /** End of the greedy run `\d+`, `[A-Z]+` or `\w+` starting at `p`. */
  function RunEnd(s: string, p: nat, cls: CharClass): (q: nat)
    requires p <= |s|
    ensures p <= q <= |s|
    ensures forall j :: p <= j < q ==> InClass(cls, s[j])
    ensures q < |s| ==> !InClass(cls, s[q])
    decreases |s| - p
  {
    if p == |s| || !InClass(cls, s[p]) then p else RunEnd(s, p + 1, cls)
  }

  /** `^` under the `m` flag. */
  predicate LineStart(s: string, i: nat) {
    i == 0 || (i <= |s| && IsLineTerminator(s[i - 1]))
  }

  /** `.*?` followed by the character `c`, with `.` matching everything (`s` flag). */
  function FindChar(s: string, p: nat, c: char): (r: Option<nat>)
    requires p <= |s|
    ensures r.Some? ==> p <= r.value < |s| && s[r.value] == c
    ensures r.Some? ==> forall j :: p <= j < r.value ==> s[j] != c
    ensures r.None? ==> forall j :: p <= j < |s| ==> s[j] != c
    decreases |s| - p
  {
    if p == |s| then None else if s[p] == c then Some(p) else FindChar(s, p + 1, c)
  }

  /** `.*?(\n|$)` under `m`: to the end of the line, taking a `\n` along but
      stopping in front of any other line terminator. */
  function RestOfLine(s: string, p: nat): (e: nat)
    requires p <= |s|
    ensures p <= e <= |s|
    decreases |s| - p
  {
    if p == |s| then p
    else if s[p] == '\n' then p + 1
    else if IsLineTerminator(s[p]) then p
    else RestOfLine(s, p + 1)
  }

  /** `.*?(\n|$)` under `s` without `m`: through the first `\n`, or to the end. */
  function ThroughNewline(s: string, p: nat): (e: nat)
    requires p <= |s|
    ensures p <= e <= |s|
    ensures e < |s| ==> p < e && s[e - 1] == '\n'
    ensures forall j :: p <= j < e && s[j] == '\n' ==> j == e - 1
    decreases |s| - p
  {
    if p == |s| then p else if s[p] == '\n' then p + 1 else ThroughNewline(s, p + 1)
  }

  /** Backtracking a greedy `\s*` over `s[p..w]` until `(\n|$)` matches: the last
      `\n` (match after it) or, under `m`, the last other line terminator (match in front of it). */
  function LastBreak(s: string, p: nat, w: nat, multiline: bool): (r: Option<nat>)
    requires p <= w <= |s|
    ensures r.Some? ==> p <= r.value <= w
    decreases w - p
  {
    if w == p then None
    else if s[w - 1] == '\n' then Some(w)
    else if multiline && IsLineTerminator(s[w - 1]) then Some(w - 1)
    else LastBreak(s, p, w - 1, multiline)
  }

  /** `\s*(\n|$)` at `p`. */
  function SpaceToEol(s: string, p: nat, multiline: bool): (r: Option<nat>)
    requires p <= |s|
    ensures r.Some? ==> p <= r.value <= |s|
  {
    var w := SkipSpace(s, p);
    if w == |s| then Some(|s|) else LastBreak(s, p, w, multiline)
  }

  /** The first alternative, in order, that occurs at `p` (case-insensitively); the index after it. */
  function FirstAlt(s: string, p: nat, alts: seq<string>): (r: Option<nat>)
    ensures r.Some? ==> exists k :: 0 <= k < |alts| && LitAt(s, p, alts[k], true) && r.value == p + |alts[k]|
                                 && forall k' :: 0 <= k' < k ==> !LitAt(s, p, alts[k'], true)
    ensures r.None? ==> forall k :: 0 <= k < |alts| ==> !LitAt(s, p, alts[k], true)
  {
    if alts == [] then None
    else if LitAt(s, p, alts[0], true) then Some(p + |alts[0]|)
    else
      var r := FirstAlt(s, p, alts[1..]);
      assert forall k :: 1 <= k < |alts| ==> alts[k] == alts[1..][k - 1];
      if r.Some? then
        var k :| 0 <= k < |alts[1..]| && LitAt(s, p, alts[1..][k], true) && r.value == p + |alts[1..][k]|
                 && forall k' :: 0 <= k' < k ==> !LitAt(s, p, alts[1..][k'], true);
        assert LitAt(s, p, alts[k + 1], true) && r.value == p + |alts[k + 1]|;
        assert forall k' :: 0 <= k' < k + 1 ==> !LitAt(s, p, alts[k'], true);
        r
      else r
  }

  /** `.*?(?:alts)` under `s`: the end of the leftmost occurrence of an alternative. */
  function FindAlt(s: string, p: nat, alts: seq<string>): (r: Option<nat>)
    requires p <= |s|
    ensures r.Some? ==> p <= r.value <= |s|
    decreases |s| - p
  {
    match FirstAlt(s, p, alts)
    case Some(e) => Some(e)
    case None => if p == |s| then None else FindAlt(s, p + 1, alts)
  }

  // ---- tails of individual rules ------------------------------------------------

  /** `.*?\*\s*(\n|$)` under `m` (`.` stops at line terminators). */
  function StarTail(s: string, p: nat): (r: Option<nat>)
    requires p <= |s|
    ensures r.Some? ==> p < r.value <= |s|
    decreases |s| - p
  {
    if p == |s| then None
    else if s[p] == '*' && SpaceToEol(s, p + 1, true).Some? then SpaceToEol(s, p + 1, true)
    else if IsLineTerminator(s[p]) then None
    else StarTail(s, p + 1)
  }

  /** `.*?(?:remaining|responses)` under `m`: the end of the first of the two words on this line. */
  function CounterWord(s: string, p: nat): (r: Option<nat>)
    requires p <= |s|
    ensures r.Some? ==> p < r.value <= |s|
    decreases |s| - p
  {
    if LitAt(s, p, "remaining", false) || LitAt(s, p, "responses", false) then Some(p + 9)
    else if p == |s| || IsLineTerminator(s[p]) then None
    else CounterWord(s, p + 1)
  }

  /** `\]?\s*(\n|$)` without `m`: with the optional `]` taken first, then without it. */
  function BracketTail(s: string, p: nat): (r: Option<nat>)
    requires p <= |s|
    ensures r.Some? ==> p <= r.value <= |s|
  {
    if p < |s| && s[p] == ']' && SpaceToEol(s, p + 1, false).Some? then SpaceToEol(s, p + 1, false)
    else SpaceToEol(s, p, false)
  }

  /** `.*?\]?\s*(\n|$)` under `s`: the lazy `.*?` grows until the tail matches,
      which it always does at the end of the text. */
  function LazyBracketTail(s: string, p: nat): (e: nat)
    requires p <= |s|
    ensures p <= e <= |s|
    decreases |s| - p
  {
    if p == |s| then p
    else match BracketTail(s, p)
      case Some(e) => e
      case None => LazyBracketTail(s, p + 1)
  }

  /** The conversational opener at `q`: one of `PreambleWords` or `System\s*Alert`. */
  function PreambleWord(s: string, q: nat): (r: Option<nat>)
    requires q <= |s|
    ensures r.Some? ==> q < r.value <= |s|
  {
    match FirstAlt(s, q, PreambleWords)
    case Some(k) => Some(k)
    case None =>
      if LitAt(s, q, "System", true) then
        var w := SkipSpace(s, q + 6);
        if LitAt(s, w, "Alert", true) then Some(w + 5) else None
      else None
  }

  // ---- one attempt of a rule --------------------------------------------------------

  /** `\[.*?\]\s*` (or the brace form) under `s`, after the leading `^\s*`. */
  function BlockAt(s: string, q: nat, open: char, close: char): (m: Option<nat>)
    requires q <= |s|
    ensures m.Some? ==> q < m.value <= |s|
  {
    if q < |s| && s[q] == open then
      match FindChar(s, q + 1, close)
      case Some(k) => Some(SkipSpace(s, k + 1))
      case None => None
    else None
  }

  /** `\*[A-Z]+:.*?\*\s*(\n|$)` under `m`. */
  function StarLabelAt(s: string, q: nat): (m: Option<nat>)
    requires q <= |s|
    ensures m.Some? ==> q < m.value <= |s|
  {
    if q < |s| && s[q] == '*' then
      var u := RunEnd(s, q + 1, Uppers);
      if q + 1 < u < |s| && s[u] == ':' then StarTail(s, u + 1) else None
    else None
  }

  /** `\d+` followed by `mark`, then `.*?(\n|$)` under `m`. */
  function DigitsMarkAt(s: string, q: nat, mark: char): (m: Option<nat>)
    requires q <= |s|
    ensures m.Some? ==> q < m.value <= |s|
  {
    var u := RunEnd(s, q, Digits);
    if q < u < |s| && s[u] == mark then Some(RestOfLine(s, u + 1)) else None
  }

  /** A case-sensitive phrase, then `.*?(\n|$)` under `m`. */
  function PhraseLineAt(s: string, q: nat, phrase: string): (m: Option<nat>)
    requires q <= |s| && |phrase| > 0
    ensures m.Some? ==> q < m.value <= |s|
  {
    if LitAt(s, q, phrase, false) then Some(RestOfLine(s, q + |phrase|)) else None
  }

  /** `\d+\/\d+.*?(?:remaining|responses).*?(\n|$)` under `m`. */
  function CounterAt(s: string, q: nat): (m: Option<nat>)
    requires q <= |s|
    ensures m.Some? ==> q < m.value <= |s|
  {
    var u := RunEnd(s, q, Digits);
    if q < u < |s| && s[u] == '/' then
      var v := RunEnd(s, u + 1, Digits);
      if u + 1 < v then
        match CounterWord(s, v)
        case Some(k) => Some(RestOfLine(s, k))
        case None => None
      else None
    else None
  }

  /** `\/\w+\s*(\n|$)` under `m`. */
  function SlashAt(s: string, q: nat): (m: Option<nat>)
    requires q <= |s|
    ensures m.Some? ==> q < m.value <= |s|
  {
    if q < |s| && s[q] == '/' then
      var u := RunEnd(s, q + 1, Words);
      if q + 1 < u then SpaceToEol(s, u, true) else None
    else None
  }

  /** `[A-Z]\).*?(\n|$)` under `m`. */
  function LetteredAt(s: string, q: nat): (m: Option<nat>)
    requires q <= |s|
    ensures m.Some? ==> q < m.value <= |s|
  {
    if q + 1 < |s| && IsUpper(s[q]) && s[q + 1] == ')' then Some(RestOfLine(s, q + 2)) else None
  }

  /** An opener word, then `.*?(\n|$)` under `s`. */
  function PreambleAt(s: string, q: nat): (m: Option<nat>)
    requires q <= |s|
    ensures m.Some? ==> q < m.value <= |s|
  {
    match PreambleWord(s, q)
    case Some(k) => Some(ThroughNewline(s, k))
    case None => None
  }

  /** A role opener, then the first marker after it, then `.*?(\n|$)` under `s`. */
  function RoleAt(s: string, q: nat): (m: Option<nat>)
    requires q <= |s|
    ensures m.Some? ==> q < m.value <= |s|
  {
    match FirstAlt(s, q, RoleOpeners)
    case Some(k) =>
      if k <= |s| then
        match FindAlt(s, k, RoleMarkers)
        case Some(e) => Some(ThroughNewline(s, e))
        case None => None
      else None
    case None => None
  }

  /** `\[?Begin real.*?\]?\s*(\n|$)` under `s`. */
  function BeginRealAt(s: string, q: nat): (m: Option<nat>)
    requires q <= |s|
    ensures m.Some? ==> q < m.value <= |s|
  {
    var b := if q < |s| && s[q] == '[' then q + 1 else q;
    if LitAt(s, b, "Begin real", true) then Some(LazyBracketTail(s, b + 10)) else None
  }

  /** A metadata word, then `.*?(\n|$)` under `s`. */
  function MetadataAt(s: string, q: nat): (m: Option<nat>)
    requires q <= |s|
    ensures m.Some? ==> q < m.value <= |s|
  {
    match FirstAlt(s, q, MetadataWords)
    case Some(k) => if k <= |s| then Some(ThroughNewline(s, k)) else None
    case None => None
  }

  /** Where the rule's match starting at `i` ends, if it matches there: a line
      rewrite needs a line start, then every rule skips `\s*` and tries its body. */
  function MatchAt(r: Rule, s: string, i: nat): (m: Option<nat>)
    requires i <= |s|
    ensures m.Some? ==> i < m.value <= |s|
  {
    if IsLineRule(r) && !LineStart(s, i) then None
    else
      var q := SkipSpace(s, i);
      match r
      case BracketBlock => BlockAt(s, q, '[', ']')
      case BraceBlock => BlockAt(s, q, '{', '}')
      case StarLabel => StarLabelAt(s, q)
      case Percentage => DigitsMarkAt(s, q, '%')
      case NowResponding => PhraseLineAt(s, q, "Now responding as")
      case Counter => CounterAt(s, q)
      case Drafting => PhraseLineAt(s, q, "Drafting as")
      case SlashCommand => SlashAt(s, q)
      case NumberedItem => DigitsMarkAt(s, q, '.')
      case LetteredItem => LetteredAt(s, q)
      case Preamble => PreambleAt(s, q)
      case RoleFraming => RoleAt(s, q)
      case BeginReal => BeginRealAt(s, q)
      case PromptMetadata => MetadataAt(s, q)
  }

  // ---- applying rules ---------------------------------------------------------------

  /** A global `replace(regex, '')`: every match found scanning left to right is deleted. */
  function DeleteMatches(r: Rule, s: string, i: nat): (t: string)
    requires i <= |s|
    ensures IsSubseq(t, s[i..])
    decreases |s| - i
  {
    if i == |s| then []
    else match MatchAt(r, s, i)
      case Some(e) =>
        var t := DeleteMatches(r, s, e);
        SubseqSuffix(s[i..], e - i);
        assert s[i..][e - i..] == s[e..];
        SubseqTrans(t, s[e..], s[i..]);
        t
      case None =>
        var t := DeleteMatches(r, s, i + 1);
        SubseqCons(s[i], t, s[i + 1..]);
        assert s[i..] == [s[i]] + s[i + 1..];
        [s[i]] + t
  }

  /** One `.replace(...)` of the chain. */
  function Apply(r: Rule, s: string): (t: string)
    ensures IsSubseq(t, s)
    ensures !IsLineRule(r) ==> (MatchAt(r, s, 0).Some? <==> |t| < |s|)
  {
    if IsLineRule(r) then
      assert s[0..] == s;
      DeleteMatches(r, s, 0)
    else match MatchAt(r, s, 0)
      case Some(e) => SubseqSuffix(s, e); s[e..]
      case None => SubseqRefl(s); s
  }

  function ApplyAll(rs: seq<Rule>, s: string): (t: string)
    ensures IsSubseq(t, s)
    decreases |rs|
  {
    if rs == [] then SubseqRefl(s); s
    else
      var u := Apply(rs[0], s);
      var t := ApplyAll(rs[1..], u);
      SubseqTrans(t, u, s);
      t
  }

  /** One iteration of the cleanup loop. */
  function Pass(s: string): (t: string)
    ensures IsSubseq(t, s)
    ensures NoOuterSpace(t)
    ensures t == s || |t| < |s|
  {
    var u := ApplyAll(Battery, s);
    TrimIsSubseq(u);
    SubseqTrans(Trim(u), u, s);
    SubseqShorter(Trim(u), s);
    Trim(u)
  }

  /** What the loop computes: passes until one changes nothing. */
  function Cleaned(s: string): (r: string)
    ensures IsSubseq(r, s)
    decreases |s|
  {
    var p := Pass(s);
    if p == s then s
    else
      var r := Cleaned(p);
      SubseqTrans(r, p, s);
      r
  }

  /** The `while (cleaning)` loop: re-run the pass until it leaves the text unchanged. */
  method Clean(raw: string) returns (text: string)
    ensures text == Cleaned(raw)
  {
    text := raw;
    var cleaning := true;
    while cleaning
      invariant cleaning ==> Cleaned(text) == Cleaned(raw)
      invariant !cleaning ==> text == Cleaned(raw)
      decreases |text|, cleaning
    {
      var original := text;
      text := Pass(text);
      if text == original {
        cleaning := false;
      }
    }
  }

  /** The loop stops only at a text the pass leaves unchanged. */
  lemma {:induction false} CleanedFixed(s: string)
    ensures Pass(Cleaned(s)) == Cleaned(s)
    decreases |s|
  {
    if Pass(s) != s {
      CleanedFixed(Pass(s));
    }
  }

  /** One turn of the loop: a pass that changes the text leaves the final result to the next turn. */
  lemma CleanedStep(s: string)
    ensures Pass(s) == s ==> Cleaned(s) == s
    ensures Pass(s) != s ==> Cleaned(s) == Cleaned(Pass(s))
  {
  }

  // ---- when rewrites change nothing -------------------------------------------------

  /** A rule that matches nowhere deletes nothing. */
  lemma {:induction false} DeleteNone(r: Rule, s: string, i: nat)
    requires i <= |s|
    requires forall j :: i <= j < |s| ==> MatchAt(r, s, j).None?
    ensures DeleteMatches(r, s, i) == s[i..]
    decreases |s| - i
  {
    if i < |s| {
      DeleteNone(r, s, i + 1);
      assert s[i..] == [s[i]] + s[i + 1..];
    }
  }

  /** The character at `q` could begin a match of one of the line rules. */
  predicate LeadsLine(s: string, q: nat) {
    q < |s| && (s[q] == '*' || IsDigit(s[q]) || s[q] == '/' || s[q] == 'N' || s[q] == 'D'
                || (IsUpper(s[q]) && q + 1 < |s| && s[q + 1] == ')'))
  }

  lemma LineRuleNeedsLead(r: Rule, s: string, i: nat)
    requires IsLineRule(r) && i <= |s| && !LeadsLine(s, SkipSpace(s, i))
    ensures MatchAt(r, s, i).None?
  {
    var q := SkipSpace(s, i);
    if q < |s| {
      assert RunEnd(s, q, Digits) == q;
      assert !LitAt(s, q, "Now responding as", false) && !LitAt(s, q, "Drafting as", false) by {
        assert "Now responding as"[0] == 'N' && "Drafting as"[0] == 'D';
      }
    }
  }

  /** A line rule leaves a text alone when no line starts with what it needs. */
  lemma QuietLines(r: Rule, s: string)
    requires IsLineRule(r)
    requires forall i :: 0 <= i < |s| && LineStart(s, i) ==> !LeadsLine(s, SkipSpace(s, i))
    ensures Apply(r, s) == s
  {
    NowhereQuiet(r, s);
    DeleteNone(r, s, 0);
  }

  lemma NowhereQuiet(r: Rule, s: string)
    requires IsLineRule(r)
    requires forall i :: 0 <= i < |s| && LineStart(s, i) ==> !LeadsLine(s, SkipSpace(s, i))
    ensures forall j :: 0 <= j < |s| ==> MatchAt(r, s, j).None?
  {
    forall j | 0 <= j < |s| ensures MatchAt(r, s, j).None? {
      QuietAt(r, s, j);
    }
  }

  lemma QuietAt(r: Rule, s: string, j: nat)
    requires IsLineRule(r) && j < |s|
    requires LineStart(s, j) ==> !LeadsLine(s, SkipSpace(s, j))
    ensures MatchAt(r, s, j).None?
  {
    if LineStart(s, j) { LineRuleNeedsLead(r, s, j); } else { OffLineStart(r, s, j); }
  }

  /** Line rewrites only match at line starts. */
  lemma OffLineStart(r: Rule, s: string, i: nat)
    requires IsLineRule(r) && i <= |s| && !LineStart(s, i)
    ensures MatchAt(r, s, i).None?
  {
  }

  lemma {:induction false} ApplyAllFixed(rs: seq<Rule>, s: string)
    requires forall r :: r in rs ==> Apply(r, s) == s
    ensures ApplyAll(rs, s) == s
    decreases |rs|
  {
    if rs != [] {
      assert rs[0] in rs;
      ApplyAllFixed(rs[1..], s);
    }
  }

  lemma {:induction false} ApplyAllAppend(rs: seq<Rule>, qs: seq<Rule>, s: string)
    ensures ApplyAll(rs + qs, s) == ApplyAll(qs, ApplyAll(rs, s))
    decreases |rs|
  {
    if rs == [] {
      assert rs + qs == qs;
    } else {
      assert (rs + qs)[0] == rs[0] && (rs + qs)[1..] == rs[1..] + qs;
      ApplyAllAppend(rs[1..], qs, Apply(rs[0], s));
    }
  }

  // ---- what a fixed point looks like ------------------------------------------------

  /** If the whole chain leaves a text unchanged, so does every single rewrite. */
  lemma {:induction false} ChainFixedEachFixed(rs: seq<Rule>, s: string)
    requires ApplyAll(rs, s) == s
    ensures forall r :: r in rs ==> Apply(r, s) == s
    decreases |rs|
  {
    if rs != [] {
      var u := Apply(rs[0], s);
      SubseqLength(s, u);
      SubseqLength(u, s);
      ChainFixedEachFixed(rs[1..], s);
      assert forall r :: r in rs ==> r == rs[0] || r in rs[1..];
    }
  }

  lemma PassFixedEachFixed(s: string)
    requires Pass(s) == s
    ensures NoOuterSpace(s)
    ensures forall r :: r in Battery ==> Apply(r, s) == s
  {
    var u := ApplyAll(Battery, s);
    TrimIsSubseq(u);
    SubseqLength(Trim(u), u);
    SubseqLength(u, s);
    ChainFixedEachFixed(Battery, s);
  }

  predicate StartsCi(s: string, w: string) { LitAt(s, 0, w, true) }

  /** An anchored rewrite that changes nothing did not match at the start. */
  lemma AnchoredFixed(r: Rule, s: string)
    requires !IsLineRule(r) && Apply(r, s) == s
    ensures MatchAt(r, s, 0).None?
  {
  }

  lemma NoPreamble(s: string)
    requires MatchAt(Preamble, s, 0).None? && NoOuterSpace(s)
    ensures forall k :: 0 <= k < |PreambleWords| ==> !StartsCi(s, PreambleWords[k])
    ensures !(StartsCi(s, "System") && LitAt(s, SkipSpace(s, 6), "Alert", true))
  {
    if s != [] {
      assert SkipSpace(s, 0) == 0;
      assert PreambleWord(s, 0).None?;
    }
  }

  lemma NoMetadata(s: string)
    requires MatchAt(PromptMetadata, s, 0).None? && NoOuterSpace(s)
    ensures forall k :: 0 <= k < |MetadataWords| ==> !StartsCi(s, MetadataWords[k])
  {
    if s != [] {
      assert SkipSpace(s, 0) == 0;
    }
  }

  lemma NoOpenBlock(s: string)
    requires MatchAt(BracketBlock, s, 0).None? && MatchAt(BraceBlock, s, 0).None? && NoOuterSpace(s)
    ensures |s| > 0 && s[0] == '[' ==> forall j :: 0 <= j < |s| ==> s[j] != ']'
    ensures |s| > 0 && s[0] == '{' ==> forall j :: 0 <= j < |s| ==> s[j] != '}'
  {
    if s != [] {
      assert SkipSpace(s, 0) == 0;
    }
  }

  /** A fixed point of the pass is trimmed and none of the anchored block and
      opener rewrites matches at its start. */
  lemma FixedAnchors(s: string)
    requires forall r :: r in Battery ==> Apply(r, s) == s
    ensures MatchAt(BracketBlock, s, 0).None? && MatchAt(BraceBlock, s, 0).None?
    ensures MatchAt(Preamble, s, 0).None? && MatchAt(PromptMetadata, s, 0).None?
  {
    assert BracketBlock in Battery && BraceBlock in Battery;
    assert Preamble in Battery && PromptMetadata in Battery;
    AnchoredFixed(BracketBlock, s);
    AnchoredFixed(BraceBlock, s);
    AnchoredFixed(Preamble, s);
    AnchoredFixed(PromptMetadata, s);
  }

  /** What a trimmed text looks like when none of the anchored block and opener
      rewrites matches at its start. */
  lemma AnchorShape(s: string)
    requires NoOuterSpace(s)
    requires MatchAt(BracketBlock, s, 0).None? && MatchAt(BraceBlock, s, 0).None?
    requires MatchAt(Preamble, s, 0).None? && MatchAt(PromptMetadata, s, 0).None?
    ensures Shaped(s)
  {
    NoPreamble(s);
    NoMetadata(s);
    NoOpenBlock(s);
  }

  /** No conversational opener, no prompt metadata and no closed leading block. */
  predicate Shaped(s: string) {
    && (forall k :: 0 <= k < |PreambleWords| ==> !StartsCi(s, PreambleWords[k]))
    && !(StartsCi(s, "System") && LitAt(s, SkipSpace(s, 6), "Alert", true))
    && (forall k :: 0 <= k < |MetadataWords| ==> !StartsCi(s, MetadataWords[k]))
    && (|s| > 0 && s[0] == '[' ==> forall j :: 0 <= j < |s| ==> s[j] != ']')
    && (|s| > 0 && s[0] == '{' ==> forall j :: 0 <= j < |s| ==> s[j] != '}')
  }

  /** What the rewrites guarantee about a text that one more pass leaves unchanged. */
  lemma FixedPointShape(s: string)
    requires Pass(s) == s
    ensures NoOuterSpace(s) && Shaped(s)
  {
    PassFixedEachFixed(s);
    FixedAnchors(s);
    AnchorShape(s);
  }

  /** The cleaned text is a fixed point, trimmed, and free of the leading noise. */
  lemma CleanedShape(x: string)
    ensures Pass(Cleaned(x)) == Cleaned(x)
    ensures NoOuterSpace(Cleaned(x)) && Shaped(Cleaned(x))
  {
    CleanedFixed(x);
    FixedPointShape(Cleaned(x));
  }

  /** Cleaning twice is cleaning once. */
  lemma CleanIdempotent(x: string)
    ensures Cleaned(Cleaned(x)) == Cleaned(x)
  {
    CleanedFixed(x);
  }
}
