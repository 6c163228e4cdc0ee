/** The stage itself: the long-term instruction it carries from message to
    message, `beforePrompt` (directives, auto-enhancement and the stage
    directions sent with the user's turn) and `afterResponse` (unreachable
    links in the bot's reply). The enhancement request and the link probes
    happen outside the model; their answers are parameters. */
module Stage {
  import opened TextUtil
  import opened Directives
  import opened Cleanup
  import opened Links

  /** The saved per-message state as it is read back: the state itself, or its
      `longTermInstruction` field, may be missing. */
  datatype StoredState = StoredState(longTermInstruction: Option<string>)

  /** What the stage hands back to the chat after each hook. */
  datatype Response = Response(stageDirections: Option<string>, messageState: StoredState, modifiedMessage: string)

  /** `readMessageState`: a missing state or field reads as no instruction. */
  function Recalled(state: Option<StoredState>): (lt: string)
    ensures state.Some? && state.value.longTermInstruction.Some? ==> lt == state.value.longTermInstruction.value
    ensures lt != "" ==> state == Some(StoredState(Some(lt)))
  {
    match state
    case None => ""
    case Some(st) =>
      match st.longTermInstruction
      case None => ""
      case Some(t) => t
  }

  /** `writeMessageState`: what the next read recovers. */
  function Saved(lt: string): (st: StoredState)
    ensures Recalled(Some(st)) == lt
  {
    StoredState(Some(lt))
  }

  /** Writing back what was read keeps a stored instruction as it is, and turns
      a missing state or field into "". */
  lemma WriteAfterRead(state: Option<StoredState>)
    ensures state.Some? && state.value.longTermInstruction.Some? ==> Saved(Recalled(state)) == state.value
    ensures state.None? || state.value.longTermInstruction.None? ==> Saved(Recalled(state)) == StoredState(Some(""))
  {
  }

  // ---- the long-term instruction --------------------------------------------------

  /** The instruction after a user turn: the non-command `[[...]]` bodies joined
      by line breaks and trimmed, or the previous one when there are none. */
  function UpdatedLongTerm(prev: string, content: string): (lt: string)
    ensures LongTermBodies(content) == [] ==> lt == prev
    ensures LongTermBodies(content) != [] ==> NoOuterSpace(lt) && IsSubseq(lt, Join(LongTermBodies(content), "\n"))
  {
    var bodies := LongTermBodies(content);
    if |bodies| > 0 then TrimIsSubseq(Join(bodies, "\n")); Trim(Join(bodies, "\n")) else prev
  }

  /** No character of the turn opens a bracket. */
  predicate NoBrackets(content: string) {
    forall j :: 0 <= j < |content| ==> content[j] != '['
  }

  /** A turn without `[[` keeps the instruction, and only loses its outer space. */
  lemma LongTermKept(prev: string, content: string)
    requires forall j :: 0 <= j < |content| ==> !FenceAt(LongTerm, content, j)
    ensures UpdatedLongTerm(prev, content) == prev
    ensures WithoutLongTerm(content) == Trim(content)
  {
    NoFenceNoSpan(LongTerm, content, 0, LongTermPieces(content));
    assert content[0..] == content;
  }

  /** A turn whose `[[...]]` bodies are all `/` commands keeps the instruction. */
  lemma CommandsKeepLongTerm(prev: string, content: string)
    requires forall b :: b in Bodies(LongTermPieces(content)) ==> IsCommand(b)
    ensures UpdatedLongTerm(prev, content) == prev
  {
    var bodies := Bodies(LongTermPieces(content));
    assert forall k :: 0 <= k < |bodies| ==> IsCommand(bodies[k]) by {
      forall k | 0 <= k < |bodies| ensures IsCommand(bodies[k]) {
        assert bodies[k] in bodies;
      }
    }
  }

  /** A new instruction replaces the old one outright, trimmed. */
  lemma LongTermReplaces(p: string, q: string, content: string)
    requires LongTermBodies(content) != []
    ensures UpdatedLongTerm(p, content) == UpdatedLongTerm(q, content)
    ensures NoOuterSpace(UpdatedLongTerm(p, content))
  {
  }

  // ---- the user's message ---------------------------------------------------------

  /** What the cleanup loop leaves of the generator's text. `outcome` is that
      text, or `None` when the request failed, timed out or found no character. */
  function Enhancement(outcome: Option<string>): Option<string> {
    match outcome
    case None => None
    case Some(t) => Some(Cleaned(t))
  }

  /** The generator's text reaches the message only through the cleanup loop:
      deleted from, never added to, and left a fixed point of one pass. */
  lemma EnhancementCleaned(t: string)
    ensures Enhancement(Some(t)) == Some(Cleaned(t))
    ensures IsSubseq(Cleaned(t), t) && Pass(Cleaned(t)) == Cleaned(t)
    ensures Shaped(Cleaned(t))
  {
    CleanedShape(t);
  }

  /** The message sent on: the turn without directives, replaced by the cleaned
      enhancement when that is non-empty; a turn that was changed into nothing
      becomes a single space. */
  function ModifiedMessage(content: string, cleaned: Option<string>): (m: string)
    ensures m == StripDirectives(content)
            || (cleaned.Some? && m == cleaned.value && m != "" && StripDirectives(content) != "")
            || (m == " " && StripDirectives(content) == "" && content != "")
  {
    var stripped := StripDirectives(content);
    var enhanced :=
      if |stripped| > 0 && cleaned.Some? && |cleaned.value| > 0 then cleaned.value
      else stripped;
    if enhanced != content && |enhanced| == 0 then " " else enhanced
  }

  /** The message is empty exactly when the turn was. */
  lemma ModifiedEmptyIff(content: string, cleaned: Option<string>)
    ensures ModifiedMessage(content, cleaned) == "" <==> content == ""
  {
    if content == "" {
      StripEmpty();
    }
  }

  /** Without a usable enhancement the message is the turn without its directives,
      or a single space when nothing but directives was typed. */
  lemma FallbackMessage(content: string, cleaned: Option<string>)
    requires cleaned.None? || cleaned.value == ""
    ensures StripDirectives(content) != "" ==> ModifiedMessage(content, cleaned) == StripDirectives(content)
    ensures IsSubseq(ModifiedMessage(content, cleaned), content) || ModifiedMessage(content, cleaned) == " "
  {
  }

  /** A turn of directives only is never enhanced: it becomes a single space. */
  lemma DirectivesOnly(content: string, cleaned: Option<string>)
    requires content != "" && StripDirectives(content) == ""
    ensures ModifiedMessage(content, cleaned) == " "
  {
  }

  /** A usable enhancement replaces the turn. */
  lemma EnhancedMessage(content: string, c: string)
    requires StripDirectives(content) != "" && c != ""
    ensures ModifiedMessage(content, Some(c)) == c
  {
  }

  /** The `try` block of `beforePrompt`: the generator's text run through the
      cleanup loop, or nothing when the generator failed. */
  method CleanEnhancement(outcome: Option<string>) returns (cleaned: Option<string>)
    ensures cleaned == Enhancement(outcome)
  {
    match outcome
    case Some(raw) =>
      var text := Clean(raw);
      cleaned := Some(text);
    case None =>
      cleaned := None;
  }

  /** The enhancement step of `beforePrompt`: strip the directives, clean what the
      generator returned for a non-empty turn, and keep a usable result. */
  method EnhanceMessage(content: string, outcome: Option<string>) returns (newContent: string)
    ensures newContent == ModifiedMessage(content, Enhancement(outcome))
  {
    var stripped := StripDirectives(content);
    newContent := stripped;
    var cleaned: Option<string> := None;
    if |stripped| > 0 {
      cleaned := CleanEnhancement(outcome);
      if cleaned.Some? && |cleaned.value| > 0 {
        newContent := cleaned.value;
      }
    }
    var enhanced := newContent;
    if newContent != content && |newContent| == 0 {
      newContent := " ";
    }
    MessageOf(content, Enhancement(outcome), stripped, cleaned, enhanced, newContent);
  }

  lemma MessageOf(content: string, e: Option<string>, stripped: string, cleaned: Option<string>, enhanced: string, m: string)
    requires stripped == StripDirectives(content)
    requires |stripped| > 0 ==> cleaned == e
    requires enhanced == if |stripped| > 0 && cleaned.Some? && |cleaned.value| > 0 then cleaned.value else stripped
    requires m == if enhanced != content && |enhanced| == 0 then " " else enhanced
    ensures m == ModifiedMessage(content, e)
  {
  }

  /** A trimmed turn without brackets and without enhancement passes untouched. */
  lemma PlainTurn(prev: string, content: string)
    requires NoBrackets(content) && NoOuterSpace(content)
    ensures UpdatedLongTerm(prev, content) == prev
    ensures CurrentBodies(content) == []
    ensures ModifiedMessage(content, None) == content
  {
    LongTermKept(prev, content);
    TrimKeepsTrimmed(content);
    NoFenceNoSpan(Current, content, 0, CurrentPieces(content));
    assert content[0..] == content;
  }

  // ---- stage directions -----------------------------------------------------------

  const OngoingLabel: string := "Ongoing Instruction: "
  const CriticalLabel: string := "Critical Instruction: "

  /** The directive asking the bot not to echo a rewritten user message. */
  const AntiEcho: string :=
    "[{{char}} should respond " + "naturally to {{user}}'s " + "message. Do not repeat "
    + "or echo what {{user}} " + "just said. React and " + "respond with {{char}}'s "
    + "own unique dialogue " + "and actions.]"

  /** The ongoing instruction line, then the critical line of this turn's bodies. */
  function StageDirections(longTerm: string, critical: seq<string>): (d: string)
    ensures d == "" <==> longTerm == "" && critical == []
    ensures longTerm != "" ==> StartsWith(d, OngoingLabel + longTerm + "\n")
    ensures longTerm == "" && critical != [] ==> StartsWith(d, CriticalLabel)
    ensures critical == [] ==> d == (if longTerm == "" then "" else OngoingLabel + longTerm + "\n")
    ensures critical != [] ==> EndsWith(d, CriticalLabel + Trim(Join(critical, "\n")) + "\n")
    ensures |d| == (if longTerm == "" then 0 else |OngoingLabel| + |longTerm| + 1)
                 + (if critical == [] then 0 else |CriticalLabel| + |Trim(Join(critical, "\n"))| + 1)
  {
    var ongoing := if |longTerm| > 0 then OngoingLabel + longTerm + "\n" else "";
    var now := if |critical| > 0 then CriticalLabel + Trim(Join(critical, "\n")) + "\n" else "";
    assert (ongoing + now)[..|ongoing|] == ongoing;
    assert (ongoing + now)[|ongoing|..] == now;
    ongoing + now
  }

  /** Both kinds of instruction: the ongoing line comes first, then the critical line. */
  lemma BothDirections(longTerm: string, critical: seq<string>)
    requires longTerm == "x" && critical == ["y"]
    ensures StageDirections(longTerm, critical) == OngoingLabel + "x\n" + CriticalLabel + "y\n"
  {
    TrimKeepsTrimmed("y");
  }

  /** The stage directions once the anti-echo directive is added for a changed message. */
  function FinalDirections(directions: string, content: string, modified: string): (d: string)
    ensures modified == content || modified == "" ==> d == directions
    ensures modified != content && modified != "" ==>
              d != "" && (directions == "" ==> d == AntiEcho)
              && (directions != "" ==> |directions| <= |d| && d[..|directions|] == directions && EndsWith(d, AntiEcho + "\n"))
  {
    if modified != content && |modified| > 0 then
      if |directions| > 0 then PrefixSuffix(directions, AntiEcho, "\n"); directions + AntiEcho + "\n" else AntiEcho
    else directions
  }

  /** The whole of `beforePrompt`, given the instruction held before the turn and
      the cleaned enhancement, if any. */
  function Turn(prev: string, content: string, cleaned: Option<string>): (r: Response)
    ensures Recalled(Some(r.messageState)) == UpdatedLongTerm(prev, content)
    ensures r.modifiedMessage == ModifiedMessage(content, cleaned)
    ensures r.stageDirections != Some("")
  {
    var lt := UpdatedLongTerm(prev, content);
    var m := ModifiedMessage(content, cleaned);
    var d := FinalDirections(StageDirections(lt, CurrentBodies(content)), content, m);
    Response(if |d| > 0 then Some(d) else None, Saved(lt), m)
  }

  /** The steps of `beforePrompt`, one by one, add up to `Turn`. */
  lemma TurnOf(prev: string, content: string, cleaned: Option<string>, possible: seq<string>, lt: string,
               directions: string, m: string, d: string)
    requires possible == LongTermBodies(content)
    requires lt == if |possible| > 0 then Trim(Join(possible, "\n")) else prev
    requires directions == StageDirections(lt, CurrentBodies(content))
    requires m == ModifiedMessage(content, cleaned)
    requires d == if m != content && |m| > 0 then (if |directions| > 0 then directions + AntiEcho + "\n" else AntiEcho)
                  else directions
    ensures lt == UpdatedLongTerm(prev, content)
    ensures Turn(prev, content, cleaned) == Response(if |d| > 0 then Some(d) else None, Saved(lt), m)
  {
  }

  /** No stage directions are sent exactly when there is no instruction of either
      kind and the message went through unchanged. */
  lemma SilentTurnIff(prev: string, content: string, cleaned: Option<string>)
    ensures Turn(prev, content, cleaned).stageDirections.None?
        <==> UpdatedLongTerm(prev, content) == "" && CurrentBodies(content) == []
             && ModifiedMessage(content, cleaned) == content
  {
    ModifiedEmptyIff(content, cleaned);
    assert AntiEcho[0] == '[';
  }

  /** A changed message carries the anti-echo directive at the end of the stage
      directions; an unchanged one carries the instructions alone. */
  lemma AntiEchoIffChanged(prev: string, content: string, cleaned: Option<string>)
    ensures var r := Turn(prev, content, cleaned);
            var d := StageDirections(UpdatedLongTerm(prev, content), CurrentBodies(content));
            && (r.modifiedMessage != content ==> r.stageDirections == Some(if d == "" then AntiEcho else d + AntiEcho + "\n"))
            && (r.modifiedMessage == content ==> r.stageDirections == (if d == "" then None else Some(d)))
  {
    ModifiedEmptyIff(content, cleaned);
    assert AntiEcho[0] == '[';
  }

  /** The saved state is the instruction in force after the turn, and the next
      plain turn keeps it. */
  lemma InstructionCarried(prev: string, content: string, next: string, cleaned: Option<string>)
    requires forall j :: 0 <= j < |next| ==> !FenceAt(LongTerm, next, j)
    ensures var lt := Recalled(Some(Turn(prev, content, cleaned).messageState));
            lt == UpdatedLongTerm(prev, content) && UpdatedLongTerm(lt, next) == lt
  {
    LongTermKept(Recalled(Some(Turn(prev, content, cleaned).messageState)), next);
  }

  /** The long-term pass of a turn with a directive in mid-sentence. */
  lemma DirectiveSetsLongTerm(prev: string, content: string)
    requires content == "Hello [[x]] there"
    ensures UpdatedLongTerm(prev, content) == "x"
    ensures WithoutLongTerm(content) == "Hello  there"
  {
    StripExample(content);
    SingleBody(prev, content, "x");
  }

  /** A turn with a single trimmed long-term body sets the instruction to it. */
  lemma SingleBody(prev: string, content: string, body: string)
    requires LongTermBodies(content) == [body] && NoOuterSpace(body)
    ensures UpdatedLongTerm(prev, content) == body
  {
    TrimKeepsTrimmed(body);
  }

  /** The current-turn pass of the same turn finds nothing more to strip. */
  lemma DirectivePasses(prev: string, content: string)
    requires content == "Hello [[x]] there"
    ensures UpdatedLongTerm(prev, content) == "x"
    ensures CurrentBodies(content) == []
    ensures StripDirectives(content) == "Hello  there"
  {
    DirectiveSetsLongTerm(prev, content);
    var w := WithoutLongTerm(content);
    NoFenceInExample(w);
    NoFenceNoSpan(Current, w, 0, CurrentPieces(content));
    assert w[0..] == w;
    TrimKeepsTrimmed(w);
  }

  /** What is left of the example once its long-term directive is gone opens no bracket. */
  lemma NoFenceInExample(w: string)
    requires w == "Hello  there"
    ensures forall j :: 0 <= j < |w| ==> !FenceAt(Current, w, j)
  {
  }

  /** The same turn without enhancement: the instruction is set, the text around
      the directive keeps both its spaces, and the stage directions carry the
      instruction and the anti-echo directive. */
  lemma DirectiveTurn(prev: string, content: string)
    requires content == "Hello [[x]] there"
    ensures Turn(prev, content, None)
         == Response(Some(OngoingLabel + "x\n" + AntiEcho + "\n"), Saved("x"), "Hello  there")
  {
    DirectivePasses(prev, content);
    var m := ModifiedMessage(content, None);
    assert m == "Hello  there";
    assert m != content by { assert |m| != |content|; }
    assert StageDirections("x", []) == OngoingLabel + "x\n";
  }

  /** `[[]]` scans as one empty long-term span. */
  lemma ClearingPieces(content: string)
    requires content == "[[]]"
    ensures LongTermPieces(content) == [Directives.Span("")]
  {
    var ps := [Directives.Span("")];
    assert SpanAt(LongTerm, content, 0, "");
    assert Directives.ValidScan(LongTerm, content, 0, ps);
    Directives.ScanUnique(LongTerm, content, 0, ps, LongTermPieces(content));
  }

  /** An empty long-term directive: it is not a command, so it clears the
      instruction, and the turn it leaves empty is sent as a single space. */
  lemma ClearingTurn(prev: string, content: string, cleaned: Option<string>)
    requires content == "[[]]"
    ensures UpdatedLongTerm(prev, content) == ""
    ensures ModifiedMessage(content, cleaned) == " "
  {
    ClearingPieces(content);
    assert Texts(LongTermPieces(content)) == "";
    assert Bodies(LongTermPieces(content)) == [""];
    SubseqLength(StripDirectives(content), WithoutLongTerm(content));
  }

  // ---- the stage object -----------------------------------------------------------

  class Stage {
    /** The instruction applied to every turn until a new `[[...]]` replaces it. */
    var longTermInstruction: string

    constructor (messageState: Option<StoredState>)
      ensures longTermInstruction == Recalled(messageState)
    {
      longTermInstruction := Recalled(messageState);
    }

    method ReadMessageState(state: Option<StoredState>)
      modifies this
      ensures longTermInstruction == Recalled(state)
    {
      longTermInstruction := Recalled(state);
    }

    function WriteMessageState(): (st: StoredState)
      reads this
      ensures Recalled(Some(st)) == longTermInstruction
    {
      Saved(longTermInstruction)
    }

    /** `beforePrompt` for a user turn `content`; `outcome` is what the enhancement
        request returned, if it returned. */
    method BeforePrompt(content: string, outcome: Option<string>) returns (r: Response)
      modifies this
      ensures longTermInstruction == UpdatedLongTerm(old(longTermInstruction), content)
      ensures r == Turn(old(longTermInstruction), content, Enhancement(outcome))
    {
      var possible := LongTermBodies(content);
      if |possible| > 0 {
        longTermInstruction := Trim(Join(possible, "\n"));
      }
      var current := CurrentBodies(content);
      var directions := StageDirections(longTermInstruction, current);
      var newContent := EnhanceMessage(content, outcome);
      var final := directions;
      if newContent != content && |newContent| > 0 {
        final := if |directions| > 0 then directions + AntiEcho + "\n" else AntiEcho;
      }
      TurnOf(old(longTermInstruction), content, Enhancement(outcome), possible, longTermInstruction,
             directions, newContent, final);
      r := Response(if |final| > 0 then Some(final) else None, WriteMessageState(), newContent);
    }

    /** `afterResponse` for a bot reply; `ok` holds, match by match, whether the
        link's address answered. The instruction is left as it is, and the reply
        goes through `filterValidMarkdown` as written. */
    method AfterResponse(content: string, ok: seq<bool>) returns (r: Response)
      requires |ok| == |Matches(content)|
      ensures r.stageDirections.None?
      ensures Recalled(Some(r.messageState)) == longTermInstruction
      ensures r.modifiedMessage == FilterAsWritten(content, ok)
      ensures (forall k :: 0 <= k < |ok| ==> ok[k]) ==> r.modifiedMessage == content
      ensures (forall k :: 0 <= k < |ok| ==> Literal(Matches(content)[k])) ==>
                IsSubseq(r.modifiedMessage, content)
                && ((exists k :: 0 <= k < |ok| && !ok[k]) ==> |r.modifiedMessage| < |content|)
    {
      var newContent := FilterValidMarkdown(content, ok);
      if forall k :: 0 <= k < |ok| ==> Literal(Matches(content)[k]) {
        FilterAsWrittenShrinks(content, ok);
      }
      r := Response(None, WriteMessageState(), newContent);
    }
  }
}
