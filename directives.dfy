/** The two bracket directives of a user turn: `[[...]]` (long-term) and a
    single-bracket `[...]` not preceded by another `[` (current turn), neither
    followed by `(`. They are found the way a global `matchAll`/`replace` finds
    them: left to right, a match resuming the scan at its end. A scan cuts the
    text into pieces, plain characters and directive spans. */
module Directives {
  import opened TextUtil

  datatype Kind = LongTerm | Current

  datatype Piece = Chr(c: char) | Span(body: string)

  /** Length of each bracket run: `[[`/`]]` for long-term, `[`/`]` for current. */
  function Fence(k: Kind): nat { if k == LongTerm then 2 else 1 }

  function Open(k: Kind): string { if k == LongTerm then "[[" else "[" }
  function Close(k: Kind): string { if k == LongTerm then "]]" else "]" }

  function Width(k: Kind, body: string): nat { |body| + 2 * Fence(k) }

  /** `[^\]]` for long-term bodies, `[^\]|\[]` for current-turn bodies. */
  predicate BodyChar(k: Kind, c: char) {
    if k == LongTerm then c != ']' else c != ']' && c != '|' && c != '['
  }

  /** The opening fence at `i`; a current-turn `[` must not follow another `[`. */
  predicate Opens(k: Kind, s: string, i: nat) {
    && i + Fence(k) <= |s|
    && s[i] == '['
    && (k == LongTerm ==> s[i + 1] == '[')
    && (k == Current ==> i == 0 || s[i - 1] != '[')
  }

  predicate Closes(k: Kind, s: string, j: nat) {
    && j + Fence(k) <= |s|
    && s[j] == ']'
    && (k == LongTerm ==> s[j + 1] == ']')
  }

  /** A directive with body `body` starts at `i` in `s`: the opening fence, a body
      of allowed characters, the closing fence, and no `(` right after it (which
      would make it a markdown link). */
  predicate SpanAt(k: Kind, s: string, i: nat, body: string) {
    var b := i + Fence(k);
    var e := i + Width(k, body);
    && e <= |s|
    && Opens(k, s, i)
    && body == s[b..b + |body|]
    && (forall j :: b <= j < b + |body| ==> BodyChar(k, s[j]))
    && Closes(k, s, b + |body|)
    && (e == |s| || s[e] != '(')
  }

  /** End of the run of body characters starting at `p`. */
  function BodyEnd(k: Kind, s: string, p: nat): (q: nat)
    requires p <= |s|
    ensures p <= q <= |s|
    ensures forall j :: p <= j < q ==> BodyChar(k, s[j])
    ensures q < |s| ==> !BodyChar(k, s[q])
    decreases |s| - p
  {
    if p == |s| || !BodyChar(k, s[p]) then p else BodyEnd(k, s, p + 1)
  }

  /** A directive body, if present, is the whole run of body characters after the fence. */
  lemma SpanBodyIsRun(k: Kind, s: string, i: nat, body: string)
    requires SpanAt(k, s, i, body)
    ensures BodyEnd(k, s, i + Fence(k)) == i + Fence(k) + |body|
  {
    var b := i + Fence(k) + |body|;
    assert !BodyChar(k, s[b]);
  }

  /** The characters a directive occupies. */
  lemma SpanText(k: Kind, s: string, i: nat, body: string)
    requires SpanAt(k, s, i, body)
    ensures s[i..i + Width(k, body)] == Open(k) + body + Close(k)
  {
    var b := i + Fence(k);
    assert s[i..i + Width(k, body)] == s[i..b] + s[b..b + |body|] + s[b + |body|..i + Width(k, body)];
  }

  /** One attempt of the regular expression at index `i`. */
  function MatchAt(k: Kind, s: string, i: nat): (r: Option<string>)
    requires i <= |s|
    ensures r.Some? ==> SpanAt(k, s, i, r.value)
    ensures r.None? ==> forall b :: !SpanAt(k, s, i, b)
  {
    if Opens(k, s, i) then
      var j := BodyEnd(k, s, i + Fence(k));
      if Closes(k, s, j) && (j + Fence(k) == |s| || s[j + Fence(k)] != '(') then
        Some(s[i + Fence(k)..j])
      else
        NoSpanHere(k, s, i); None
    else
      None
  }

  lemma NoSpanHere(k: Kind, s: string, i: nat)
    requires i + Fence(k) <= |s|
    requires var j := BodyEnd(k, s, i + Fence(k));
             !(Closes(k, s, j) && (j + Fence(k) == |s| || s[j + Fence(k)] != '('))
    ensures forall b :: !SpanAt(k, s, i, b)
  {
    forall b | SpanAt(k, s, i, b) ensures false {
      SpanBodyIsRun(k, s, i, b);
    }
  }

  /** `ps` is the left-to-right scan of `s` from `i`: a span wherever the
      expression matches, a plain character wherever it does not. */
  ghost predicate ValidScan(k: Kind, s: string, i: nat, ps: seq<Piece>)
    decreases |ps|
  {
    && i <= |s|
    && if ps == [] then i == |s|
       else match ps[0]
         case Chr(c) =>
           i < |s| && s[i] == c && (forall b :: !SpanAt(k, s, i, b)) && ValidScan(k, s, i + 1, ps[1..])
         case Span(b) =>
           SpanAt(k, s, i, b) && ValidScan(k, s, i + Width(k, b), ps[1..])
  }

  function Scan(k: Kind, s: string, i: nat): (ps: seq<Piece>)
    requires i <= |s|
    ensures ValidScan(k, s, i, ps)
    decreases |s| - i
  {
    if i == |s| then []
    else match MatchAt(k, s, i)
      case Some(b) => [Span(b)] + Scan(k, s, i + Width(k, b))
      case None => [Chr(s[i])] + Scan(k, s, i + 1)
  }

  /** The text a piece was scanned from. */
  function PieceText(k: Kind, p: Piece): string {
    match p
    case Chr(c) => [c]
    case Span(b) => Open(k) + b + Close(k)
  }

  function Render(k: Kind, ps: seq<Piece>): string {
    if ps == [] then [] else PieceText(k, ps[0]) + Render(k, ps[1..])
  }

  /** What a global `replace(regex, "")` leaves: the plain characters. */
  function Texts(ps: seq<Piece>): string {
    if ps == [] then []
    else match ps[0]
      case Chr(c) => [c] + Texts(ps[1..])
      case Span(_) => Texts(ps[1..])
  }

  /** What `matchAll(...).map(m => m[1])` collects: the bodies, in order. */
  function Bodies(ps: seq<Piece>): seq<string> {
    if ps == [] then []
    else match ps[0]
      case Chr(_) => Bodies(ps[1..])
      case Span(b) => [b] + Bodies(ps[1..])
  }

  lemma SpanHead(k: Kind, s: string, i: nat, b: string)
    requires SpanAt(k, s, i, b)
    ensures s[i..] == Open(k) + b + Close(k) + s[i + Width(k, b)..]
  {
    SpanText(k, s, i, b);
    SplitAt(s, i, i + Width(k, b));
  }

  /** Scanning loses nothing: the pieces spell out the scanned text again. */
  lemma {:induction false} ScanRoundTrip(k: Kind, s: string, i: nat, ps: seq<Piece>)
    requires ValidScan(k, s, i, ps)
    ensures Render(k, ps) == s[i..]
    decreases |ps|
  {
    if ps != [] {
      match ps[0]
      case Chr(c) =>
        ScanRoundTrip(k, s, i + 1, ps[1..]);
        HeadSplit(s, i);
      case Span(b) =>
        ScanRoundTrip(k, s, i + Width(k, b), ps[1..]);
        SpanHead(k, s, i, b);
    }
  }

  /** Two valid scans from the same place start with the same piece. */
  lemma SameHead(k: Kind, s: string, i: nat, ps: seq<Piece>, qs: seq<Piece>)
    requires ValidScan(k, s, i, ps) && ValidScan(k, s, i, qs) && ps != [] && qs != []
    ensures ps[0] == qs[0]
  {
    match ps[0]
    case Chr(c) =>
      assert qs[0].Chr?;
    case Span(b) =>
      assert qs[0].Span?;
      SpanBodyIsRun(k, s, i, b);
      SpanBodyIsRun(k, s, i, qs[0].body);
  }

  /** There is only one valid scan of a text: the one `Scan` computes. */
  lemma {:induction false} ScanUnique(k: Kind, s: string, i: nat, ps: seq<Piece>, qs: seq<Piece>)
    requires ValidScan(k, s, i, ps) && ValidScan(k, s, i, qs)
    ensures ps == qs
    decreases |ps|
  {
    if ps != [] && qs != [] {
      SameHead(k, s, i, ps, qs);
      match ps[0]
      case Chr(c) => ScanUnique(k, s, i + 1, ps[1..], qs[1..]);
      case Span(b) => ScanUnique(k, s, i + Width(k, b), ps[1..], qs[1..]);
      assert ps == [ps[0]] + ps[1..] && qs == [qs[0]] + qs[1..];
    }
  }

  /** Removing the directives only deletes characters. */
  lemma {:induction false} TextsIsSubseq(k: Kind, s: string, i: nat, ps: seq<Piece>)
    requires ValidScan(k, s, i, ps)
    ensures IsSubseq(Texts(ps), s[i..])
    decreases |ps|
  {
    if ps != [] {
      match ps[0]
      case Chr(c) =>
        TextsIsSubseq(k, s, i + 1, ps[1..]);
        SubseqCons(c, Texts(ps[1..]), s[i + 1..]);
        HeadSplit(s, i);
      case Span(b) =>
        TextsIsSubseq(k, s, i + Width(k, b), ps[1..]);
        SkipSpan(k, s, i, b, Texts(ps[1..]));
    }
  }

  lemma SkipSpan(k: Kind, s: string, i: nat, b: string, t: string)
    requires SpanAt(k, s, i, b) && IsSubseq(t, s[i + Width(k, b)..])
    ensures IsSubseq(t, s[i..])
  {
    var e := i + Width(k, b);
    SubseqSuffix(s[i..], e - i);
    assert s[i..][e - i..] == s[e..];
    SubseqTrans(t, s[e..], s[i..]);
  }

  /** `[[` (long-term) or `[` (current) at `j`. */
  predicate FenceAt(k: Kind, s: string, j: nat) {
    j + Fence(k) <= |s| && s[j] == '[' && (k == LongTerm ==> s[j + 1] == '[')
  }

  /** A text without an opening fence anywhere has no directive and is kept whole. */
  lemma {:induction false} NoFenceNoSpan(k: Kind, s: string, i: nat, ps: seq<Piece>)
    requires ValidScan(k, s, i, ps)
    requires forall j :: i <= j < |s| ==> !FenceAt(k, s, j)
    ensures Bodies(ps) == [] && Texts(ps) == s[i..]
    decreases |ps|
  {
    if ps != [] {
      match ps[0]
      case Chr(c) =>
        NoFenceNoSpan(k, s, i + 1, ps[1..]);
        assert s[i..] == [c] + s[i + 1..];
      case Span(b) =>
        assert FenceAt(k, s, i);
    }
  }

  // ---- the two passes of a user turn ------------------------------------------

  function LongTermPieces(content: string): seq<Piece> { Scan(LongTerm, content, 0) }

  /** The turn text after `replace(longTermRegex, "").trim()`. */
  function WithoutLongTerm(content: string): (r: string)
    ensures IsSubseq(r, content)
    ensures NoOuterSpace(r)
  {
    var t := Texts(LongTermPieces(content));
    TextsIsSubseq(LongTerm, content, 0, LongTermPieces(content));
    assert content[0..] == content;
    TrimIsSubseq(t);
    SubseqTrans(Trim(t), t, content);
    Trim(t)
  }

  /** Long-term bodies that are not `/` commands. */
  function LongTermBodies(content: string): (bs: seq<string>)
    ensures IsSubseq(bs, Bodies(LongTermPieces(content)))
    ensures forall k :: 0 <= k < |bs| ==> !IsCommand(bs[k])
  {
    NonCommands(Bodies(LongTermPieces(content)))
  }

  /** The second expression runs over the turn once the long-term directives are gone. */
  function CurrentPieces(content: string): (ps: seq<Piece>)
    ensures ValidScan(Current, WithoutLongTerm(content), 0, ps)
    ensures Render(Current, ps) == WithoutLongTerm(content)
  {
    var w := WithoutLongTerm(content);
    ScanRoundTrip(Current, w, 0, Scan(Current, w, 0));
    assert w[0..] == w;
    Scan(Current, w, 0)
  }

  /** Current-turn bodies (the "critical instruction" parts) that are not commands. */
  function CurrentBodies(content: string): seq<string> {
    NonCommands(Bodies(CurrentPieces(content)))
  }

  /** The turn text with both kinds of directive removed and trimmed. */
  function StripDirectives(content: string): (r: string)
    ensures IsSubseq(r, content)
    ensures NoOuterSpace(r)
  {
    var w := WithoutLongTerm(content);
    var t := Texts(CurrentPieces(content));
    TextsIsSubseq(Current, w, 0, CurrentPieces(content));
    assert w[0..] == w;
    TrimIsSubseq(t);
    SubseqTrans(Trim(t), t, w);
    SubseqTrans(Trim(t), w, content);
    Trim(t)
  }

  /** An empty turn stays empty. */
  lemma StripEmpty()
    ensures StripDirectives("") == ""
  {
    SubseqLength(StripDirectives(""), "");
  }

  /** Plain characters as pieces. */
  function Chrs(t: string): (ps: seq<Piece>)
    ensures |ps| == |t|
  {
    if t == [] then [] else [Chr(t[0])] + Chrs(t[1..])
  }

  lemma {:induction false} ChrsPieces(t: string, rest: seq<Piece>)
    ensures Texts(Chrs(t) + rest) == t + Texts(rest)
    ensures Bodies(Chrs(t) + rest) == Bodies(rest)
    decreases |t|
  {
    if t == [] {
      assert Chrs(t) + rest == rest;
    } else {
      var ps := Chrs(t) + rest;
      var tail := Chrs(t[1..]) + rest;
      assert ps == [Chr(t[0])] + tail;
      assert ps[1..] == tail;
      ChrsPieces(t[1..], rest);
      assert Texts(ps) == [t[0]] + Texts(tail);
      assert t == [t[0]] + t[1..];
    }
  }

  /** A stretch where no directive starts scans as plain characters. */
  lemma {:induction false} PlainRun(k: Kind, s: string, i: nat, j: nat, rest: seq<Piece>)
    requires i <= j <= |s|
    requires forall p, b :: i <= p < j ==> !SpanAt(k, s, p, b)
    requires ValidScan(k, s, j, rest)
    ensures ValidScan(k, s, i, Chrs(s[i..j]) + rest)
    decreases j - i
  {
    if i == j {
      assert Chrs(s[i..j]) + rest == rest;
    } else {
      PlainRun(k, s, i + 1, j, rest);
      assert s[i..j][1..] == s[i + 1..j];
      assert (Chrs(s[i..j]) + rest)[0] == Chr(s[i]);
      assert (Chrs(s[i..j]) + rest)[1..] == Chrs(s[i + 1..j]) + rest;
    }
  }

  lemma ExampleScan(s: string)
    requires s == "Hello [[x]] there"
    ensures LongTermPieces(s) == Chrs(s[0..6]) + ([Span("x")] + Chrs(s[11..17]))
  {
    forall j, b | 0 <= j < |s| && j != 6 ensures !SpanAt(LongTerm, s, j, b) {
      assert !FenceAt(LongTerm, s, j);
    }
    assert s[8..9] == "x";
    assert SpanAt(LongTerm, s, 6, "x");
    PlainRun(LongTerm, s, 11, 17, []);
    var tail := Chrs(s[11..17]);
    assert tail + [] == tail;
    assert Width(LongTerm, "x") == 5;
    assert ([Span("x")] + tail)[1..] == tail;
    assert ValidScan(LongTerm, s, 6, [Span("x")] + tail);
    PlainRun(LongTerm, s, 0, 6, [Span("x")] + tail);
    ScanUnique(LongTerm, s, 0, Chrs(s[0..6]) + ([Span("x")] + tail), LongTermPieces(s));
  }

  lemma ExampleSlices(s: string)
    requires s == "Hello [[x]] there"
    ensures s[0..6] + s[11..17] == "Hello  there"
  {
  }

  lemma ExamplePieces(s: string)
    requires s == "Hello [[x]] there"
    ensures Texts(LongTermPieces(s)) == s[0..6] + s[11..17]
    ensures Bodies(LongTermPieces(s)) == ["x"]
  {
    ExampleScan(s);
    var head, tail := s[0..6], Chrs(s[11..17]);
    ChrsPieces(head, [Span("x")] + tail);
    assert ([Span("x")] + tail)[1..] == tail;
    assert tail + [] == tail;
    ChrsPieces(s[11..17], []);
  }

  /** Stripping keeps the interior white space: the two spaces around a removed
      directive both stay. */
  lemma StripExample(s: string)
    requires s == "Hello [[x]] there"
    ensures WithoutLongTerm(s) == "Hello  there"
    ensures LongTermBodies(s) == ["x"]
  {
    ExamplePieces(s);
    ExampleSlices(s);
    var t := "Hello  there";
    assert !IsSpace(t[0]) && !IsSpace(t[|t| - 1]);
    TrimKeepsTrimmed(t);
  }
}
