/** Markdown links in a bot reply, as `filterValidMarkdown` finds them with
    `matchAll`: an optional `!`, a bracketed caption and a parenthesised address,
    caption and address both lazy and confined to one line (the expression has
    only the `g` flag); the rewriting of links whose address does not answer;
    and `sanitizeMarkdownContent`. */
module Links {
  import opened TextUtil

  /** One match: `!` present (an image), the caption (group 2) and the address (group 3). */
  datatype Link = Link(bang: bool, caption: string, url: string)

  /** The matched text, `match[0]`. */
  function LinkText(l: Link): (t: string)
    ensures |t| == |l.caption| + |l.url| + 4 + (if l.bang then 1 else 0)
  {
    (if l.bang then "!" else "") + "[" + l.caption + "](" + l.url + ")"
  }

  /** `l` is what the expression matches at `p`: the lazy caption runs to the first
      `](` of the line and the lazy address to the first `)` after it. */
  predicate LinkAt(s: string, p: nat, l: Link) {
    var b := if l.bang then p + 1 else p;
    var e := b + 1 + |l.caption|;
    var f := e + 2 + |l.url|;
    && f < |s|
    && (l.bang ==> s[p] == '!')
    && s[b] == '['
    && s[b + 1..e] == l.caption
    && LabelClose(s, e)
    && s[e + 2..f] == l.url
    && s[f] == ')'
    && (forall k :: b + 1 <= k < e ==> !IsLineTerminator(s[k]))
    && (forall k :: b + 1 <= k < e ==> !LabelClose(s, k))
    && (forall k :: e + 2 <= k < f ==> !IsLineTerminator(s[k]) && s[k] != ')')
  }

  /** `](` at `k`: where a caption ends and its address begins. */
  predicate LabelClose(s: string, k: nat) {
    k + 1 < |s| && s[k] == ']' && s[k + 1] == '('
  }

  /** The end of the line that `p` is on: the next line terminator, or the end. */
  function LineEnd(s: string, p: nat): (q: nat)
    requires p <= |s|
    ensures p <= q <= |s|
    ensures forall k :: p <= k < q ==> !IsLineTerminator(s[k])
    ensures q < |s| ==> IsLineTerminator(s[q])
    decreases |s| - p
  {
    if p == |s| || IsLineTerminator(s[p]) then p else LineEnd(s, p + 1)
  }

  /** `(.*?)\]\(` from `p`: the first `](` before the end of the line. */
  function LabelEnd(s: string, p: nat): (r: Option<nat>)
    requires p <= |s|
    ensures r.Some? ==> p <= r.value && LabelClose(s, r.value)
    ensures r.Some? ==> forall k :: p <= k < r.value ==> !IsLineTerminator(s[k])
    ensures r.Some? ==> forall k :: p <= k < r.value ==> !LabelClose(s, k)
    ensures r.None? ==> forall e :: p <= e && LabelClose(s, e) ==> LineEnd(s, p) < e
    decreases |s| - p
  {
    if LabelClose(s, p) then Some(p)
    else if p == |s| || IsLineTerminator(s[p]) then None
    else LabelEnd(s, p + 1)
  }

  /** `(.*?)\)` from `p`: the first `)` before the end of the line. */
  function UrlEnd(s: string, p: nat): (r: Option<nat>)
    requires p <= |s|
    ensures r.Some? ==> p <= r.value < |s| && s[r.value] == ')'
    ensures r.Some? ==> forall k :: p <= k < r.value ==> !IsLineTerminator(s[k]) && s[k] != ')'
    ensures r.None? ==> forall f :: p <= f < |s| && s[f] == ')' ==> LineEnd(s, p) < f
    decreases |s| - p
  {
    if p < |s| && s[p] == ')' then Some(p)
    else if p == |s| || IsLineTerminator(s[p]) then None
    else UrlEnd(s, p + 1)
  }

  /** `\[(.*?)\]\((.*?)\)` at `b`. Should the address fail after the first `](`,
      a longer caption cannot help: any later `](` on the line has no `)` after it either. */
  function BodyAt(s: string, b: nat, bang: bool): (r: Option<Link>)
    requires b <= |s|
  {
    if b < |s| && s[b] == '[' then
      match LabelEnd(s, b + 1)
      case Some(e) =>
        (match UrlEnd(s, e + 2)
         case Some(f) => Some(Link(bang, s[b + 1..e], s[e + 2..f]))
         case None => None)
      case None => None
    else None
  }

  /** One attempt of the expression at `p`; `(!?)` first takes the `!` if there is one. */
  function MatchLink(s: string, p: nat): (r: Option<Link>)
    requires p <= |s|
    ensures r.Some? ==> LinkAt(s, p, r.value)
    ensures r.None? ==> forall l :: !LinkAt(s, p, l)
  {
    if p < |s| && s[p] == '!' then
      var r := BodyAt(s, p + 1, true);
      BodyAtSound(s, p + 1, true, p);
      r
    else
      var r := BodyAt(s, p, false);
      BodyAtSound(s, p, false, p);
      r
  }

  lemma BodyAtSound(s: string, b: nat, bang: bool, p: nat)
    requires b <= |s| && b == (if bang then p + 1 else p)
    requires bang ==> s[p] == '!'
    requires !bang ==> p == |s| || s[p] != '!'
    ensures BodyAt(s, b, bang).Some? ==> LinkAt(s, p, BodyAt(s, b, bang).value)
    ensures BodyAt(s, b, bang).None? ==> forall l :: !LinkAt(s, p, l)
  {
    if b < |s| && s[b] == '[' {
      var le := LabelEnd(s, b + 1);
      if le.Some? {
        var e := le.value;
        var ue := UrlEnd(s, e + 2);
        if ue.Some? {
          assert BodyAt(s, b, bang) == Some(Link(bang, s[b + 1..e], s[e + 2..ue.value]));
          BodyFound(s, b, bang, p, e, ue.value);
        } else {
          assert BodyAt(s, b, bang) == None;
          NoAddress(s, b, bang, p, e);
        }
      } else {
        assert BodyAt(s, b, bang) == None;
        NoCaptionEnd(s, b, bang, p);
      }
    } else {
      assert BodyAt(s, b, bang) == None;
      NotOpen(s, b, bang, p);
    }
  }

  lemma NotOpen(s: string, b: nat, bang: bool, p: nat)
    requires b <= |s| && b == (if bang then p + 1 else p)
    requires bang ==> s[p] == '!'
    requires !bang ==> p == |s| || s[p] != '!'
    requires !(b < |s| && s[b] == '[')
    ensures forall l :: !LinkAt(s, p, l)
  {
    forall l | LinkAt(s, p, l) ensures false {
    }
  }

  lemma BodyFound(s: string, b: nat, bang: bool, p: nat, e: nat, f: nat)
    requires b < |s| && s[b] == '[' && b == (if bang then p + 1 else p)
    requires bang ==> s[p] == '!'
    requires b + 1 <= e && e + 2 <= f < |s| && s[e] == ']' && s[e + 1] == '(' && s[f] == ')'
    requires forall k :: b + 1 <= k < e ==> !IsLineTerminator(s[k])
    requires forall k :: b + 1 <= k < e ==> !LabelClose(s, k)
    requires forall k :: e + 2 <= k < f ==> !IsLineTerminator(s[k]) && s[k] != ')'
    ensures LinkAt(s, p, Link(bang, s[b + 1..e], s[e + 2..f]))
  {
  }

  lemma NoAddress(s: string, b: nat, bang: bool, p: nat, e: nat)
    requires b < |s| && b == (if bang then p + 1 else p)
    requires bang ==> s[p] == '!'
    requires !bang ==> s[p] != '!'
    requires LabelEnd(s, b + 1) == Some(e) && e + 2 <= |s| && UrlEnd(s, e + 2).None?
    ensures forall l :: !LinkAt(s, p, l)
  {
    forall l | LinkAt(s, p, l) ensures false {
    }
  }

  lemma NoCaptionEnd(s: string, b: nat, bang: bool, p: nat)
    requires b < |s| && b == (if bang then p + 1 else p)
    requires bang ==> s[p] == '!'
    requires !bang ==> s[p] != '!'
    requires LabelEnd(s, b + 1).None?
    ensures forall l :: !LinkAt(s, p, l)
  {
    forall l | LinkAt(s, p, l) ensures false {
    }
  }

  /** Two `](` positions that each have none before them on the same line are the same. */
  lemma FirstLabelEnd(s: string, b: nat, e: nat, e': nat)
    requires b + 1 <= e && b + 1 <= e' && LabelClose(s, e) && LabelClose(s, e')
    requires forall k :: b + 1 <= k < e ==> !LabelClose(s, k)
    requires forall k :: b + 1 <= k < e' ==> !LabelClose(s, k)
    ensures e == e'
  {
  }

  /** At most one link matches at a position. */
  lemma LinkAtUnique(s: string, p: nat, l: Link, l': Link)
    requires LinkAt(s, p, l) && LinkAt(s, p, l')
    ensures l == l'
  {
    assert l.bang == l'.bang;
    var b := if l.bang then p + 1 else p;
    FirstLabelEnd(s, b, b + 1 + |l.caption|, b + 1 + |l'.caption|);
    var e := b + 1 + |l.caption|;
    FirstClose(s, e + 2, e + 2 + |l.url|, e + 2 + |l'.url|);
  }

  /** Two `)` positions that each have none before them are the same. */
  lemma FirstClose(s: string, p: nat, f: nat, f': nat)
    requires p <= f < |s| && p <= f' < |s| && s[f] == ')' && s[f'] == ')'
    requires forall k :: p <= k < f ==> s[k] != ')'
    requires forall k :: p <= k < f' ==> s[k] != ')'
    ensures f == f'
  {
  }

  /** The characters a match occupies. */
  lemma LinkTextAt(s: string, p: nat, l: Link)
    requires LinkAt(s, p, l)
    ensures p + |LinkText(l)| <= |s| && s[p..p + |LinkText(l)|] == LinkText(l)
  {
    var b := if l.bang then p + 1 else p;
    var e := b + 1 + |l.caption|;
    var f := e + 2 + |l.url|;
    assert s[p..b + 1] == (if l.bang then "![" else "[");
    assert s[e..e + 2] == "](" && s[f..f + 1] == ")";
    LinkSlices(s, p, l, b, e, f);
  }

  lemma LinkSlices(s: string, p: nat, l: Link, b: nat, e: nat, f: nat)
    requires b == (if l.bang then p + 1 else p) && e == b + 1 + |l.caption| && f == e + 2 + |l.url| && f < |s|
    requires s[p..b + 1] == (if l.bang then "![" else "[")
    requires s[b + 1..e] == l.caption && s[e..e + 2] == "](" && s[e + 2..f] == l.url && s[f..f + 1] == ")"
    ensures s[p..f + 1] == LinkText(l)
  {
    Concat5(s, p, b + 1, e, e + 2, f, f + 1);
  }

  /** Five adjacent slices make up the slice they span. */
  lemma Concat5(s: string, i0: nat, i1: nat, i2: nat, i3: nat, i4: nat, i5: nat)
    requires i0 <= i1 <= i2 <= i3 <= i4 <= i5 <= |s|
    ensures s[i0..i5] == s[i0..i1] + s[i1..i2] + s[i2..i3] + s[i3..i4] + s[i4..i5]
  {
    SliceSplit(s, i3, i4, i5);
    SliceSplit(s, i2, i3, i5);
    SliceSplit(s, i1, i2, i5);
    SliceSplit(s, i0, i1, i5);
  }

  // ---- the matchAll scan ----------------------------------------------------------

  datatype Piece = Plain(c: char) | Anchor(link: Link)

  /** `ps` is the left-to-right scan of `s` from `i`: a link wherever the
      expression matches, a plain character wherever it does not. */
  ghost predicate ValidScan(s: string, i: nat, ps: seq<Piece>)
    decreases |ps|
  {
    && i <= |s|
    && if ps == [] then i == |s|
       else match ps[0]
         case Plain(c) =>
           i < |s| && s[i] == c && (forall l :: !LinkAt(s, i, l)) && ValidScan(s, i + 1, ps[1..])
         case Anchor(l) =>
           LinkAt(s, i, l) && ValidScan(s, i + |LinkText(l)|, ps[1..])
  }

  function Scan(s: string, i: nat): (ps: seq<Piece>)
    requires i <= |s|
    ensures ValidScan(s, i, ps)
    decreases |s| - i
  {
    if i == |s| then []
    else match MatchLink(s, i)
      case Some(l) => LinkTextAt(s, i, l); [Anchor(l)] + Scan(s, i + |LinkText(l)|)
      case None => [Plain(s[i])] + Scan(s, i + 1)
  }

  function Render(ps: seq<Piece>): string {
    if ps == [] then []
    else match ps[0]
      case Plain(c) => [c] + Render(ps[1..])
      case Anchor(l) => LinkText(l) + Render(ps[1..])
  }

  /** The matches, in order: what `[...text.matchAll(...)]` holds. */
  function LinksOf(ps: seq<Piece>): (ls: seq<Link>)
    ensures |ls| <= |ps|
  {
    if ps == [] then []
    else match ps[0]
      case Plain(_) => LinksOf(ps[1..])
      case Anchor(l) => [l] + LinksOf(ps[1..])
  }

  function Matches(text: string): seq<Link> { LinksOf(Scan(text, 0)) }

  /** Scanning loses nothing: the pieces spell out the scanned text again. */
  lemma {:induction false} ScanRoundTrip(s: string, i: nat, ps: seq<Piece>)
    requires ValidScan(s, i, ps)
    ensures Render(ps) == s[i..]
    decreases |ps|
  {
    if ps != [] {
      match ps[0]
      case Plain(c) =>
        ScanRoundTrip(s, i + 1, ps[1..]);
        HeadSplit(s, i);
      case Anchor(l) =>
        ScanRoundTrip(s, i + |LinkText(l)|, ps[1..]);
        AnchorHead(s, i, l);
    }
  }

  lemma AnchorHead(s: string, i: nat, l: Link)
    requires LinkAt(s, i, l)
    ensures i + |LinkText(l)| <= |s| && s[i..] == LinkText(l) + s[i + |LinkText(l)|..]
  {
    LinkTextAt(s, i, l);
    SplitAt(s, i, i + |LinkText(l)|);
  }


  /** There is only one valid scan of a text: the one `Scan` computes. */
  lemma {:induction false} ScanUnique(s: string, i: nat, ps: seq<Piece>, qs: seq<Piece>)
    requires ValidScan(s, i, ps) && ValidScan(s, i, qs)
    ensures ps == qs
    decreases |ps|
  {
    if ps != [] && qs != [] {
      match ps[0]
      case Plain(c) =>
        assert qs[0].Plain?;
        ScanUnique(s, i + 1, ps[1..], qs[1..]);
      case Anchor(l) =>
        assert qs[0].Anchor?;
        LinkAtUnique(s, i, l, qs[0].link);
        ScanUnique(s, i + |LinkText(l)|, ps[1..], qs[1..]);
    }
  }

  // ---- rewriting the links whose address does not answer --------------------------

  /** What an unreachable link becomes: its caption, or nothing for an image. */
  function Replacement(l: Link): (t: string)
    ensures IsSubseq(t, LinkText(l)) && |t| < |LinkText(l)|
  {
    var t := if l.bang then "" else l.caption;
    var b := if l.bang then 1 else 0;
    assert LinkText(l)[b + 1..b + 1 + |l.caption|] == l.caption;
    SubseqSlice(LinkText(l), b + 1, b + 1 + |l.caption|);
    t
  }

  /** The rewrite as evidently intended: each unreachable link is replaced where
      it stands, by its caption taken literally; `ok` holds one answer per match. */
  function Filtered(ps: seq<Piece>, ok: seq<bool>): (r: string)
    requires |ok| == |LinksOf(ps)|
  {
    if ps == [] then []
    else match ps[0]
      case Plain(c) => [c] + Filtered(ps[1..], ok)
      case Anchor(l) => (if ok[0] then LinkText(l) else Replacement(l)) + Filtered(ps[1..], ok[1..])
  }

  function FilterIntended(text: string, ok: seq<bool>): (r: string)
    requires |ok| == |Matches(text)|
    ensures |r| <= |text|
  {
    ScanRoundTrip(text, 0, Scan(text, 0));
    assert text[0..] == text;
    FilteredDeletes(Scan(text, 0), ok);
    SubseqLength(Filtered(Scan(text, 0), ok), text);
    Filtered(Scan(text, 0), ok)
  }

  /** Rewriting only deletes characters, and it deletes some exactly when some
      address did not answer. */
  lemma {:induction false} FilteredDeletes(ps: seq<Piece>, ok: seq<bool>)
    requires |ok| == |LinksOf(ps)|
    ensures IsSubseq(Filtered(ps, ok), Render(ps))
    ensures Filtered(ps, ok) == Render(ps) <==> forall k :: 0 <= k < |ok| ==> ok[k]
    decreases |ps|
  {
    if ps != [] {
      match ps[0]
      case Plain(c) =>
        FilteredDeletes(ps[1..], ok);
        SubseqCons(c, Filtered(ps[1..], ok), Render(ps[1..]));
        if Filtered(ps, ok) == Render(ps) {
          assert Filtered(ps[1..], ok) == Render(ps[1..]) by {
            assert Filtered(ps, ok)[1..] == Filtered(ps[1..], ok) && Render(ps)[1..] == Render(ps[1..]);
          }
        }
      case Anchor(l) =>
        var head := if ok[0] then LinkText(l) else Replacement(l);
        FilteredDeletes(ps[1..], ok[1..]);
        if ok[0] { SubseqRefl(head); }
        SubseqConcat(head, LinkText(l), Filtered(ps[1..], ok[1..]), Render(ps[1..]));
        SubseqLength(Filtered(ps[1..], ok[1..]), Render(ps[1..]));
        if Filtered(ps, ok) == Render(ps) {
          assert ok[0];
          assert Filtered(ps[1..], ok[1..]) == Render(ps[1..]) by {
            assert Filtered(ps, ok)[|head|..] == Filtered(ps[1..], ok[1..]);
            assert Render(ps)[|head|..] == Render(ps[1..]);
          }
        }
        assert forall k :: 1 <= k < |ok| ==> ok[k] == ok[1..][k - 1];
    }
  }

  /** When every address answers, the reply is left as it is. */
  lemma ReachableUnchanged(text: string, ok: seq<bool>)
    requires |ok| == |Matches(text)|
    requires forall k :: 0 <= k < |ok| ==> ok[k]
    ensures FilterIntended(text, ok) == text
  {
    FilteredDeletes(Scan(text, 0), ok);
    ScanRoundTrip(text, 0, Scan(text, 0));
  }

  /** The rewritten reply is the original with characters deleted, and strictly
      shorter as soon as one address fails. */
  lemma FilterIntendedShrinks(text: string, ok: seq<bool>)
    requires |ok| == |Matches(text)|
    ensures IsSubseq(FilterIntended(text, ok), text)
    ensures (exists k :: 0 <= k < |ok| && !ok[k]) ==> |FilterIntended(text, ok)| < |text|
  {
    FilteredDeletes(Scan(text, 0), ok);
    ScanRoundTrip(text, 0, Scan(text, 0));
    SubseqShorter(FilterIntended(text, ok), text);
  }

  // ---- the rewrite as written: `cleanedText.replace(match[0], ...)` -------------------

  predicate OccursAt(t: string, pat: string, j: nat) {
    j + |pat| <= |t| && t[j..j + |pat|] == pat
  }

  /** `String.prototype.indexOf`: the first occurrence of `pat` at or after `from`. */
  function IndexOf(t: string, pat: string, from: nat): (r: Option<nat>)
    ensures r.Some? ==> from <= r.value && OccursAt(t, pat, r.value)
    ensures r.Some? ==> forall j :: from <= j < r.value ==> !OccursAt(t, pat, j)
    ensures r.None? ==> forall j :: from <= j ==> !OccursAt(t, pat, j)
    decreases |t| - from
  {
    if from + |pat| > |t| then None
    else if OccursAt(t, pat, from) then Some(from)
    else IndexOf(t, pat, from + 1)
  }

  /** GetSubstitution for a string pattern, which has no capture groups: `$$`,
      `$&`, `` $` `` and `$'` are expanded, and any other `$` stands for itself. */
  function Substitute(rep: string, matched: string, str: string, pos: nat): (r: string)
    requires pos + |matched| <= |str|
    ensures (forall k :: 0 <= k < |rep| ==> rep[k] != '$') ==> r == rep
    decreases |rep|
  {
    if rep == [] then []
    else if rep[0] == '$' && |rep| >= 2 && rep[1] == '$' then "$" + Substitute(rep[2..], matched, str, pos)
    else if rep[0] == '$' && |rep| >= 2 && rep[1] == '&' then matched + Substitute(rep[2..], matched, str, pos)
    else if rep[0] == '$' && |rep| >= 2 && rep[1] == '`' then str[..pos] + Substitute(rep[2..], matched, str, pos)
    else if rep[0] == '$' && |rep| >= 2 && rep[1] == '\'' then str[pos + |matched|..] + Substitute(rep[2..], matched, str, pos)
    else [rep[0]] + Substitute(rep[1..], matched, str, pos)
  }

  /** `t.replace(pat, rep)` with a string pattern: only the first occurrence is replaced. */
  function ReplaceFirst(t: string, pat: string, rep: string): (r: string)
    ensures IndexOf(t, pat, 0).None? ==> r == t
  {
    match IndexOf(t, pat, 0)
    case None => t
    case Some(i) => t[..i] + Substitute(rep, pat, t, i) + t[i + |pat|..]
  }

  /** Where the first occurrence is known, the replacement lands exactly there. */
  lemma ReplaceFirstAt(t: string, pat: string, rep: string, i: nat)
    requires OccursAt(t, pat, i)
    requires forall j :: 0 <= j < i ==> !OccursAt(t, pat, j)
    ensures ReplaceFirst(t, pat, rep) == t[..i] + Substitute(rep, pat, t, i) + t[i + |pat|..]
  {
    IndexOfFirst(t, pat, 0, i);
  }

  /** `indexOf` from `from` finds an occurrence that nothing before it, from `from` on, precedes. */
  lemma {:induction false} IndexOfFirst(t: string, pat: string, from: nat, i: nat)
    requires from <= i && OccursAt(t, pat, i)
    requires forall j :: from <= j < i ==> !OccursAt(t, pat, j)
    ensures IndexOf(t, pat, from) == Some(i)
    decreases i - from
  {
    if from < i {
      IndexOfFirst(t, pat, from + 1, i);
    }
  }

  /** The `forEach` over the matches: each unreachable link's text is replaced at
      its first occurrence in the text as rewritten so far. */
  function RewriteFrom(t: string, ls: seq<Link>, ok: seq<bool>): (r: string)
    requires |ok| == |ls|
    ensures (forall k :: 0 <= k < |ok| ==> ok[k]) ==> r == t
    decreases |ls|
  {
    if ls == [] then t
    else RewriteFrom(if ok[0] then t else ReplaceFirst(t, LinkText(ls[0]), Replacement(ls[0])), ls[1..], ok[1..])
  }

  /** `filterValidMarkdown` as written, on the reply's own matches. */
  function FilterAsWritten(text: string, ok: seq<bool>): (r: string)
    requires |ok| == |Matches(text)|
    ensures (forall k :: 0 <= k < |ok| ==> ok[k]) ==> r == text
  {
    RewriteFrom(text, Matches(text), ok)
  }

  /** `filterValidMarkdown` with the answers of `isValidUrl` for the matches' addresses in `ok`. */
  method FilterValidMarkdown(text: string, ok: seq<bool>) returns (cleaned: string)
    requires |ok| == |Matches(text)|
    ensures cleaned == FilterAsWritten(text, ok)
  {
    var matches := Matches(text);
    cleaned := text;
    var i := 0;
    while i < |matches|
      invariant 0 <= i <= |matches|
      invariant RewriteFrom(cleaned, matches[i..], ok[i..]) == FilterAsWritten(text, ok)
    {
      assert matches[i..][1..] == matches[i + 1..] && ok[i..][1..] == ok[i + 1..];
      if !ok[i] {
        cleaned := ReplaceFirst(cleaned, LinkText(matches[i]), Replacement(matches[i]));
      }
      i := i + 1;
    }
  }

  // ---- where the rewrite as written does what is intended --------------------------

  /** A caption without `$`: `replace` then inserts it literally. */
  predicate Literal(l: Link) {
    forall k :: 0 <= k < |l.caption| ==> l.caption[k] != '$'
  }

  /** Replacing a literal link's text by its replacement only deletes characters,
      and deletes some whenever the text occurs. */
  lemma ReplaceFirstDeletes(t: string, l: Link)
    requires Literal(l)
    ensures IsSubseq(ReplaceFirst(t, LinkText(l), Replacement(l)), t)
    ensures (exists j :: OccursAt(t, LinkText(l), j)) ==> |ReplaceFirst(t, LinkText(l), Replacement(l))| < |t|
  {
    var pat, rep := LinkText(l), Replacement(l);
    assert IsSubseq(rep, pat) && |rep| < |pat|;
    match IndexOf(t, pat, 0)
    case None =>
      SubseqRefl(t);
    case Some(i) =>
      assert forall k :: 0 <= k < |rep| ==> rep[k] != '$';
      assert Substitute(rep, pat, t, i) == rep;
      SubseqReplace(t, i, pat, rep);
  }

  /** With literal captions, the rewrite as written only deletes characters. */
  lemma {:induction false} RewriteDeletes(t: string, ls: seq<Link>, ok: seq<bool>)
    requires |ok| == |ls|
    requires forall k :: 0 <= k < |ls| ==> Literal(ls[k])
    ensures IsSubseq(RewriteFrom(t, ls, ok), t)
    decreases |ls|
  {
    if ls == [] {
      SubseqRefl(t);
    } else {
      var u := if ok[0] then t else ReplaceFirst(t, LinkText(ls[0]), Replacement(ls[0]));
      if ok[0] { SubseqRefl(t); } else { ReplaceFirstDeletes(t, ls[0]); }
      RewriteDeletes(u, ls[1..], ok[1..]);
      SubseqTrans(RewriteFrom(u, ls[1..], ok[1..]), u, t);
    }
  }

  /** The first unreachable link whose text occurs in the text makes the rewrite
      as written strictly shorter. */
  lemma {:induction false} RewriteShorter(t: string, ls: seq<Link>, ok: seq<bool>, k: nat)
    requires |ok| == |ls| && k < |ls| && !ok[k]
    requires forall j :: 0 <= j < k ==> ok[j]
    requires forall j :: 0 <= j < |ls| ==> Literal(ls[j])
    requires exists j :: OccursAt(t, LinkText(ls[k]), j)
    ensures |RewriteFrom(t, ls, ok)| < |t|
    decreases k
  {
    if k == 0 {
      var u := ReplaceFirst(t, LinkText(ls[0]), Replacement(ls[0]));
      ReplaceFirstDeletes(t, ls[0]);
      RewriteDeletes(u, ls[1..], ok[1..]);
      SubseqLength(RewriteFrom(u, ls[1..], ok[1..]), u);
    } else {
      assert ls[1..][k - 1] == ls[k];
      RewriteShorter(t, ls[1..], ok[1..], k - 1);
    }
  }

  /** Every match's text occurs in the scanned text. */
  lemma {:induction false} MatchOccurs(s: string, i: nat, ps: seq<Piece>, k: nat)
    requires ValidScan(s, i, ps) && k < |LinksOf(ps)|
    ensures exists j :: OccursAt(s, LinkText(LinksOf(ps)[k]), j)
    decreases |ps|
  {
    match ps[0]
    case Plain(_) =>
      assert LinksOf(ps) == LinksOf(ps[1..]);
      MatchOccurs(s, i + 1, ps[1..], k);
    case Anchor(l) =>
      if k == 0 {
        LinkTextAt(s, i, l);
        assert LinksOf(ps)[0] == l;
        assert OccursAt(s, LinkText(l), i);
      } else {
        assert LinksOf(ps)[k] == LinksOf(ps[1..])[k - 1];
        MatchOccurs(s, i + |LinkText(l)|, ps[1..], k - 1);
      }
  }

  /** With literal captions, `filterValidMarkdown` as written only deletes
      characters, and deletes some as soon as one address fails. */
  lemma FilterAsWrittenShrinks(text: string, ok: seq<bool>)
    requires |ok| == |Matches(text)|
    requires forall k :: 0 <= k < |ok| ==> Literal(Matches(text)[k])
    ensures IsSubseq(FilterAsWritten(text, ok), text)
    ensures (exists k :: 0 <= k < |ok| && !ok[k]) ==> |FilterAsWritten(text, ok)| < |text|
  {
    RewriteDeletes(text, Matches(text), ok);
    if exists k :: 0 <= k < |ok| && !ok[k] {
      var k := FirstFailure(ok);
      MatchOccurs(text, 0, Scan(text, 0), k);
      RewriteShorter(text, Matches(text), ok, k);
    }
  }

  /** The index of the first address that did not answer. */
  function FirstFailure(ok: seq<bool>): (k: nat)
    requires exists k :: 0 <= k < |ok| && !ok[k]
    ensures k < |ok| && !ok[k] && forall j :: 0 <= j < k ==> ok[j]
  {
    if !ok[0] then 0
    else
      var k := FirstFailure(ok[1..]);
      assert forall j :: 1 <= j < k + 1 ==> ok[j] == ok[1..][j - 1];
      k + 1
  }

  lemma {:induction false} LinksAppend(a: seq<Piece>, b: seq<Piece>)
    ensures LinksOf(a + b) == LinksOf(a) + LinksOf(b)
    ensures Render(a + b) == Render(a) + Render(b)
    decreases |a|
  {
    if a == [] {
      assert a + b == b;
    } else {
      assert (a + b)[0] == a[0] && (a + b)[1..] == a[1..] + b;
      LinksAppend(a[1..], b);
    }
  }

  lemma {:induction false} FilteredAppend(a: seq<Piece>, b: seq<Piece>, oa: seq<bool>, ob: seq<bool>)
    requires |oa| == |LinksOf(a)| && |ob| == |LinksOf(b)|
    ensures |oa + ob| == |LinksOf(a + b)|
    ensures Filtered(a + b, oa + ob) == Filtered(a, oa) + Filtered(b, ob)
    decreases |a|
  {
    LinksAppend(a, b);
    if a == [] {
      assert a + b == b && oa + ob == ob;
    } else {
      LinksAppend(a[1..], b);
      if a[0].Plain? {
        FilteredAppend(a[1..], b, oa, ob);
        PlainStep(a, b, oa, ob);
      } else {
        FilteredAppend(a[1..], b, oa[1..], ob);
        AnchorStep(a, b, oa, ob);
      }
    }
  }

  /** The step of FilteredAppend past a plain character. */
  lemma PlainStep(a: seq<Piece>, b: seq<Piece>, oa: seq<bool>, ob: seq<bool>)
    requires a != [] && a[0].Plain?
    requires |oa| == |LinksOf(a)| && |ob| == |LinksOf(b)| && |oa + ob| == |LinksOf(a + b)|
    requires |oa| == |LinksOf(a[1..])| && |oa + ob| == |LinksOf(a[1..] + b)|
    requires Filtered(a[1..] + b, oa + ob) == Filtered(a[1..], oa) + Filtered(b, ob)
    ensures Filtered(a + b, oa + ob) == Filtered(a, oa) + Filtered(b, ob)
  {
    ConsAppend(a, b);
    FilteredCharHead(a + b, oa + ob);
    FilteredCharHead(a, oa);
  }

  /** Filtering a scan that starts with a plain character: the character, then the rest. */
  lemma FilteredCharHead(ps: seq<Piece>, ok: seq<bool>)
    requires ps != [] && ps[0].Plain? && |ok| == |LinksOf(ps)|
    ensures |ok| == |LinksOf(ps[1..])|
    ensures Filtered(ps, ok) == [ps[0].c] + Filtered(ps[1..], ok)
  {
  }

  /** The step of FilteredAppend past a link. */
  lemma AnchorStep(a: seq<Piece>, b: seq<Piece>, oa: seq<bool>, ob: seq<bool>)
    requires a != [] && a[0].Anchor?
    requires |oa| == |LinksOf(a)| && |ob| == |LinksOf(b)| && |oa + ob| == |LinksOf(a + b)|
    requires |oa| >= 1 && |oa[1..]| == |LinksOf(a[1..])| && |oa[1..] + ob| == |LinksOf(a[1..] + b)|
    requires Filtered(a[1..] + b, oa[1..] + ob) == Filtered(a[1..], oa[1..]) + Filtered(b, ob)
    ensures Filtered(a + b, oa + ob) == Filtered(a, oa) + Filtered(b, ob)
  {
    ConsAppend(a, b);
    ConsAppend(oa, ob);
    FilteredLinkHead(a + b, oa + ob);
    FilteredLinkHead(a, oa);
    Assoc(if oa[0] then LinkText(a[0].link) else Replacement(a[0].link), Filtered(a[1..], oa[1..]), Filtered(b, ob));
  }

  /** Filtering a scan that starts with a link: the link's outcome, then the rest. */
  lemma FilteredLinkHead(ps: seq<Piece>, ok: seq<bool>)
    requires ps != [] && ps[0].Anchor? && |ok| == |LinksOf(ps)|
    ensures |ok| >= 1 && |ok[1..]| == |LinksOf(ps[1..])|
    ensures Filtered(ps, ok) == (if ok[0] then LinkText(ps[0].link) else Replacement(ps[0].link)) + Filtered(ps[1..], ok[1..])
  {
  }

  lemma {:induction false} RewriteAppend(t: string, a: seq<Link>, b: seq<Link>, oa: seq<bool>, ob: seq<bool>)
    requires |oa| == |a| && |ob| == |b|
    ensures RewriteFrom(t, a + b, oa + ob) == RewriteFrom(RewriteFrom(t, a, oa), b, ob)
    decreases |a|
  {
    if a == [] {
      assert a + b == b && oa + ob == ob;
    } else {
      assert (a + b)[0] == a[0] && (a + b)[1..] == a[1..] + b;
      assert (oa + ob)[0] == oa[0] && (oa + ob)[1..] == oa[1..] + ob;
      var u := if oa[0] then t else ReplaceFirst(t, LinkText(a[0]), Replacement(a[0]));
      RewriteAppend(u, a[1..], b, oa[1..], ob);
    }
  }

  /** The intended rewrite of a scan with one unreachable link. */
  lemma IntendedOne(pre: seq<Piece>, l: Link, post: seq<Piece>, okPre: seq<bool>, okPost: seq<bool>)
    requires |okPre| == |LinksOf(pre)| && |okPost| == |LinksOf(post)|
    requires forall k :: 0 <= k < |okPre| ==> okPre[k]
    requires forall k :: 0 <= k < |okPost| ==> okPost[k]
    ensures |okPre + [false] + okPost| == |LinksOf(pre + [Anchor(l)] + post)|
    ensures Filtered(pre + [Anchor(l)] + post, okPre + [false] + okPost) == Render(pre) + Replacement(l) + Render(post)
  {
    var mid: seq<Piece> := [Anchor(l)];
    FilteredAppend(pre, mid, okPre, [false]);
    FilteredAppend(pre + mid, post, okPre + [false], okPost);
    FilteredDeletes(pre, okPre);
    FilteredDeletes(post, okPost);
    assert Filtered(mid, [false]) == Replacement(l) + Filtered([], []);
  }

  /** The matches and the text of a scan with one link singled out. */
  lemma PiecesOne(ps: seq<Piece>, pre: seq<Piece>, l: Link, post: seq<Piece>)
    requires ps == pre + [Anchor(l)] + post
    ensures LinksOf(ps) == LinksOf(pre) + [l] + LinksOf(post)
    ensures Render(ps) == Render(pre) + LinkText(l) + Render(post)
  {
    var mid: seq<Piece> := [Anchor(l)];
    LinksAppend(pre, mid);
    LinksAppend(pre + mid, post);
    OnePiece(mid, l);
  }

  lemma OnePiece(mid: seq<Piece>, l: Link)
    requires mid == [Anchor(l)]
    ensures LinksOf(mid) == [l] && Render(mid) == LinkText(l)
  {
    assert mid[1..] == [];
  }

  lemma TextOne(text: string, pre: seq<Piece>, l: Link, post: seq<Piece>)
    requires Scan(text, 0) == pre + [Anchor(l)] + post
    ensures Matches(text) == LinksOf(pre) + [l] + LinksOf(post)
    ensures text == Render(pre) + LinkText(l) + Render(post)
  {
    PiecesOne(Scan(text, 0), pre, l, post);
    ScanRoundTrip(text, 0, Scan(text, 0));
    assert text[0..] == text;
  }

  /** The rewrite as written on the same reply, when the link is literal and its
      text does not occur before it. */
  lemma WrittenOne(text: string, ls: seq<Link>, pre: string, l: Link, post: string, lsPre: seq<Link>, lsPost: seq<Link>,
                   okPre: seq<bool>, okPost: seq<bool>)
    requires text == pre + LinkText(l) + post && ls == lsPre + [l] + lsPost
    requires |okPre| == |lsPre| && |okPost| == |lsPost|
    requires forall k :: 0 <= k < |okPre| ==> okPre[k]
    requires forall k :: 0 <= k < |okPost| ==> okPost[k]
    requires Literal(l)
    requires forall j :: 0 <= j < |pre| ==> !OccursAt(text, LinkText(l), j)
    ensures RewriteFrom(text, ls, okPre + [false] + okPost) == pre + Replacement(l) + post
  {
    var p := |pre|;
    var q := p + |LinkText(l)|;
    assert text[..p] == pre && text[p..q] == LinkText(l) && text[q..] == post;
    RewriteAppend(text, lsPre, [l], okPre, [false]);
    RewriteAppend(text, lsPre + [l], lsPost, okPre + [false], okPost);
    assert RewriteFrom(text, lsPre, okPre) == text;
    ReplaceFirstAt(text, LinkText(l), Replacement(l), p);
    assert forall k :: 0 <= k < |Replacement(l)| ==> Replacement(l)[k] != '$';
    assert Substitute(Replacement(l), LinkText(l), text, p) == Replacement(l);
    var u := pre + Replacement(l) + post;
    assert RewriteFrom(text, [l], [false]) == RewriteFrom(u, [], []);
    assert RewriteFrom(u, lsPost, okPost) == u;
  }

  /** A reply whose one unreachable link is literal and is the first occurrence of
      its own text: the rewrite as written replaces that link where it stands, by
      its caption, and keeps every other link as it is, exactly as intended. */
  lemma OneFailure(text: string, pre: seq<Piece>, l: Link, post: seq<Piece>, okPre: seq<bool>, okPost: seq<bool>)
    requires Scan(text, 0) == pre + [Anchor(l)] + post
    requires |okPre| == |LinksOf(pre)| && |okPost| == |LinksOf(post)|
    requires forall k :: 0 <= k < |okPre| ==> okPre[k]
    requires forall k :: 0 <= k < |okPost| ==> okPost[k]
    requires Literal(l)
    requires forall j :: 0 <= j < |Render(pre)| ==> !OccursAt(text, LinkText(l), j)
    ensures |okPre + [false] + okPost| == |Matches(text)|
    ensures FilterIntended(text, okPre + [false] + okPost) == Render(pre) + Replacement(l) + Render(post)
    ensures FilterAsWritten(text, okPre + [false] + okPost) == FilterIntended(text, okPre + [false] + okPost)
  {
    TextOne(text, pre, l, post);
    IntendedOne(pre, l, post, okPre, okPost);
    WrittenOne(text, Matches(text), Render(pre), l, Render(post), LinksOf(pre), LinksOf(post), okPre, okPost);
  }

  // ---- sanitizeMarkdownContent ---------------------------------------------------------

  /** The characters the sanitising expression's class matches. */
  predicate Stripped(c: char) { c == ']' || c == '(' || c == ')' || c == '\n' }

  /** `sanitizeMarkdownContent`: every `]`, `(`, `)` and line feed goes, the rest stays in order. */
  function Sanitize(content: string): (r: string)
    ensures forall k :: 0 <= k < |r| ==> !Stripped(r[k])
    ensures IsSubseq(r, content)
    ensures forall c :: !Stripped(c) ==> multiset(r)[c] == multiset(content)[c]
    decreases |content|
  {
    if content == [] then []
    else
      var rest := Sanitize(content[1..]);
      assert content == [content[0]] + content[1..];
      assert multiset(content) == multiset([content[0]]) + multiset(content[1..]);
      if Stripped(content[0]) then rest
      else
        SubseqCons(content[0], rest, content[1..]);
        [content[0]] + rest
  }

  /** Text with nothing to strip is left alone; in particular sanitising twice is sanitising once. */
  lemma {:induction false} SanitizeClean(s: string)
    requires forall k :: 0 <= k < |s| ==> !Stripped(s[k])
    ensures Sanitize(s) == s
    decreases |s|
  {
    if s != [] {
      SanitizeClean(s[1..]);
      assert s == [s[0]] + s[1..];
    }
  }

  lemma SanitizeIdempotent(s: string)
    ensures Sanitize(Sanitize(s)) == Sanitize(s)
  {
    SanitizeClean(Sanitize(s));
  }
}
