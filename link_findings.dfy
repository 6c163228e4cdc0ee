/** Two replies on which `filterValidMarkdown` as written and the positional
    rewrite it evidently intends part ways. Each lemma takes its reply as a
    parameter fixed by its precondition. */
module LinkFindings {
  import opened TextUtil
  import opened Links

  const Simple: Link := Link(false, "a", "u")

  /** The same link twice: the first reachable, the second not. */
  const Twice: string := "[a](u) [a](u)"

  lemma SimpleText(l: Link)
    requires l == Simple
    ensures LinkText(l) == "[a](u)" && Replacement(l) == "a"
  {
  }

  /** Where the two links sit, and that the space between them starts none. */
  lemma TwiceLinks(text: string, l: Link)
    requires text == Twice && l == Simple
    ensures LinkAt(text, 0, l) && LinkAt(text, 7, l)
    ensures forall m :: !LinkAt(text, 6, m)
  {
    SimpleText(l);
    assert text[..6] == LinkText(l) && text[7..] == LinkText(l);
    LinkOfText(text, 0, l);
    LinkOfText(text, 7, l);
    assert text[6] == ' ';
  }

  /** A simple link written out at `p` is matched there. */
  lemma LinkOfText(text: string, p: nat, l: Link)
    requires l == Simple && p + 6 <= |text| && text[p..p + 6] == "[a](u)"
    ensures LinkAt(text, p, l)
  {
    assert text[p] == '[' && text[p + 1] == 'a' && text[p + 2] == ']' && text[p + 3] == '(';
    assert text[p + 4] == 'u' && text[p + 5] == ')';
  }

  lemma TwiceScan(text: string, l: Link)
    requires text == Twice && l == Simple
    ensures Scan(text, 0) == [Anchor(l), Piece.Plain(' '), Anchor(l)]
  {
    var ps := [Anchor(l), Piece.Plain(' '), Anchor(l)];
    TwiceLinks(text, l);
    assert |LinkText(l)| == 6;
    assert ValidScan(text, 7, ps[2..]) by { assert ps[2..][1..] == []; }
    assert ValidScan(text, 6, ps[1..]) by { assert ps[1..][1..] == ps[2..]; }
    assert ValidScan(text, 0, ps);
    ScanUnique(text, 0, Scan(text, 0), ps);
  }

  lemma TwiceMatches(text: string)
    requires text == Twice
    ensures Matches(text) == [Simple, Simple]
  {
    var l := Simple;
    TwiceScan(text, l);
    var ps := Scan(text, 0);
    assert LinksOf(ps[2..]) == [l];
    assert LinksOf(ps[1..]) == [l];
  }

  /** `replace` with the link's text finds it at the very start of the reply. */
  lemma TwiceReplace(text: string, l: Link)
    requires text == Twice && l == Simple
    ensures ReplaceFirst(text, LinkText(l), Replacement(l)) == "a" + text[6..]
  {
    var pat, rep := LinkText(l), Replacement(l);
    SimpleText(l);
    assert pat == text[..6];
    ReplaceFirstAt(text, pat, rep, 0);
    assert Substitute(rep, pat, text, 0) == rep;
  }

  /** Only the second link is rewritten, and nothing after it. */
  lemma TwiceRewrite(text: string, ok: seq<bool>, ls: seq<Link>)
    requires text == Twice && ok == [true, false] && ls == [Simple, Simple]
    ensures RewriteFrom(text, ls, ok) == ReplaceFirst(text, LinkText(ls[1]), Replacement(ls[1]))
  {
    assert RewriteFrom(text, ls, ok) == RewriteFrom(text, ls[1..], ok[1..]);
    assert RewriteFrom(text, ls[1..], ok[1..]) == RewriteFrom(ReplaceFirst(text, LinkText(ls[1]), Replacement(ls[1])), [], []);
  }

  /** As written, the text of the second (unreachable) link is first found at
      the start of the reply, so the reachable link is the one rewritten. */
  lemma TwiceAsWritten(text: string, ok: seq<bool>)
    requires text == Twice && ok == [true, false]
    ensures |ok| == |Matches(text)|
    ensures FilterAsWritten(text, ok) == "a [a](u)"
  {
    TwiceMatches(text);
    var ls := Matches(text);
    TwiceRewrite(text, ok, ls);
    TwiceReplace(text, ls[1]);
    TwiceTail(text);
  }

  lemma TwiceTail(text: string)
    requires text == Twice
    ensures "a" + text[6..] == "a [a](u)"
  {
  }

  /** Rewriting in place turns only the unreachable link into its caption. */
  lemma TwiceIntended(text: string, ok: seq<bool>)
    requires text == Twice && ok == [true, false]
    ensures |ok| == |Matches(text)|
    ensures FilterIntended(text, ok) == "[a](u) a"
  {
    var l := Simple;
    TwiceScan(text, l);
    TwiceFiltered(Scan(text, 0), ok, l);
  }

  lemma TwiceFiltered(ps: seq<Piece>, ok: seq<bool>, l: Link)
    requires ps == [Anchor(l), Piece.Plain(' '), Anchor(l)] && l == Simple && ok == [true, false]
    ensures |ok| == |LinksOf(ps)|
    ensures Filtered(ps, ok) == "[a](u) a"
  {
    assert LinksOf(ps[2..]) == [l];
    assert LinksOf(ps[1..]) == [l];
    assert Filtered(ps[2..], ok[1..]) == "a" + Filtered(ps[3..], []);
    assert Filtered(ps[1..], ok[1..]) == " a";
    assert LinkText(l) == "[a](u)";
  }

  const Dollar: Link := Link(false, "$&", "u")

  /** A link whose caption is itself a replacement pattern. */
  const Pattern: string := "[$&](u)"

  lemma PatternScan(text: string, l: Link)
    requires text == Pattern && l == Dollar
    ensures Scan(text, 0) == [Anchor(l)]
  {
    assert LinkText(l) == text;
    assert LinkAt(text, 0, l);
    assert ValidScan(text, 0, [Anchor(l)]);
    ScanUnique(text, 0, Scan(text, 0), [Anchor(l)]);
  }

  /** Replacing the whole reply by `$&` yields the reply again. */
  lemma PatternReplace(text: string)
    requires text == Pattern
    ensures ReplaceFirst(text, text, "$&") == text
  {
    ReplaceFirstAt(text, text, "$&", 0);
    assert Substitute("$&", text, text, 0) == text + Substitute([], text, text, 0);
  }

  /** As written, `$&` in the caption expands to the whole match, so the
      unreachable link survives unchanged. */
  lemma PatternAsWritten(text: string, ok: seq<bool>)
    requires text == Pattern && ok == [false]
    ensures |ok| == |Matches(text)|
    ensures FilterAsWritten(text, ok) == text
  {
    var l := Dollar;
    PatternScan(text, l);
    assert Matches(text) == [l];
    assert LinkText(l) == text && Replacement(l) == "$&";
    PatternReplace(text);
    assert RewriteFrom(text, [l], ok) == RewriteFrom(text, [], []);
  }

  /** Taken literally, the caption replaces the link. */
  lemma PatternIntended(text: string, ok: seq<bool>)
    requires text == Pattern && ok == [false]
    ensures |ok| == |Matches(text)|
    ensures FilterIntended(text, ok) == "$&"
  {
    var l := Dollar;
    PatternScan(text, l);
    var ps := Scan(text, 0);
    assert Filtered(ps, ok) == Replacement(l) + Filtered(ps[1..], []);
  }
}
