/** Character classes, trimming, joining and the subsequence relation shared by
    the rest of the model. Strings are sequences of Unicode scalar values. */
module TextUtil {

  datatype Option<+T> = None | Some(value: T)

  /** JavaScript's line terminators: what `.` refuses and where a multiline `^`/`$` sits. */
  predicate IsLineTerminator(c: char) {
    c == '\n' || c == '\r' || c == '\U{2028}' || c == '\U{2029}'
  }

  /** JavaScript's WhiteSpace and LineTerminator set: what `\s` matches and `trim` removes. */
  predicate IsSpace(c: char) {
    || c == ' ' || c == '\t' || c == '\U{B}' || c == '\U{C}'
    || c == '\U{A0}' || c == '\U{FEFF}' || c == '\U{1680}'
    || ('\U{2000}' <= c <= '\U{200A}')
    || c == '\U{202F}' || c == '\U{205F}' || c == '\U{3000}'
    || IsLineTerminator(c)
  }

  predicate IsDigit(c: char) { '0' <= c <= '9' }
  predicate IsUpper(c: char) { 'A' <= c <= 'Z' }
  /** `\w`: ASCII letters, digits and underscore. */
  predicate IsWordChar(c: char) { IsDigit(c) || IsUpper(c) || ('a' <= c <= 'z') || c == '_' }

  /** First index at or after `p` that is not white space (or the end). */
  function SkipSpace(s: string, p: nat): (q: nat)
    requires p <= |s|
    ensures p <= q <= |s|
    ensures forall k :: p <= k < q ==> IsSpace(s[k])
    ensures q < |s| ==> !IsSpace(s[q])
    decreases |s| - p
  {
    if p == |s| || !IsSpace(s[p]) then p else SkipSpace(s, p + 1)
  }

  /** Last index before `q` that is not white space, plus one (or 0). */
  function SkipSpaceBack(s: string, q: nat): (p: nat)
    requires q <= |s|
    ensures p <= q
    ensures forall k :: p <= k < q ==> IsSpace(s[k])
    ensures p > 0 ==> !IsSpace(s[p - 1])
  {
    if q == 0 || !IsSpace(s[q - 1]) then q else SkipSpaceBack(s, q - 1)
  }

  predicate NoOuterSpace(s: string) {
    s == [] || (!IsSpace(s[0]) && !IsSpace(s[|s| - 1]))
  }

  /** String.prototype.trim: drops white space at both ends and nothing else. */
  function Trim(s: string): (r: string)
    ensures NoOuterSpace(r)
    ensures exists i, j :: 0 <= i <= j <= |s| && r == s[i..j]
                           && (forall k :: 0 <= k < i ==> IsSpace(s[k]))
                           && (forall k :: j <= k < |s| ==> IsSpace(s[k]))
    ensures (forall k :: 0 <= k < |s| ==> IsSpace(s[k])) <==> r == []
  {
    var i := SkipSpace(s, 0);
    var j := if i == |s| then i else SkipSpaceBack(s, |s|);
    s[i..j]
  }

  lemma TrimKeepsTrimmed(s: string)
    requires NoOuterSpace(s)
    ensures Trim(s) == s
  {
    if s != [] {
      assert SkipSpace(s, 0) == 0;
      assert SkipSpaceBack(s, |s|) == |s|;
    }
  }

  lemma SplitAt<T>(s: seq<T>, i: nat, e: nat)
    requires i <= e <= |s|
    ensures s[i..] == s[i..e] + s[e..]
  {
  }

  lemma HeadSplit<T>(s: seq<T>, i: nat)
    requires i < |s|
    ensures s[i..] == [s[i]] + s[i + 1..]
  {
  }

  lemma SliceSplit<T>(s: seq<T>, i: nat, j: nat, k: nat)
    requires i <= j <= k <= |s|
    ensures s[i..k] == s[i..j] + s[j..k]
  {
  }

  predicate StartsWith(s: string, prefix: string) {
    |prefix| <= |s| && s[..|prefix|] == prefix
  }

  predicate EndsWith(s: string, suffix: string) {
    |suffix| <= |s| && s[|s| - |suffix|..] == suffix
  }

  /** Appending two parts to a text keeps the text as a prefix and ends with the parts. */
  lemma PrefixSuffix(x: string, y: string, z: string)
    ensures |x| <= |x + y + z| && (x + y + z)[..|x|] == x
    ensures EndsWith(x + y + z, y + z)
  {
    assert (x + y + z)[|x + y + z| - |y + z|..] == y + z;
  }

  /** Array.prototype.join with a separator. */
  function Join(parts: seq<string>, sep: string): (r: string)
    ensures parts == [] ==> r == []
    ensures |parts| == 1 ==> r == parts[0]
  {
    if parts == [] then []
    else if |parts| == 1 then parts[0]
    else parts[0] + sep + Join(parts[1..], sep)
  }

  /** A directive body that begins with `/` is a command and is dropped. */
  predicate IsCommand(body: string) { |body| > 0 && body[0] == '/' }

  /** `.filter(x => !x.startsWith("/"))`: the bodies that are not commands, in order. */
  function NonCommands(bodies: seq<string>): (r: seq<string>)
    ensures IsSubseq(r, bodies)
    ensures forall k :: 0 <= k < |r| ==> !IsCommand(r[k])
    ensures forall k :: 0 <= k < |bodies| && !IsCommand(bodies[k]) ==> bodies[k] in r
    ensures |r| == 0 <==> forall k :: 0 <= k < |bodies| ==> IsCommand(bodies[k])
  {
    if bodies == [] then []
    else if IsCommand(bodies[0]) then NonCommands(bodies[1..])
    else [bodies[0]] + NonCommands(bodies[1..])
  }

  /** Filtering distributes over concatenation: each body is kept or dropped on
      its own, and the kept ones stay in their order. */
  lemma {:induction false} NonCommandsAppend(a: seq<string>, b: seq<string>)
    ensures NonCommands(a + b) == NonCommands(a) + NonCommands(b)
    decreases |a|
  {
    if a == [] {
      assert a + b == b;
    } else {
      assert (a + b)[0] == a[0] && (a + b)[1..] == a[1..] + b;
      NonCommandsAppend(a[1..], b);
    }
  }

  /** A single body is kept exactly when it is not a command. */
  lemma NonCommandsOne(body: string)
    ensures NonCommands([body]) == if IsCommand(body) then [] else [body]
  {
  }

  // ---- subsequences: the result of deleting characters -------------------------

  /** `a` is obtained from `b` by deleting characters, keeping the order of the rest. */
  predicate IsSubseq<T(==)>(a: seq<T>, b: seq<T>)
    decreases |b|
  {
    a == [] || (b != [] && ((a[0] == b[0] && IsSubseq(a[1..], b[1..])) || IsSubseq(a, b[1..])))
  }

  lemma {:induction false} SubseqRefl<T>(a: seq<T>)
    ensures IsSubseq(a, a)
    decreases |a|
  {
    if a != [] { SubseqRefl(a[1..]); }
  }

  lemma {:induction false} SubseqLength<T>(a: seq<T>, b: seq<T>)
    requires IsSubseq(a, b)
    ensures |a| <= |b|
    ensures |a| == |b| ==> a == b
    decreases |b|
  {
    if a != [] {
      if a[0] == b[0] && IsSubseq(a[1..], b[1..]) {
        SubseqLength(a[1..], b[1..]);
        if |a| == |b| { assert a == [a[0]] + a[1..] && b == [b[0]] + b[1..]; }
      } else {
        SubseqLength(a, b[1..]);
      }
    }
  }

  lemma {:induction false} SubseqTrans<T>(a: seq<T>, b: seq<T>, c: seq<T>)
    requires IsSubseq(a, b) && IsSubseq(b, c)
    ensures IsSubseq(a, c)
    decreases |c|
  {
    if a != [] {
      assert b != [] && c != [];
      if IsSubseq(b, c[1..]) {
        SubseqTrans(a, b, c[1..]);
      } else if a[0] == b[0] && IsSubseq(a[1..], b[1..]) {
        SubseqTrans(a[1..], b[1..], c[1..]);
      } else {
        SubseqTrans(a, b[1..], c[1..]);
      }
    }
  }

  lemma {:induction false} SubseqCons<T>(x: T, a: seq<T>, b: seq<T>)
    requires IsSubseq(a, b)
    ensures IsSubseq([x] + a, [x] + b)
  {
    assert ([x] + a)[1..] == a && ([x] + b)[1..] == b;
  }

  lemma {:induction false} SubseqSuffix<T>(b: seq<T>, k: nat)
    requires k <= |b|
    ensures IsSubseq(b[k..], b)
    decreases k
  {
    if k == 0 {
      SubseqRefl(b);
    } else {
      SubseqSuffix(b[1..], k - 1);
      assert b[1..][k - 1..] == b[k..];
      if b[k..] != [] { assert IsSubseq(b[k..], b[1..]); }
    }
  }

  lemma {:induction false} SubseqPrefix<T>(b: seq<T>, k: nat)
    requires k <= |b|
    ensures IsSubseq(b[..k], b)
    decreases |b|
  {
    if k > 0 {
      SubseqPrefix(b[1..], k - 1);
      assert b[..k][1..] == b[1..][..k - 1];
    }
  }

  lemma {:induction false} SubseqConcat<T>(a: seq<T>, b: seq<T>, c: seq<T>, d: seq<T>)
    requires IsSubseq(a, b) && IsSubseq(c, d)
    ensures IsSubseq(a + c, b + d)
    decreases |b|
  {
    if a == [] {
      assert a + c == c;
      SubseqSuffix(b + d, |b|);
      assert (b + d)[|b|..] == d;
      SubseqTrans(c, d, b + d);
    } else {
      assert (b + d)[0] == b[0] && (b + d)[1..] == b[1..] + d;
      assert (a + c)[0] == a[0] && (a + c)[1..] == a[1..] + c;
      if a[0] == b[0] && IsSubseq(a[1..], b[1..]) {
        SubseqConcat(a[1..], b[1..], c, d);
      } else {
        SubseqConcat(a, b[1..], c, d);
      }
    }
  }

  lemma SubseqSlice<T>(b: seq<T>, i: nat, j: nat)
    requires i <= j <= |b|
    ensures IsSubseq(b[i..j], b)
  {
    SubseqPrefix(b[i..], j - i);
    assert b[i..][..j - i] == b[i..j];
    SubseqSuffix(b, i);
    SubseqTrans(b[i..j], b[i..], b);
  }

  /** Deleting characters either changes nothing or makes the text strictly shorter. */
  lemma SubseqShorter<T>(a: seq<T>, b: seq<T>)
    requires IsSubseq(a, b)
    ensures a == b || |a| < |b|
  {
    SubseqLength(a, b);
  }

  /** The head and tail of a concatenation whose first part is not empty. */
  lemma ConsAppend<T>(a: seq<T>, b: seq<T>)
    requires a != []
    ensures (a + b)[0] == a[0] && (a + b)[1..] == a[1..] + b
  {
  }

  lemma Assoc<T>(x: seq<T>, y: seq<T>, z: seq<T>)
    ensures x + (y + z) == (x + y) + z
  {
  }

  /** A text split around an occurrence of `pat`, before and after replacing it. */
  lemma Around<T>(t: seq<T>, i: nat, pat: seq<T>, rep: seq<T>)
    requires i + |pat| <= |t| && t[i..i + |pat|] == pat
    ensures t == t[..i] + (pat + t[i + |pat|..])
    ensures t[..i] + (rep + t[i + |pat|..]) == t[..i] + rep + t[i + |pat|..]
  {
  }

  /** Replacing one occurrence of `pat` by a subsequence of it only deletes
      elements, and deletes some when the replacement is shorter. */
  lemma SubseqReplace<T>(t: seq<T>, i: nat, pat: seq<T>, rep: seq<T>)
    requires i + |pat| <= |t| && t[i..i + |pat|] == pat && IsSubseq(rep, pat)
    ensures IsSubseq(t[..i] + rep + t[i + |pat|..], t)
    ensures |rep| < |pat| ==> |t[..i] + rep + t[i + |pat|..]| < |t|
  {
    var pre, post := t[..i], t[i + |pat|..];
    Around(t, i, pat, rep);
    SubseqRefl(pre);
    SubseqRefl(post);
    SubseqConcat(rep, pat, post, post);
    SubseqConcat(pre, pre, rep + post, pat + post);
  }

  lemma TrimIsSubseq(s: string)
    ensures IsSubseq(Trim(s), s)
  {
    var i, j :| 0 <= i <= j <= |s| && Trim(s) == s[i..j];
    SubseqSlice(s, i, j);
  }
}
