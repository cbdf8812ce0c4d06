/** The rewrite of `<style>` text: every `url(...)` reference matched by
    `/url\((['"]?)([^'")]+)\1\)/g` is replaced by the same reference with
    the URL resolved against the page, keeping its quotes; a reference whose
    URL does not resolve is kept as it was. */
module StyleUrls {
  import opened Wrappers
  import opened Strings

  /** `new URL(x, location.href).href`, `None` when the constructor throws.
      The page location is fixed for the whole capture, so it is not an
      argument. */
  type Resolver = string -> Option<string>

  predicate IsQuote(c: char) { c == '\'' || c == '"' }

  /** The characters `[^'")]` admits. */
  predicate InTarget(c: char) { !IsQuote(c) && c != ')' }

  /** What the pattern admits as the quote captured by `(['"]?)` and the
      URL captured by `([^'")]+)`. */
  predicate IsUrlMatch(q: string, x: string) {
    (q == "" || q == "'" || q == "\"")
    && |x| > 0 && forall k :: 0 <= k < |x| ==> InTarget(x[k])
  }

  /** The text of a reference with quote `q` and URL `x`. */
  function UrlText(q: string, x: string): string {
    "url(" + (q + x + q + ")")
  }

  /** `url(` begins at position `i` of `s`. */
  predicate UrlOpenAt(s: string, i: nat) {
    i + 4 <= |s| && s[i] == 'u' && s[i + 1] == 'r' && s[i + 2] == 'l' && s[i + 3] == '('
  }

  predicate NoUrlOpen(s: string) {
    forall i: nat :: i + 4 <= |s| ==> !UrlOpenAt(s, i)
  }

  /** `UrlText(q, x)` stands at position `i` of `s`, spelt out piece by
      piece. */
  predicate OccursAt(s: string, i: nat, q: string, x: string) {
    var p := i + 4 + |q|;
    p + |x| + |q| < |s|
    && UrlOpenAt(s, i)
    && s[i + 4..p] == q && s[p..p + |x|] == x && s[p + |x|..p + |x| + |q|] == q
    && s[p + |x| + |q|] == ')'
  }

  /** Where a match lies: the length of its quote (0 or 1) and of its URL.
      The match at `i` covers `s[i..i + Width()]`. */
  datatype Span = Span(quoteLength: nat, targetLength: nat) {
    function Width(): nat { 5 + 2 * quoteLength + targetLength }
  }

  function QuoteOf(s: string, i: nat, sp: Span): string
    requires i + sp.Width() <= |s|
  {
    s[i + 4..i + 4 + sp.quoteLength]
  }

  function TargetOf(s: string, i: nat, sp: Span): string
    requires i + sp.Width() <= |s|
  {
    s[i + 4 + sp.quoteLength..i + 4 + sp.quoteLength + sp.targetLength]
  }

  /** Length of the longest run of `[^'")]` that starts at position `i`. */
  function TargetRun(s: string, i: nat): (n: nat)
    requires i <= |s|
    ensures i + n <= |s|
    decreases |s| - i
  {
    if i == |s| || !InTarget(s[i]) then 0 else 1 + TargetRun(s, i + 1)
  }

  /** The match of the pattern that starts at position `i` of `s`, if any.
      After `url(`, a quote is taken when one is there; then the URL is the
      longest run of `[^'")]`, and the same quote and `)` must follow. The
      pattern has no other way to match: a shorter URL would be followed by
      a character of the run, and with no quote taken the URL cannot start
      at a quote. */
  function MatchAt(s: string, i: nat): (m: Option<Span>)
    requires i <= |s|
    ensures m.Some? ==> i + m.value.Width() <= |s|
  {
    if !UrlOpenAt(s, i) then None
    else
      var j := i + 4;
      var ql := if j < |s| && IsQuote(s[j]) then 1 else 0;
      var n := TargetRun(s, j + ql);
      var e := j + ql + n;
      if n > 0 && e + ql < |s| && (ql == 0 || s[e] == s[j]) && s[e + ql] == ')'
      then Some(Span(ql, n))
      else None
  }

  /** The replacement the callback returns for a match with quote `q` and
      URL `x`: the resolved URL inside the same quotes, or the match itself
      when the URL does not resolve. */
  function Replacement(q: string, x: string, resolve: Resolver): string {
    match resolve(x)
    case Some(u) => UrlText(q, u)
    case None => UrlText(q, x)
  }

  /** The text as the global replace sees it: characters it copies and
      matches it hands to the callback. */
  datatype Piece = Plain(c: char) | Ref(quote: string, target: string)

  /** The pieces of `s` from position `i` on: a match is taken whole and
      the scan resumes right after it; any other character is a piece of
      its own. */
  function PiecesFrom(s: string, i: nat): seq<Piece>
    requires i <= |s|
    decreases |s| - i, 1
  {
    if i == |s| then [] else PiecesAt(s, i)
  }

  /** The pieces from a position before the end: the piece that starts
      there, then the pieces after it. */
  function PiecesAt(s: string, i: nat): seq<Piece>
    requires i < |s|
    decreases |s| - i, 0
  {
    match MatchAt(s, i)
    case Some(sp) => [Ref(QuoteOf(s, i, sp), TargetOf(s, i, sp))] + PiecesFrom(s, i + sp.Width())
    case None => [Plain(s[i])] + PiecesFrom(s, i + 1)
  }

  function Pieces(s: string): seq<Piece> {
    PiecesFrom(s, 0)
  }

  function PieceText(p: Piece): string {
    match p
    case Plain(c) => [c]
    case Ref(q, x) => UrlText(q, x)
  }

  /** The text the pieces from index `k` on stand for. */
  function TextFrom(ps: seq<Piece>, k: nat): string
    requires k <= |ps|
    decreases |ps| - k
  {
    if k == |ps| then [] else PieceText(ps[k]) + TextFrom(ps, k + 1)
  }

  function Text(ps: seq<Piece>): string {
    TextFrom(ps, 0)
  }

  function RenderPiece(p: Piece, resolve: Resolver): string {
    match p
    case Plain(c) => [c]
    case Ref(q, x) => Replacement(q, x, resolve)
  }

  /** The output of the replace for the pieces from index `k` on: copied
      characters and the callback's replacements, in order. */
  function RenderFrom(ps: seq<Piece>, k: nat, resolve: Resolver): string
    requires k <= |ps|
    decreases |ps| - k
  {
    if k == |ps| then [] else RenderPiece(ps[k], resolve) + RenderFrom(ps, k + 1, resolve)
  }

  function Render(ps: seq<Piece>, resolve: Resolver): string {
    RenderFrom(ps, 0, resolve)
  }

  /** `text.replace(/url\((['"]?)([^'")]+)\1\)/g, callback)` */
  function Rewrite(s: string, resolve: Resolver): string {
    Render(Pieces(s), resolve)
  }

  /** Every `Ref` piece is a match the pattern admits. */
  predicate RefsMatch(ps: seq<Piece>) {
    forall k :: 0 <= k < |ps| && ps[k].Ref? ==> IsUrlMatch(ps[k].quote, ps[k].target)
  }

  /** The run is made of `[^'")]` and is as long as it can be. */
  lemma {:induction false} TargetRunSpec(s: string, i: nat)
    requires i <= |s|
    ensures var n := TargetRun(s, i);
      (i + n == |s| || !InTarget(s[i + n]))
      && forall k :: i <= k < i + n ==> InTarget(s[k])
    decreases |s| - i
  {
    if i < |s| && InTarget(s[i]) {
      TargetRunSpec(s, i + 1);
    }
  }

  lemma {:induction false} TargetRunOf(s: string, i: nat, x: string)
    requires i + |x| <= |s| && s[i..i + |x|] == x
    requires forall k :: 0 <= k < |x| ==> InTarget(x[k])
    requires i + |x| == |s| || !InTarget(s[i + |x|])
    ensures TargetRun(s, i) == |x|
    decreases |x|
  {
    if x != [] {
      assert s[i] == x[0];
      assert s[i + 1..i + |x|] == x[1..];
      TargetRunOf(s, i + 1, x[1..]);
    }
  }

  /** What is found is an occurrence of the pattern: an admissible quote
      and URL, standing at position `i`. */
  lemma MatchAtSound(s: string, i: nat)
    requires i <= |s| && MatchAt(s, i).Some?
    ensures var sp := MatchAt(s, i).value;
      IsUrlMatch(QuoteOf(s, i, sp), TargetOf(s, i, sp))
      && OccursAt(s, i, QuoteOf(s, i, sp), TargetOf(s, i, sp))
  {
    var sp := MatchAt(s, i).value;
    var j := i + 4 + sp.quoteLength;
    TargetRunSpec(s, j);
    var x := TargetOf(s, i, sp);
    assert forall k :: 0 <= k < |x| ==> x[k] == s[j + k];
  }

  /** Every occurrence of the pattern is found, and found as itself: when
      `url(` + q + x + q + `)` stands at position `i` for an admissible
      quote q and URL x, the match at `i` has exactly that quote and URL. */
  lemma {:induction false} MatchAtComplete(s: string, i: nat, q: string, x: string)
    requires IsUrlMatch(q, x) && OccursAt(s, i, q, x)
    ensures MatchAt(s, i) == Some(Span(|q|, |x|))
    ensures QuoteOf(s, i, Span(|q|, |x|)) == q && TargetOf(s, i, Span(|q|, |x|)) == x
  {
    var j := i + 4;
    var p := j + |q|;
    if q == "" {
      assert s[p + |x|] == ')';
      TargetRunOf(s, p, x);
      assert s[j] == x[0];
    } else {
      assert s[j] == q[0];
      assert s[p + |x|] == q[0];
      TargetRunOf(s, p, x);
    }
  }

  /** An occurrence spelt out piece by piece is the text of the reference. */
  lemma OccursAtText(s: string, i: nat, q: string, x: string)
    requires OccursAt(s, i, q, x)
    ensures i + |UrlText(q, x)| <= |s| && s[i..i + |UrlText(q, x)|] == UrlText(q, x)
  {
    var j, p := i + 4, i + 4 + |q|;
    var e := p + |x| + |q|;
    assert s[i..j] == "url(";
    assert s[e..e + 1] == ")";
    JoinSlice(s, j, q, x);
    JoinSlice(s, j, q + x, q);
    JoinSlice(s, j, q + x + q, ")");
    JoinSlice(s, i, "url(", q + x + q + ")");
  }

  /** Slices that spell `a` and then `b` spell `a + b`. */
  lemma JoinSlice(s: string, i: nat, a: string, b: string)
    requires i + |a| + |b| <= |s|
    requires s[i..i + |a|] == a && s[i + |a|..i + |a| + |b|] == b
    ensures s[i..i + |a| + |b|] == a + b
  {
    assert forall k :: 0 <= k < |a| ==> a[k] == s[i + k];
    assert forall k :: 0 <= k < |b| ==> b[k] == s[i + |a| + k];
  }

  /** The text of a reference, wherever it stands, is an occurrence. */
  lemma TextOccursAt(s: string, i: nat, q: string, x: string)
    requires i + |UrlText(q, x)| <= |s| && s[i..i + |UrlText(q, x)|] == UrlText(q, x)
    ensures OccursAt(s, i, q, x)
  {
    var j, p := i + 4, i + 4 + |q|;
    SplitSlice(s, i, "url(", q + x + q + ")");
    assert s[i..j][0] == s[i] && s[i..j][1] == s[i + 1] && s[i..j][2] == s[i + 2] && s[i..j][3] == s[i + 3];
    SplitSlice(s, j, q + x + q, ")");
    assert s[p + |x| + |q|..p + |x| + |q| + 1][0] == s[p + |x| + |q|];
    SplitSlice(s, j, q + x, q);
    SplitSlice(s, j, q, x);
  }

  /** A slice that spells `a + b` spells `a` and then `b`. */
  lemma SplitSlice(s: string, i: nat, a: string, b: string)
    requires i + |a| + |b| <= |s| && s[i..i + |a| + |b|] == a + b
    ensures s[i..i + |a|] == a && s[i + |a|..i + |a| + |b|] == b
  {
    assert forall k :: 0 <= k < |a| ==> a[k] == (a + b)[k] == s[i + k];
    assert forall k :: 0 <= k < |b| ==> b[k] == (a + b)[|a| + k] == s[i + |a| + k];
  }

  lemma {:induction false} TextShift(p: Piece, ps: seq<Piece>, k: nat)
    requires k <= |ps|
    ensures TextFrom([p] + ps, k + 1) == TextFrom(ps, k)
    decreases |ps| - k
  {
    if k < |ps| {
      assert ([p] + ps)[k + 1] == ps[k];
      TextShift(p, ps, k + 1);
    }
  }

  lemma TextCons(p: Piece, ps: seq<Piece>)
    ensures Text([p] + ps) == PieceText(p) + Text(ps)
  {
    TextShift(p, ps, 0);
  }

  /** A first piece and the pieces after it, each standing for its part
      of the text, stand together for the whole. */
  lemma ConsText(ps: seq<Piece>, p: Piece, rest: seq<Piece>, s: string, i: nat, n: nat)
    requires ps == [p] + rest && i + n <= |s|
    requires PieceText(p) == s[i..i + n] && Text(rest) == s[i + n..]
    ensures Text(ps) == s[i..]
  {
    TextCons(p, rest);
    assert s[i..] == s[i..i + n] + s[i + n..];
  }

  /** A plain character in front of pieces that render as `t + u`. */
  lemma PlainRender(ps: seq<Piece>, rest: seq<Piece>, c: char, t: string, u: string, resolve: Resolver)
    requires ps == [Plain(c)] + rest && Render(rest, resolve) == t + u
    ensures Render(ps, resolve) == ([c] + t) + u
  {
    RenderCons(Plain(c), rest, resolve);
  }

  lemma {:induction false} RenderShift(p: Piece, ps: seq<Piece>, k: nat, resolve: Resolver)
    requires k <= |ps|
    ensures RenderFrom([p] + ps, k + 1, resolve) == RenderFrom(ps, k, resolve)
    decreases |ps| - k
  {
    if k < |ps| {
      assert ([p] + ps)[k + 1] == ps[k];
      RenderShift(p, ps, k + 1, resolve);
    }
  }

  lemma ConsRefs(ps: seq<Piece>, p: Piece, rest: seq<Piece>)
    requires ps == [p] + rest
    requires p.Ref? ==> IsUrlMatch(p.quote, p.target)
    requires RefsMatch(rest)
    ensures RefsMatch(ps)
  {
    assert forall k :: 1 <= k < |ps| ==> ps[k] == rest[k - 1];
  }

  lemma RenderCons(p: Piece, ps: seq<Piece>, resolve: Resolver)
    ensures Render([p] + ps, resolve) == RenderPiece(p, resolve) + Render(ps, resolve)
  {
    RenderShift(p, ps, 0, resolve);
  }

  /** The pieces at a position where a match starts. */
  lemma PiecesAtMatch(s: string, i: nat)
    requires i < |s| && MatchAt(s, i).Some?
    ensures var sp := MatchAt(s, i).value;
      PiecesFrom(s, i) == [Ref(QuoteOf(s, i, sp), TargetOf(s, i, sp))] + PiecesFrom(s, i + sp.Width())
  {
  }

  /** The pieces at a position where no match starts. */
  lemma PiecesAtPlain(s: string, i: nat)
    requires i < |s| && MatchAt(s, i).None?
    ensures PiecesFrom(s, i) == [Plain(s[i])] + PiecesFrom(s, i + 1)
  {
  }

  /** The first piece from `i` on stands for the text it was cut from. */
  lemma FirstPieceText(s: string, i: nat) returns (p: Piece, n: nat)
    requires i < |s|
    ensures 0 < n && i + n <= |s|
    ensures PiecesFrom(s, i) == [p] + PiecesFrom(s, i + n)
    ensures PieceText(p) == s[i..i + n]
    ensures p.Ref? ==> IsUrlMatch(p.quote, p.target)
  {
    match MatchAt(s, i)
    case Some(sp) =>
      PiecesAtMatch(s, i);
      MatchAtSound(s, i);
      OccursAtText(s, i, QuoteOf(s, i, sp), TargetOf(s, i, sp));
      p, n := Ref(QuoteOf(s, i, sp), TargetOf(s, i, sp)), sp.Width();
    case None =>
      PiecesAtPlain(s, i);
      p, n := Plain(s[i]), 1;
  }

  /** The pieces cover the text exactly: put back together, they are the
      text from `i` on. */
  lemma {:induction false} PiecesFromText(s: string, i: nat)
    requires i <= |s|
    ensures Text(PiecesFrom(s, i)) == s[i..]
    decreases |s| - i
  {
    if i < |s| {
      var p, n := FirstPieceText(s, i);
      PiecesFromText(s, i + n);
      ConsText(PiecesFrom(s, i), p, PiecesFrom(s, i + n), s, i, n);
    }
  }

  /** Every match among the pieces is one the pattern admits. */
  lemma {:induction false} PiecesFromRefs(s: string, i: nat)
    requires i <= |s|
    ensures RefsMatch(PiecesFrom(s, i))
    decreases |s| - i
  {
    if i < |s| {
      var p, n := FirstPieceText(s, i);
      PiecesFromRefs(s, i + n);
      ConsRefs(PiecesFrom(s, i), p, PiecesFrom(s, i + n));
    }
  }

  /** The text is the concatenation of its pieces, and the matches among
      them are matches of the pattern. */
  lemma PiecesText(s: string)
    ensures Text(Pieces(s)) == s && RefsMatch(Pieces(s))
  {
    PiecesFromText(s, 0);
    PiecesFromRefs(s, 0);
  }

  /** Every occurrence the scan reaches is taken as itself: when `url(` +
      q + x + q + `)` stands at `i` for an admissible quote q and URL x,
      the piece there is that reference and the scan resumes after it. */
  lemma PiecesAtOccurrence(s: string, i: nat, q: string, x: string)
    requires IsUrlMatch(q, x) && OccursAt(s, i, q, x)
    ensures i + |UrlText(q, x)| <= |s|
    ensures PiecesFrom(s, i) == [Ref(q, x)] + PiecesFrom(s, i + |UrlText(q, x)|)
  {
    MatchAtComplete(s, i, q, x);
    PiecesAtMatch(s, i);
  }

  /** No occurrence of the pattern begins at a position in `[i, j)`. A
      `url(` may begin there, as in `url()` or `url('a")`, as long as the
      pattern fails on what follows it. */
  ghost predicate NoMatchIn(s: string, i: nat, j: nat) {
    forall k: nat, q: string, x: string :: i <= k < j ==> !(IsUrlMatch(q, x) && OccursAt(s, k, q, x))
  }

  /** Text in which no match begins is copied unchanged, whether or not a
      `url(` begins in it. */
  lemma {:induction false} RenderCopiesPlain(s: string, i: nat, j: nat, resolve: Resolver)
    requires i <= j <= |s|
    requires NoMatchIn(s, i, j)
    ensures Render(PiecesFrom(s, i), resolve) == s[i..j] + Render(PiecesFrom(s, j), resolve)
    decreases j - i
  {
    if i < j {
      if MatchAt(s, i).Some? {
        MatchAtSound(s, i);
        assert false;
      }
      PiecesAtPlain(s, i);
      RenderCopiesPlain(s, i + 1, j, resolve);
      PlainRender(PiecesFrom(s, i), PiecesFrom(s, i + 1), s[i], s[i + 1..j], Render(PiecesFrom(s, j), resolve), resolve);
      assert s[i..j] == [s[i]] + s[i + 1..j];
    }
  }

  /** From a position holding a reference, the rewrite emits its
      replacement and continues after it. */
  lemma RewriteAtOccurrence(s: string, i: nat, q: string, x: string, resolve: Resolver)
    requires IsUrlMatch(q, x) && OccursAt(s, i, q, x)
    ensures i + |UrlText(q, x)| <= |s|
    ensures Render(PiecesFrom(s, i), resolve)
         == Replacement(q, x, resolve) + Render(PiecesFrom(s, i + |UrlText(q, x)|), resolve)
  {
    PiecesAtOccurrence(s, i, q, x);
    RenderCons(Ref(q, x), PiecesFrom(s, i + |UrlText(q, x)|), resolve);
  }

  /** With a resolver that never changes a URL (it returns the URL itself
      or fails), rendering gives back the text the pieces stand for. */
  lemma {:induction false} RenderIdentity(ps: seq<Piece>, k: nat, resolve: Resolver)
    requires k <= |ps|
    requires forall x :: resolve(x).Some? ==> resolve(x).value == x
    ensures RenderFrom(ps, k, resolve) == TextFrom(ps, k)
    decreases |ps| - k
  {
    if k < |ps| {
      RenderIdentity(ps, k + 1, resolve);
      RenderPieceIdentity(ps[k], resolve);
    }
  }

  lemma RenderPieceIdentity(p: Piece, resolve: Resolver)
    requires forall x :: resolve(x).Some? ==> resolve(x).value == x
    ensures RenderPiece(p, resolve) == PieceText(p)
  {
    if p.Ref? && resolve(p.target).Some? {
      assert resolve(p.target).value == p.target;
    }
  }

  /** With such a resolver the rewrite leaves the text as it is. */
  lemma RewriteIdentity(s: string, resolve: Resolver)
    requires forall x :: resolve(x).Some? ==> resolve(x).value == x
    ensures Rewrite(s, resolve) == s
  {
    PiecesText(s);
    RenderIdentity(Pieces(s), 0, resolve);
  }

  /** A `url(` cannot begin inside text free of `url(` and end inside a
      `url(` that follows it: its four letters differ from one another. */
  lemma NoUrlOpenBefore(pre: string, post: string, k: nat)
    requires NoUrlOpen(pre) && k < |pre|
    requires UrlOpenAt(pre + post, |pre|)
    ensures !UrlOpenAt(pre + post, k)
  {
    var s := pre + post;
    if k + 4 <= |pre| {
      assert !UrlOpenAt(pre, k);
    } else {
      assert s[|pre|] == 'u';
    }
  }

  /** A single reference after text with no `url(` in it: the text is
      kept, and the reference gets the resolved URL inside the same quotes.
      For instance `background: url('bg.png')` on a page where `bg.png`
      resolves to `https://x.test/dir/bg.png` becomes
      `background: url('https://x.test/dir/bg.png')`. */
  lemma RewriteSingleReference(pre: string, q: string, x: string, u: string, resolve: Resolver)
    requires NoUrlOpen(pre) && IsUrlMatch(q, x) && resolve(x) == Some(u)
    ensures Rewrite(pre + UrlText(q, x), resolve) == pre + UrlText(q, u)
  {
    var t := UrlText(q, x);
    var s := pre + t;
    assert s[|pre|..|pre| + |t|] == t;
    TextOccursAt(s, |pre|, q, x);
    forall k: nat, q': string, x': string | k < |pre|
      ensures !(IsUrlMatch(q', x') && OccursAt(s, k, q', x'))
    {
      NoUrlOpenBefore(pre, t, k);
    }
    RenderCopiesPlain(s, 0, |pre|, resolve);
    assert s[0..|pre|] == pre;
    RewriteAtOccurrence(s, |pre|, q, x, resolve);
    assert PiecesFrom(s, |s|) == [];
  }

  /** Text in which the pattern matches nowhere comes out of the rewrite
      unchanged, whatever the resolver. */
  lemma RewriteNoMatch(s: string, resolve: Resolver)
    requires NoMatchIn(s, 0, |s|)
    ensures Rewrite(s, resolve) == s
  {
    RenderCopiesPlain(s, 0, |s|, resolve);
    assert PiecesFrom(s, |s|) == [];
    assert s[0..|s|] == s;
  }

  /** Where the match function finds nothing, no occurrence begins. */
  lemma NoMatchWhereNoneFound(s: string, i: nat, j: nat)
    requires i <= j <= |s|
    requires forall k: nat :: i <= k < j ==> MatchAt(s, k).None?
    ensures NoMatchIn(s, i, j)
  {
    forall k: nat, q: string, x: string | i <= k < j
      ensures !(IsUrlMatch(q, x) && OccursAt(s, k, q, x))
    {
      if IsUrlMatch(q, x) && OccursAt(s, k, q, x) {
        MatchAtComplete(s, k, q, x);
      }
    }
  }

  /** `url()` has no URL for `([^'")]+)` to capture, so it is kept as it
      is, whatever the resolver. */
  lemma RewriteKeepsEmptyReference(resolve: Resolver)
    ensures Rewrite("url()", resolve) == "url()"
  {
    var s := "url()";
    forall k: nat, q: string, x: string | k < |s|
      ensures !(IsUrlMatch(q, x) && OccursAt(s, k, q, x))
    {
    }
    RewriteNoMatch(s, resolve);
  }

  /** `url('a")` opens with one quote and closes with another, so the
      backreference `\1` fails and the text is kept as it is. */
  lemma RewriteKeepsMismatchedQuotes(resolve: Resolver)
    ensures Rewrite("url('a\")", resolve) == "url('a\")"
  {
    var s := "url('a\")";
    assert TargetRun(s, 5) == 1 by {
      assert !InTarget(s[6]);
    }
    forall k: nat | k < |s| ensures MatchAt(s, k).None? {
      if k == 0 {
        assert s[5 + TargetRun(s, 5)] != s[4];
      }
    }
    NoMatchWhereNoneFound(s, 0, |s|);
    RewriteNoMatch(s, resolve);
  }
}
