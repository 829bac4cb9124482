/**
  `insertToc`: when the markdown holds a `<!-- toc -->` placeholder, title
  lines just before it are folded into the placeholder, blank lines before
  it are collapsed, and its first occurrence is replaced by a TOC container
  holding the rendered headings (or by nothing when there are none).
 */
module TocInsert {
  import opened Text
  import opened Slug
  import opened TocTree
  import opened TocExtract
  import opened TocRender

  /** A span `[start, end)` of the markdown, where the title-heading pattern matched. */
  datatype Span = Span(start: nat, end: nat)

  /** The two global rewrites that run before the headings are extracted. */
  datatype Rewrite =
    | BoldTitle   // `\*\*(Table of Contents|目次)\*\*\s*\r?\n\s*<!-- toc -->` becomes the placeholder
    | BlankLines  // `(\r?\n)+\s*<!-- toc -->` becomes a line break and the placeholder

  const TocEn: string := "Table of Contents"
  const TocJa: string := "\U{76EE}\U{6B21}"
  const BoldEn: string := "**Table of Contents**"
  const BoldJa: string := "**\U{76EE}\U{6B21}**"

  /**
    The title-heading pattern's replacement of its first match by the
    placeholder. The match itself is computed outside the model; a span
    that does not end with the placeholder cannot be a match of that
    pattern and leaves the text unchanged.
   */
  function FoldTitleHeading(s: string, span: Option<Span>): (r: string)
    ensures Infix(s, Placeholder) ==> Infix(r, Placeholder)
  {
    if span.Some? && span.value.start + |Placeholder| <= span.value.end <= |s|
      && OccursAt(s, Placeholder, span.value.end - |Placeholder|)
    then
      var r := s[..span.value.start] + Placeholder + s[span.value.end..];
      assert OccursAt(r, Placeholder, span.value.start);
      r
    else s
  }

  /** Whether a `\n` lies in `s[lo..hi]`. */
  predicate HasNewline(s: string, lo: nat, hi: nat)
    requires lo <= hi <= |s|
  {
    exists k :: lo <= k < hi && s[k] == '\n'
  }

  /**
    Where a match of the rewrite's pattern starting at `p` ends, if there is
    one. Both patterns end with a whitespace run (all of it, since the
    placeholder starts with a non-whitespace character) followed by the
    placeholder. The blank-line one starts with a line break (`\n` or
    `\r\n`); the bold one starts with one of the two bold titles and needs
    a `\n` inside the run.
   */
  function MatchEnd(w: Rewrite, s: string, p: nat): (r: Option<nat>)
    requires p <= |s|
    ensures r.Some? ==>
      && p < r.value <= |s| && |Placeholder| <= r.value
      && OccursAt(s, Placeholder, r.value - |Placeholder|)
    ensures r.Some? && w == BlankLines ==>
      && p < |s| && (s[p] == '\n' || (s[p] == '\r' && p + 1 < |s| && s[p + 1] == '\n'))
      && p <= r.value - |Placeholder|
      && forall k :: p <= k < r.value - |Placeholder| ==> IsWs(s[k])
    ensures r.Some? && w == BoldTitle ==>
      var t := if OccursAt(s, BoldEn, p) then BoldEn else BoldJa;
      && OccursAt(s, t, p)
      && p + |t| <= r.value - |Placeholder|
      && (forall k :: p + |t| <= k < r.value - |Placeholder| ==> IsWs(s[k]))
      && HasNewline(s, p + |t|, r.value - |Placeholder|)
  {
    match w
    case BoldTitle => MatchBold(s, p)
    case BlankLines => MatchBlank(s, p)
  }

  /** `MatchEnd` for the bold-title rewrite. */
  function MatchBold(s: string, p: nat): (r: Option<nat>)
    requires p <= |s|
    ensures r.Some? ==>
      var t := if OccursAt(s, BoldEn, p) then BoldEn else BoldJa;
      && OccursAt(s, t, p)
      && p + |t| <= r.value - |Placeholder|
      && r.value <= |s|
      && OccursAt(s, Placeholder, r.value - |Placeholder|)
      && (forall k :: p + |t| <= k < r.value - |Placeholder| ==> IsWs(s[k]))
      && HasNewline(s, p + |t|, r.value - |Placeholder|)
  {
    var q :=
      if OccursAt(s, BoldEn, p) then Some(p + |BoldEn|)
      else if OccursAt(s, BoldJa, p) then Some(p + |BoldJa|)
      else None;
    if q.None? then None
    else
      var r := WsRunEnd(s, q.value);
      if HasNewline(s, q.value, r) && OccursAt(s, Placeholder, r) then Some(r + |Placeholder|) else None
  }

  /** `MatchEnd` for the blank-line rewrite. */
  function MatchBlank(s: string, p: nat): (r: Option<nat>)
    requires p <= |s|
    ensures r.Some? ==>
      && p < |s| && (s[p] == '\n' || (s[p] == '\r' && p + 1 < |s| && s[p + 1] == '\n'))
      && p + |Placeholder| <= r.value <= |s|
      && OccursAt(s, Placeholder, r.value - |Placeholder|)
      && forall k :: p <= k < r.value - |Placeholder| ==> IsWs(s[k])
  {
    if p < |s| && (s[p] == '\n' || (s[p] == '\r' && p + 1 < |s| && s[p + 1] == '\n')) then
      var r := WsRunEnd(s, p);
      if OccursAt(s, Placeholder, r) then Some(r + |Placeholder|) else None
    else None
  }

  /**
    Every text of the pattern's shape is a match: a start the pattern
    accepts, whitespace only up to `q`, and the placeholder at `q`.
   */
  lemma MatchEndComplete(w: Rewrite, s: string, p: nat, q: nat)
    requires p <= q && OccursAt(s, Placeholder, q)
    requires w == BlankLines ==>
      && p < |s| && (s[p] == '\n' || (s[p] == '\r' && p + 1 < |s| && s[p + 1] == '\n'))
      && forall k :: p <= k < q ==> IsWs(s[k])
    requires w == BoldTitle ==>
      var t := if OccursAt(s, BoldEn, p) then BoldEn else BoldJa;
      && OccursAt(s, t, p)
      && p + |t| <= q
      && (forall k :: p + |t| <= k < q ==> IsWs(s[k]))
      && HasNewline(s, p + |t|, q)
    ensures MatchEnd(w, s, p) == Some(q + |Placeholder|)
  {
    match w
    case BlankLines => MatchBlankComplete(s, p, q);
    case BoldTitle => MatchBoldComplete(s, p, q);
  }

  lemma MatchBlankComplete(s: string, p: nat, q: nat)
    requires p <= q && OccursAt(s, Placeholder, q)
    requires p < |s| && (s[p] == '\n' || (s[p] == '\r' && p + 1 < |s| && s[p + 1] == '\n'))
    requires forall k :: p <= k < q ==> IsWs(s[k])
    ensures MatchBlank(s, p) == Some(q + |Placeholder|)
  {
    RunToPlaceholder(s, p, q);
  }

  lemma MatchBoldComplete(s: string, p: nat, q: nat)
    requires p <= q && OccursAt(s, Placeholder, q)
    requires
      var t := if OccursAt(s, BoldEn, p) then BoldEn else BoldJa;
      && OccursAt(s, t, p)
      && p + |t| <= q
      && (forall k :: p + |t| <= k < q ==> IsWs(s[k]))
      && HasNewline(s, p + |t|, q)
    ensures MatchBold(s, p) == Some(q + |Placeholder|)
  {
    var t := if OccursAt(s, BoldEn, p) then BoldEn else BoldJa;
    RunToPlaceholder(s, p + |t|, q);
  }

  /** A whitespace run that stops at the placeholder ends where the placeholder starts. */
  lemma RunToPlaceholder(s: string, i: nat, q: nat)
    requires i <= q && OccursAt(s, Placeholder, q)
    requires forall k :: i <= k < q ==> IsWs(s[k])
    ensures WsRunEnd(s, i) == q
  {
    assert s[q] == Placeholder[0];
  }

  /** What each rewrite puts in place of a match. */
  function Replacement(w: Rewrite): (r: string)
    ensures Infix(r, Placeholder)
  {
    var r := if w == BoldTitle then Placeholder else "\n" + Placeholder;
    assert OccursAt(r, Placeholder, |r| - |Placeholder|);
    r
  }

  /** A regex as `replace` uses it: where a match starting at a position ends, if one does. */
  type Matcher = (string, nat) -> Option<nat>

  /** Every match of `m` in `s` is non-empty and ends inside `s`. */
  predicate Advances(m: Matcher, s: string) {
    forall p: nat :: p <= |s| && m(s, p).Some? ==> p < m(s, p).value <= |s|
  }

  /** The rewrite's pattern as a matcher. */
  function Pattern(w: Rewrite): Matcher {
    (s: string, p: nat) => if p <= |s| then MatchEnd(w, s, p) else None
  }

  lemma PatternAdvances(w: Rewrite, s: string)
    ensures Advances(Pattern(w), s)
  {
  }

  /**
    `s.replace(pattern, repl)` with a global pattern: matches are taken left
    to right, each replaced by `repl`, and the scan resumes after each.
   */
  function ReplaceAll(m: Matcher, repl: string, s: string, pos: nat): string
    requires pos <= |s| && Advances(m, s)
    decreases |s| - pos
  {
    if pos == |s| then []
    else
      match m(s, pos)
      case Some(e) => repl + ReplaceAll(m, repl, s, e)
      case None => [s[pos]] + ReplaceAll(m, repl, s, pos + 1)
  }

  /** Text where no match starts is copied through unchanged. */
  lemma {:induction false} ReplaceAllCopies(m: Matcher, repl: string, s: string, pos: nat, n: nat)
    requires pos + n <= |s| && Advances(m, s)
    requires forall p: nat :: pos <= p < pos + n ==> m(s, p).None?
    ensures ReplaceAll(m, repl, s, pos) == s[pos..pos + n] + ReplaceAll(m, repl, s, pos + n)
    decreases n
  {
    var tail := ReplaceAll(m, repl, s, pos + n);
    if n == 0 {
      assert s[pos..pos + n] + tail == tail;
    } else {
      var x := s[pos + 1..pos + n];
      assert m(s, pos).None?;
      assert ReplaceAll(m, repl, s, pos) == [s[pos]] + ReplaceAll(m, repl, s, pos + 1);
      ReplaceAllCopies(m, repl, s, pos + 1, n - 1);
      ConcatAssoc([s[pos]], x, tail);
      assert s[pos..pos + n] == [s[pos]] + x;
    }
  }

  /**
    A pattern occurring at or after `pos`, inside which no match starts,
    survives the rewrite when the replacement contains it too.
   */
  lemma {:induction false} ReplaceAllKeeps(m: Matcher, repl: string, s: string, pos: nat, k: nat, pat: string)
    requires Advances(m, s) && pos <= k && OccursAt(s, pat, k) && Infix(repl, pat)
    requires forall p: nat :: k <= p < k + |pat| ==> m(s, p).None?
    ensures Infix(ReplaceAll(m, repl, s, pos), pat)
    decreases |s| - pos
  {
    if pos == |s| {
      assert pat == [];
      assert OccursAt([], pat, 0);
    } else {
      match m(s, pos)
      case Some(e) =>
        InfixLeft(repl, ReplaceAll(m, repl, s, e), pat);
      case None =>
        if pos < k {
          ReplaceAllKeeps(m, repl, s, pos + 1, k, pat);
          InfixRight([s[pos]], ReplaceAll(m, repl, s, pos + 1), pat);
        } else {
          ReplaceAllCopies(m, repl, s, k, |pat|);
          assert OccursAt(s[k..k + |pat|], pat, 0);
          InfixLeft(s[k..k + |pat|], ReplaceAll(m, repl, s, k + |pat|), pat);
        }
    }
  }

  /** Each pattern starts with `*`, `\r` or `\n`. */
  predicate CanStartMatch(c: char) {
    c == '*' || c == '\r' || c == '\n'
  }

  /** No match starts at a character no pattern can start with. */
  lemma NoMatchAt(w: Rewrite, s: string, p: nat)
    requires p < |s| && !CanStartMatch(s[p])
    ensures MatchEnd(w, s, p).None?
  {
    if w == BoldTitle {
      assert !OccursAt(s, BoldEn, p) by {
        if p + |BoldEn| <= |s| {
          assert s[p..p + |BoldEn|][0] == s[p];
        }
      }
      assert !OccursAt(s, BoldJa, p) by {
        if p + |BoldJa| <= |s| {
          assert s[p..p + |BoldJa|][0] == s[p];
        }
      }
    }
  }

  /** The rewrite with the rewrite's pattern and replacement, over the whole text. */
  function Apply(w: Rewrite, s: string): string {
    PatternAdvances(w, s);
    ReplaceAll(Pattern(w), Replacement(w), s, 0)
  }

  /** A rewrite keeps a placeholder: no match starts inside one, and each match is replaced by text holding one. */
  lemma ApplyKeepsPlaceholder(w: Rewrite, s: string)
    requires Infix(s, Placeholder)
    ensures Infix(Apply(w, s), Placeholder)
  {
    var k: nat :| OccursAt(s, Placeholder, k);
    forall p: nat | k <= p < k + |Placeholder|
      ensures Pattern(w)(s, p).None?
    {
      assert s[p] == Placeholder[p - k];
      NoMatchAt(w, s, p);
    }
    PatternAdvances(w, s);
    ReplaceAllKeeps(Pattern(w), Replacement(w), s, 0, k, Placeholder);
  }

  /** The text the headings are extracted from: the three rewrites, in order. */
  function Preprocess(markdown: string, titleSpan: Option<Span>): string {
    Apply(BlankLines, Apply(BoldTitle, FoldTitleHeading(markdown, titleSpan)))
  }

  /** The rewrites keep a placeholder. */
  lemma PreprocessKeepsPlaceholder(markdown: string, titleSpan: Option<Span>)
    requires Infix(markdown, Placeholder)
    ensures Infix(Preprocess(markdown, titleSpan), Placeholder)
  {
    var a := FoldTitleHeading(markdown, titleSpan);
    ApplyKeepsPlaceholder(BoldTitle, a);
    ApplyKeepsPlaceholder(BlankLines, Apply(BoldTitle, a));
  }

  /** The title: the one given unless it is absent or empty, else `目次` for text with CJK characters, else `Table of Contents`. */
  function TocTitle(tocTitle: Option<string>, processed: string): (t: string)
    ensures tocTitle.Some? && tocTitle.value != [] ==> t == tocTitle.value
    ensures (tocTitle.None? || tocTitle.value == []) ==> (t == TocJa <==> HasCjk(processed))
    ensures (tocTitle.None? || tocTitle.value == []) ==> (t == TocEn <==> !HasCjk(processed))
  {
    var auto := if HasCjk(processed) then TocJa else TocEn;
    if tocTitle.Some? && tocTitle.value != [] then tocTitle.value else auto
  }

  /** The TOC container that replaces the placeholder. */
  function Container(title: string, toc: string): string {
    "<div class=\"toc-container\"><div class=\"toc-title\">" + title + "</div><ul>\n" + toc + "</ul></div>"
  }

  /** `insertToc` as a function of the markdown, the optional title and the title-heading match. */
  function InsertTocSpec(markdown: string, tocTitle: Option<string>, titleSpan: Option<Span>): string {
    if !Contains(markdown, Placeholder) then markdown
    else
      var processed := Preprocess(markdown, titleSpan);
      var headings := Headings(processed);
      if headings == [] then ReplaceFirst(processed, Placeholder, "")
      else ReplaceFirst(processed, Placeholder, Container(TocTitle(tocTitle, processed), Render(headings)))
  }

  /**
    `insertToc`: returns the markdown unchanged without a placeholder;
    otherwise rewrites it, extracts and renders the headings, and replaces
    the first placeholder with the container, or removes it when there
    are no headings.
   */
  method InsertToc(markdown: string, tocTitle: Option<string>, titleSpan: Option<Span>) returns (r: string)
    ensures r == InsertTocSpec(markdown, tocTitle, titleSpan)
  {
    if !Contains(markdown, Placeholder) {
      return markdown;
    }
    var processed := markdown;
    processed := FoldTitleHeading(processed, titleSpan);
    processed := Apply(BoldTitle, processed);
    processed := Apply(BlankLines, processed);
    assert processed == Preprocess(markdown, titleSpan);
    var headings := ExtractHeadings(processed);
    var toc := GenerateToc(headings);
    if |headings| == 0 {
      return ReplaceFirst(processed, Placeholder, "");
    }
    var autoTitle := TocEn;
    if HasCjk(processed) {
      autoTitle := TocJa;
    }
    var finalTitle := if tocTitle.Some? && tocTitle.value != [] then tocTitle.value else autoTitle;
    return ReplaceFirst(processed, Placeholder, Container(finalTitle, toc));
  }

  /** Without a placeholder the markdown comes back unchanged. */
  lemma InsertTocWithoutPlaceholder(markdown: string, tocTitle: Option<string>, titleSpan: Option<Span>)
    requires !Infix(markdown, Placeholder)
    ensures InsertTocSpec(markdown, tocTitle, titleSpan) == markdown
  {
    ContainsIff(markdown, Placeholder);
  }

  /** The first placeholder of the rewritten text, which exists whenever the markdown has one. */
  lemma FirstPlaceholder(markdown: string, titleSpan: Option<Span>) returns (k: nat)
    requires Infix(markdown, Placeholder)
    ensures var processed := Preprocess(markdown, titleSpan);
      OccursAt(processed, Placeholder, k) && forall j: nat :: j < k ==> !OccursAt(processed, Placeholder, j)
    ensures Contains(Preprocess(markdown, titleSpan), Placeholder)
    ensures IndexOf(Preprocess(markdown, titleSpan), Placeholder) == Some(k)
  {
    var processed := Preprocess(markdown, titleSpan);
    PreprocessKeepsPlaceholder(markdown, titleSpan);
    ContainsIff(processed, Placeholder);
    k := IndexOf(processed, Placeholder).value;
  }

  /** With no headings, the result is the rewritten text with its first placeholder cut out, and no container. */
  lemma InsertTocWithoutHeadings(markdown: string, tocTitle: Option<string>, titleSpan: Option<Span>) returns (k: nat)
    requires Infix(markdown, Placeholder)
    requires FlatHeadings(Preprocess(markdown, titleSpan)) == []
    ensures var processed := Preprocess(markdown, titleSpan);
      OccursAt(processed, Placeholder, k) && forall j: nat :: j < k ==> !OccursAt(processed, Placeholder, j)
    ensures var processed := Preprocess(markdown, titleSpan);
      InsertTocSpec(markdown, tocTitle, titleSpan) == processed[..k] + processed[k + |Placeholder|..]
  {
    ContainsIff(markdown, Placeholder);
    k := FirstPlaceholder(markdown, titleSpan);
    var processed := Preprocess(markdown, titleSpan);
    assert Headings(processed) == [];
  }

  /**
    With headings, the first placeholder of the rewritten text is replaced by
    the container, titled as `TocTitle` says and holding the rendered forest.
   */
  lemma InsertTocWithHeadings(markdown: string, tocTitle: Option<string>, titleSpan: Option<Span>) returns (k: nat)
    requires Infix(markdown, Placeholder)
    requires FlatHeadings(Preprocess(markdown, titleSpan)) != []
    ensures var processed := Preprocess(markdown, titleSpan);
      OccursAt(processed, Placeholder, k) && forall j: nat :: j < k ==> !OccursAt(processed, Placeholder, j)
    ensures var processed := Preprocess(markdown, titleSpan);
      InsertTocSpec(markdown, tocTitle, titleSpan) == processed[..k]
        + Container(TocTitle(tocTitle, processed), Render(Headings(processed)))
        + processed[k + |Placeholder|..]
  {
    ContainsIff(markdown, Placeholder);
    k := FirstPlaceholder(markdown, titleSpan);
    var processed := Preprocess(markdown, titleSpan);
    assert Headings(processed) != [];
  }

  /** Every heading of the rewritten text has its link in the result. */
  lemma InsertTocLinks(markdown: string, tocTitle: Option<string>, titleSpan: Option<Span>, i: nat)
    requires Infix(markdown, Placeholder)
    requires i < |FlatHeadings(Preprocess(markdown, titleSpan))|
    ensures Infix(InsertTocSpec(markdown, tocTitle, titleSpan), Anchor(FlatHeadings(Preprocess(markdown, titleSpan))[i]))
  {
    var processed := Preprocess(markdown, titleSpan);
    var k := InsertTocWithHeadings(markdown, tocTitle, titleSpan);
    var f := Headings(processed);
    var w := Anchor(Flatten(f)[i]);
    RenderLinks(f, i);
    var title := TocTitle(tocTitle, processed);
    InfixMiddle("<div class=\"toc-container\"><div class=\"toc-title\">" + title + "</div><ul>\n", Render(f), "</ul></div>", w);
    InfixMiddle(processed[..k], Container(title, Render(f)), processed[k + |Placeholder|..], w);
  }
}
