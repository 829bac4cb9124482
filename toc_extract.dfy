/**
  `extractHeadings`: the TOC placeholder is removed once, the markdown is
  scanned with the global, multiline regex `^(#{1,6})\s+(.+)$` the way
  repeated `exec` calls scan it, and every match with two or more `#`
  becomes a heading one level up, which `nestHeadings` then arranges.
 */
module TocExtract {
  import opened Text
  import opened Slug
  import opened TocTree

  const Placeholder: string := "<!-- toc -->"

  /** `^` in multiline mode: the start of the input or just after a line terminator. */
  predicate LineStart(s: string, p: nat) {
    p == 0 || (0 < p <= |s| && IsLineTerminator(s[p - 1]))
  }

  /** The end of the line holding index `i`: the next line terminator at or after `i`, or the end of the input. */
  function LineEnd(s: string, i: nat): (e: nat)
    requires i <= |s|
    ensures i <= e <= |s|
    ensures e < |s| ==> IsLineTerminator(s[e])
    ensures forall k :: i <= k < e ==> !IsLineTerminator(s[k])
    decreases |s| - i
  {
    if i == |s| || IsLineTerminator(s[i]) then i else LineEnd(s, i + 1)
  }

  /** The number of `#` characters starting at `p`. */
  function HashRun(s: string, p: nat): (n: nat)
    requires p <= |s|
    ensures p + n <= |s|
    ensures forall k :: p <= k < p + n ==> s[k] == '#'
    ensures p + n == |s| || s[p + n] != '#'
    decreases |s| - p
  {
    if p == |s| || s[p] != '#' then 0 else 1 + HashRun(s, p + 1)
  }

  /** The last index in `[lo, hi)` whose character is not a line terminator. */
  function LastNonLt(s: string, lo: nat, hi: nat): (r: Option<nat>)
    requires lo <= hi <= |s|
    ensures r.Some? ==>
      && lo <= r.value < hi && !IsLineTerminator(s[r.value])
      && forall k :: r.value < k < hi ==> IsLineTerminator(s[k])
    ensures r.None? ==> forall k :: lo <= k < hi ==> IsLineTerminator(s[k])
    decreases hi - lo
  {
    if lo == hi then None
    else if !IsLineTerminator(s[hi - 1]) then Some(hi - 1)
    else LastNonLt(s, lo, hi - 1)
  }

  /** One match of the heading regex: where it starts, its `#` count, the second group and where it ends. */
  datatype HeadingMatch = HeadingMatch(start: nat, hashes: nat, caption: string, end: nat)

  /**
    The match of the heading regex starting at `p`, if any. The greedy
    `\s+` takes the whole whitespace run, line breaks included, and `.+`
    the rest of the line after it. When that run reaches the end of the
    input, `\s+` gives back characters until `.+` can take the last
    non-line-terminator character, whose line then is the caption.
   */
  function MatchAt(s: string, p: nat): (r: Option<HeadingMatch>)
    requires p <= |s|
    ensures r.Some? ==>
      && r.value.start == p && 1 <= r.value.hashes <= 6
      && p + r.value.hashes < r.value.end <= |s|
  {
    var h := HashRun(s, p);
    if !LineStart(s, p) || h < 1 || h > 6 || p + h == |s| || !IsWs(s[p + h]) then None
    else
      var r := WsRunEnd(s, p + h);
      if r < |s| then
        var e := LineEnd(s, r);
        Some(HeadingMatch(p, h, s[r..e], e))
      else
        match LastNonLt(s, p + h + 1, |s|)
        case None => None
        case Some(q) =>
          var e := LineEnd(s, q);
          Some(HeadingMatch(p, h, s[q..e], e))
  }

  /**
    The shape of a heading match `m` at `p`: a line start, its `#` run, a
    non-empty run of whitespace, and a caption that is not empty, holds no
    line terminator and runs up to the end of its line. The caption starts
    with a character that is not whitespace, unless everything after the
    `#` run is whitespace: then the caption is the single last character
    that is not a line terminator, and only line terminators follow it.
   */
  predicate HeadingShape(s: string, p: nat, m: HeadingMatch) {
    && p + m.hashes <= |s| && m.end <= |s|
    && LineStart(s, p)
    && (forall k :: p <= k < p + m.hashes ==> s[k] == '#')
    && m.caption != [] && |m.caption| <= m.end && m.caption == s[m.end - |m.caption|..m.end]
    && p + m.hashes < m.end - |m.caption|
    && (forall k :: p + m.hashes <= k < m.end - |m.caption| ==> IsWs(s[k]))
    && (forall k :: 0 <= k < |m.caption| ==> !IsLineTerminator(m.caption[k]))
    && (m.end == |s| || IsLineTerminator(s[m.end]))
    && (|| !IsWs(m.caption[0])
        || (&& |m.caption| == 1
            && (forall k :: p + m.hashes <= k < |s| ==> IsWs(s[k]))
            && (forall k :: m.end <= k < |s| ==> IsLineTerminator(s[k]))))
  }

  /** Every match has the shape of a heading. */
  lemma MatchShape(s: string, p: nat)
    requires p <= |s| && MatchAt(s, p).Some?
    ensures HeadingShape(s, p, MatchAt(s, p).value)
  {
    if WsRunEnd(s, p + HashRun(s, p)) < |s| {
      MatchShapeBeforeEnd(s, p);
    } else {
      MatchShapeAtEnd(s, p);
    }
  }

  /** A match whose whitespace run stops before the end of the input. */
  lemma MatchShapeBeforeEnd(s: string, p: nat)
    requires p <= |s| && MatchAt(s, p).Some? && WsRunEnd(s, p + HashRun(s, p)) < |s|
    ensures HeadingShape(s, p, MatchAt(s, p).value)
  {
    var h := HashRun(s, p);
    var r := WsRunEnd(s, p + h);
    var m := HeadingMatch(p, h, s[r..LineEnd(s, r)], LineEnd(s, r));
    assert MatchAt(s, p) == Some(m);
    ShapeBeforeEnd(s, p, h, r);
  }

  /** A match whose whitespace run reaches the end of the input. */
  lemma MatchShapeAtEnd(s: string, p: nat)
    requires p <= |s| && MatchAt(s, p).Some? && WsRunEnd(s, p + HashRun(s, p)) == |s|
    ensures HeadingShape(s, p, MatchAt(s, p).value)
  {
    var h := HashRun(s, p);
    var q := LastNonLt(s, p + h + 1, |s|).value;
    LastLineEnd(s, q);
    var m := HeadingMatch(p, h, s[q..q + 1], q + 1);
    assert MatchAt(s, p) == Some(m);
    ShapeAtEnd(s, p, h, q);
  }

  /** A caption that starts at the first character after the whitespace run. */
  lemma ShapeBeforeEnd(s: string, p: nat, h: nat, r: nat)
    requires LineStart(s, p) && p + h < r < |s|
    requires forall k :: p <= k < p + h ==> s[k] == '#'
    requires forall k :: p + h <= k < r ==> IsWs(s[k])
    requires !IsWs(s[r])
    ensures HeadingShape(s, p, HeadingMatch(p, h, s[r..LineEnd(s, r)], LineEnd(s, r)))
  {
    var e := LineEnd(s, r);
    assert !IsLineTerminator(s[r]);
    assert s[r..e][0] == s[r];
  }

  /** A caption given back by `\s+`: the last character that is not a line terminator. */
  lemma ShapeAtEnd(s: string, p: nat, h: nat, q: nat)
    requires LineStart(s, p) && p + h < q < |s|
    requires forall k :: p <= k < p + h ==> s[k] == '#'
    requires forall k :: p + h <= k < |s| ==> IsWs(s[k])
    requires !IsLineTerminator(s[q])
    requires forall k :: q < k < |s| ==> IsLineTerminator(s[k])
    ensures HeadingShape(s, p, HeadingMatch(p, h, s[q..q + 1], q + 1))
  {
  }

  /** The line of the last character that is not a line terminator ends right after it. */
  lemma LastLineEnd(s: string, q: nat)
    requires q < |s| && !IsLineTerminator(s[q])
    requires forall k :: q < k < |s| ==> IsLineTerminator(s[k])
    ensures LineEnd(s, q) == q + 1
  {
    if q + 1 < |s| {
      assert IsLineTerminator(s[q + 1]);
    }
  }

  /**
    The regex matches at `p` exactly when `p` starts a line, one to six `#`
    (and no more) follow, then a whitespace character, and somewhere after
    it a character that is not a line terminator.
   */
  lemma MatchAtIff(s: string, p: nat)
    requires p <= |s|
    ensures MatchAt(s, p).Some? <==>
      var h := HashRun(s, p);
      LineStart(s, p) && 1 <= h <= 6 && p + h < |s| && IsWs(s[p + h])
      && exists q :: p + h < q < |s| && !IsLineTerminator(s[q])
  {
    var h := HashRun(s, p);
    if LineStart(s, p) && 1 <= h <= 6 && p + h < |s| && IsWs(s[p + h]) {
      var r := WsRunEnd(s, p + h);
      if r < |s| {
        assert !IsLineTerminator(s[r]);
      }
    }
  }

  /** Seven or more `#` at a line start never match. */
  lemma SevenHashesNeverMatch(s: string, p: nat)
    requires p + 7 <= |s| && forall k :: p <= k < p + 7 ==> s[k] == '#'
    ensures MatchAt(s, p).None?
  {
  }

  /**
    `\s+` may cross a line break, so a bare `##` line takes the next line as
    its caption; a caption of spaces only still matches, by giving one
    space back to `.+`, when nothing but whitespace follows to the end of
    the input; otherwise `\s+` runs on to the next line and takes its text.
   */
  lemma MatchExamples()
    ensures MatchAt("##\nA", 0) == Some(HeadingMatch(0, 2, "A", 4))
    ensures MatchAt("##  ", 0) == Some(HeadingMatch(0, 2, " ", 4))
    ensures MatchAt("##  \nA", 0) == Some(HeadingMatch(0, 2, "A", 6))
    ensures MatchAt("#A", 0) == None
  {
    var s := "##\nA";
    assert HashRun(s, 2) == 0;
    assert HashRun(s, 0) == 2;
    assert WsRunEnd(s, 2) == 3;
    assert LineEnd(s, 3) == 4;
    assert s[3..4] == "A";
    var t := "##  ";
    assert HashRun(t, 2) == 0;
    assert HashRun(t, 0) == 2;
    assert WsRunEnd(t, 2) == 4;
    assert LastNonLt(t, 3, 4) == Some(3);
    assert LineEnd(t, 3) == 4;
    assert t[3..4] == " ";
    var v := "##  \nA";
    assert HashRun(v, 2) == 0;
    assert HashRun(v, 0) == 2;
    assert WsRunEnd(v, 2) == 5;
    assert LineEnd(v, 5) == 6;
    assert v[5..6] == "A";
    var u := "#A";
    assert HashRun(u, 1) == 0;
  }

  /** `exec` from `from`: the leftmost match starting at or after `from`. */
  function NextMatch(s: string, from: nat): (r: Option<HeadingMatch>)
    requires from <= |s|
    ensures r.Some? ==> from <= r.value.start <= |s| && MatchAt(s, r.value.start) == r
    decreases |s| - from
  {
    var m := MatchAt(s, from);
    if m.Some? then m
    else if from == |s| then None
    else NextMatch(s, from + 1)
  }

  /** `exec` finds the leftmost match: none starts between `from` and the one it returns, and none at all when it returns nothing. */
  lemma {:induction false} NextMatchLeftmost(s: string, from: nat, p: nat)
    requires from <= p <= |s|
    requires NextMatch(s, from).None? || p < NextMatch(s, from).value.start
    ensures MatchAt(s, p).None?
    decreases |s| - from
  {
    var m := MatchAt(s, from);
    if from < p && m.None? {
      assert NextMatch(s, from) == NextMatch(s, from + 1);
      NextMatchLeftmost(s, from + 1, p);
    }
  }

  /** The TOC entry a match gives: the `#` count shifted down by one, the trimmed caption and its slug. */
  function HeadingOf(m: HeadingMatch): (h: Heading)
    ensures h.level == m.hashes - 1
    ensures Trimmed(h.text) && h.slug == GenerateSlug(h.text)
    ensures h.text == [] <==> AllWs(m.caption)
    ensures exists a: nat :: TrimmedFrom(m.caption, h.text, a)
  {
    var text := Trim(m.caption);
    Heading(m.hashes - 1, text, GenerateSlug(text))
  }

  /** The headings one match contributes: none for a single `#`, else its entry. */
  function Step(m: HeadingMatch): (hs: seq<Heading>)
    ensures |hs| <= 1 && (hs != [] <==> m.hashes > 1)
  {
    if m.hashes > 1 then [HeadingOf(m)] else []
  }

  /** The headings the scan collects from `pos` on: matches in order, those with a single `#` skipped. */
  function Scan(s: string, pos: nat): (hs: seq<Heading>)
    requires pos <= |s|
    decreases |s| - pos
  {
    match NextMatch(s, pos)
    case None => []
    case Some(m) => Step(m) + Scan(s, m.end)
  }

  /** What the scan promises of each heading it collects. */
  predicate ScannedHeading(h: Heading) {
    1 <= h.level <= 5 && Trimmed(h.text) && h.slug == GenerateSlug(h.text)
  }

  /** Every collected heading has a level from 1 to 5, a trimmed text and that text's slug. */
  lemma {:induction false} ScanHeadings(s: string, pos: nat)
    requires pos <= |s|
    ensures forall i :: 0 <= i < |Scan(s, pos)| ==> ScannedHeading(Scan(s, pos)[i])
    decreases |s| - pos
  {
    var m := NextMatch(s, pos);
    if m.Some? {
      var head := Step(m.value);
      var rest := Scan(s, m.value.end);
      ScanHeadings(s, m.value.end);
      StepHeadings(m.value);
      ConcatHeadings(head, rest);
    }
  }

  lemma StepHeadings(m: HeadingMatch)
    requires m.hashes <= 6
    ensures forall i :: 0 <= i < |Step(m)| ==> ScannedHeading(Step(m)[i])
  {
  }

  lemma ConcatHeadings(a: seq<Heading>, b: seq<Heading>)
    requires forall i :: 0 <= i < |a| ==> ScannedHeading(a[i])
    requires forall i :: 0 <= i < |b| ==> ScannedHeading(b[i])
    ensures forall i :: 0 <= i < |a + b| ==> ScannedHeading((a + b)[i])
  {
  }

  /** One turn of the `exec` loop: the collected headings grow by what the next match contributes. */
  lemma ScanStep(s: string, pos: nat, before: seq<Heading>, after: seq<Heading>)
    requires pos <= |s| && NextMatch(s, pos).Some?
    requires after == before + Step(NextMatch(s, pos).value)
    ensures after + Scan(s, NextMatch(s, pos).value.end) == before + Scan(s, pos)
  {
    var m := NextMatch(s, pos).value;
    ConcatAssoc(before, Step(m), Scan(s, m.end));
  }

  /** The headings of a markdown text, flat and in document order. */
  function FlatHeadings(markdown: string): seq<Heading> {
    var clean := ReplaceFirst(markdown, Placeholder, "");
    Scan(clean, 0)
  }

  /** `extractHeadings` as a function: the nested headings. */
  function Headings(markdown: string): (f: seq<TocItem>)
    ensures Flatten(f) == FlatHeadings(markdown) && Nested(f)
  {
    Nest(FlatHeadings(markdown))
  }

  /**
    `extractHeadings`: removes the first placeholder, then calls `exec`
    until it finds no further match, each time resuming where the last
    match ended, collects the headings of two or more `#`, and nests them.
   */
  method ExtractHeadings(markdown: string) returns (forest: seq<TocItem>)
    ensures forest == Headings(markdown)
  {
    var clean := ReplaceFirst(markdown, Placeholder, "");
    ghost var all := Scan(clean, 0);
    var headings: seq<Heading> := [];
    var pos: nat := 0;
    while true
      invariant pos <= |clean|
      invariant headings + Scan(clean, pos) == all
      decreases |clean| - pos
    {
      ghost var before := headings;
      var m := NextMatch(clean, pos);
      if m.None? {
        break;
      }
      var level := m.value.hashes;
      var text := Trim(m.value.caption);
      var slug := GenerateSlug(text);
      if level > 1 {
        assert Heading(level - 1, text, slug) == HeadingOf(m.value);
        headings := headings + [Heading(level - 1, text, slug)];
      }
      assert headings == before + Step(m.value);
      ScanStep(clean, pos, before, headings);
      pos := m.value.end;
    }
    assert headings == all;
    var parents;
    forest, parents := NestHeadings(headings);
  }
}
