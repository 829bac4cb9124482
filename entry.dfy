/**
  The entry page: the body is the entry's markdown after `insertToc`, its
  reading time is estimated from that body's word count, and every
  rendered heading gets its label's slug as its `id`, the anchor the TOC
  links point to.
 */
module Entry {
  import opened Text
  import opened Slug
  import opened TocTree
  import opened TocExtract
  import opened TocRender
  import opened TocInsert

  const WordsPerMinute: nat := 200

  /**
    `content.trim().split(/\s+/).length`: the number of pieces between
    whitespace runs of the trimmed text; never below one, since splitting
    the empty string gives one empty piece.
   */
  function WordCount(content: string): (w: nat)
    ensures w >= 1
  {
    |SplitWs(Trim(content))|
  }

  /** The count is the number of words, except that text with no words still counts one. */
  lemma WordCountRuns(content: string)
    ensures WordCount(content) == if AllWs(content) then 1 else |Runs(content)|
  {
    if AllWs(content) {
      assert Trim(content) == [];
      assert NextWs([], 0) == 0;
    } else {
      SplitTrimmedIsRuns(content);
    }
  }

  /** Rounding a positive count of words up to whole minutes. */
  lemma CeilMinutes(w: nat)
    requires w >= 1
    ensures var m := (w + WordsPerMinute - 1) / WordsPerMinute;
      m >= 1 && (m - 1) * WordsPerMinute < w <= m * WordsPerMinute
  {
    var m := (w + 199) / 200;
    var r := (w + 199) % 200;
    assert w + 199 == m * 200 + r;
  }

  /**
    `calculateReadingTime`: `Math.ceil(words / 200)`, the least number of
    whole minutes in which the words can be read at 200 a minute.
   */
  function ReadingTime(content: string): (minutes: nat)
    ensures minutes >= 1
    ensures (minutes - 1) * WordsPerMinute < WordCount(content) <= minutes * WordsPerMinute
  {
    var w := WordCount(content);
    CeilMinutes(w);
    (w + WordsPerMinute - 1) / WordsPerMinute
  }

  /** One minute for up to 200 words (and for text with none), two for 201 to 400. */
  lemma ReadingTimeBands(content: string)
    ensures AllWs(content) ==> ReadingTime(content) == 1
    ensures WordCount(content) <= 200 ==> ReadingTime(content) == 1
    ensures 200 < WordCount(content) <= 400 ==> ReadingTime(content) == 2
  {
    WordCountRuns(content);
  }

  /** More words never take less time. */
  lemma ReadingTimeMonotone(a: string, b: string)
    requires WordCount(a) <= WordCount(b)
    ensures ReadingTime(a) <= ReadingTime(b)
  {
    var ma := ReadingTime(a);
    var mb := ReadingTime(b);
    assert (ma - 1) * WordsPerMinute < mb * WordsPerMinute;
  }

  /** The body the page renders: `insertToc` on the entry's markdown, with the default title. */
  function EntryContent(raw: string, titleSpan: Option<Span>): (content: string)
    ensures !Contains(raw, Placeholder) ==> content == raw
  {
    InsertTocSpec(raw, None, titleSpan)
  }

  /** The reading time of the page: estimated on the body after the TOC is inserted. */
  function EntryReadingTime(raw: string, titleSpan: Option<Span>): (minutes: nat)
    ensures minutes >= 1 && minutes == ReadingTime(EntryContent(raw, titleSpan))
    ensures !Contains(raw, Placeholder) ==> minutes == ReadingTime(raw)
  {
    ReadingTime(EntryContent(raw, titleSpan))
  }

  /**
    The `id` of a rendered `h1` to `h6`: the slug of its text, the same for
    every level; free of whitespace, with no doubled, leading or trailing
    hyphen.
   */
  function HeadingId(text: string): (id: string)
    ensures NoWs(id) && HyphenTidy(id)
  {
    GenerateSlug(text)
  }

  /** The link target of a TOC anchor. */
  function Href(id: string): string {
    "href=\"#" + id + "\""
  }

  lemma AnchorHasHref(h: Heading)
    ensures Infix(Anchor(h), Href(h.slug))
  {
    var a := Anchor(h);
    assert a == "<li><a " + Href(h.slug) + ">" + h.text + "</a>";
    assert a[7..7 + |Href(h.slug)|] == Href(h.slug);
    assert OccursAt(a, Href(h.slug), 7);
  }

  /**
    The TOC links point at the headings: for every heading the TOC lists,
    the page holds a link to `#` followed by the `id` its heading element
    gets.
   */
  lemma TocLinksTargetHeadingIds(raw: string, titleSpan: Option<Span>, i: nat)
    requires Infix(raw, Placeholder)
    requires i < |FlatHeadings(Preprocess(raw, titleSpan))|
    ensures var h := FlatHeadings(Preprocess(raw, titleSpan))[i];
      Infix(EntryContent(raw, titleSpan), Href(HeadingId(h.text)))
  {
    var processed := Preprocess(raw, titleSpan);
    var clean := ReplaceFirst(processed, Placeholder, "");
    var h := FlatHeadings(processed)[i];
    ScanHeadings(clean, 0);
    assert ScannedHeading(h);
    InsertTocLinks(raw, None, titleSpan, i);
    AnchorHasHref(h);
    InfixTrans(EntryContent(raw, titleSpan), Anchor(h), Href(h.slug));
  }
}
