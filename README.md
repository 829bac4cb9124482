# ikam reader core, modelled in Dafny

This project models the text-processing core of the ikam blog reader, a React
client for a blog's entries. It is modelled in four parts.

- **The table of contents** (`src/lib/toc-generator.ts`):
  - `generateSlug` turns a heading label into an anchor id.
  - `extractHeadings` scans markdown with the multiline heading regex. It drops
    `#` headings, and every other level drops by one (`##` becomes level 1,
    `###` level 2).
  - `nestHeadings` arranges the flat headings into a forest with a stack of
    open entries.
  - `renderTocMarkdown` / `generateToc` render that forest as nested `<li>`
    items.
  - `insertToc` replaces the first `<!-- toc -->` placeholder with a titled
    container. First it folds title headings and blank lines into the
    placeholder.
- **Search keywords on the home page** (`src/pages/HomePage.tsx`):
  - The quote-aware tokenizer is shared by `parseSearchParam` and
    `handleSearchSubmit`.
  - Adding, removing and clearing keywords.
  - The `search` URL parameter and the query string built from the keyword
    list.
- **The entry page** (`src/pages/EntryPage.tsx`):
  - The body is `insertToc` applied to the raw markdown.
  - The reading time is the body's word count over 200, rounded up.
  - Each rendered heading's `id` is the slug of its label.
- **The category breadcrumb** (`src/components/CategoryList.tsx`): one link per
  category, whose filter is the comma-joined path of names up to that category.

## Modules and files

- `text.dfy` (module `Text`): the JavaScript string primitives the source uses:
  - the `\s` class and `trim`;
  - `split(/\s+/)`;
  - `indexOf` and `includes`;
  - the first-occurrence `replace` with a string pattern;
  - `join`.
- `slug.dfy` (modules `Slug`, `SlugFacts`): `generateSlug`, one function per
  `replace` step, and the facts proved about it.
- `toc_tree.dfy` (module `TocTree`): TOC entries, the nesting predicate,
  `Nest` as a recursive reference definition, and the stack-based method.
- `toc_extract.dfy` (module `TocExtract`): the heading regex and the `exec`
  loop.
- `toc_render.dfy` (module `TocRender`): rendering.
- `toc_insert.dfy` (module `TocInsert`): the rewrites and `insertToc`.
- `search.dfy` (module `Search`): keywords.
- `entry.dfy` (module `Entry`): the entry page.
- `categories.dfy` (module `Categories`): the breadcrumb.

### How each part is modelled

Loops that build a result become methods proved equal to a specification
function:

- `extractHeadings`' `exec` loop;
- `nestHeadings`' stack and its pop loop;
- `renderTocMarkdown`'s accumulation;
- the tokenizer loop;
- `insertToc` itself.

The properties the source promises are proved as lemmas about those functions.

### Regexes

Regexes are modelled by what they match:

- **The heading regex** `^(#{1,6})\s+(.+)$` (flags `gm`) is `MatchAt`.
  - Its greedy `\s+` takes the whole whitespace run, line breaks included.
  - When that run reaches the end of the input, `\s+` backtracks so that `.+`
    can take the last character that is not a line terminator.
- **The quote regex** `/(["'])(.*?)\1/g` is `NextQuote`.
  - The earliest opening quote whose closing twin comes before any line
    terminator wins.
  - The scan resumes after the closing quote.

### The heading regex next to CommonMark's ATX headings

The heading regex is not the ATX heading rule of the CommonMark
specification (section 4.2, "ATX headings"). Under that rule a heading's
content ends with its line, and an opening `#` run with nothing after it is
an empty heading. The code differs in two ways:

- Its `\s+` accepts any whitespace, a line break included, so a bare `##`
  line takes the next line as its label.
- A label made only of spaces matches only when nothing but whitespace
  follows it to the end of the input. Then `\s+` gives one space back to
  `.+`, and the entry's text trims to the empty string. When any other
  character follows, on a later line, `\s+` crosses the line break and that
  line becomes the label: `"##  \nA"` gives the label `A`.

`TocExtract.MatchExamples` shows each case.

## Model

| member | source | states |
|---|---|---|
| Text.Trim | src/pages/HomePage.tsx:29 | `trim()`: the result is a slice of the input with only whitespace before and after it; it starts and ends with a non-whitespace character; it is empty exactly when the input is all whitespace; trimmed input is returned unchanged |
| Text.SplitTrimmedIsRuns | src/pages/EntryPage.tsx:188 | `trim().split(/\s+/)` of a text with a non-whitespace character is exactly its maximal whitespace-free runs, in order |
| Text.ReplaceFirst | src/lib/toc-generator.ts:55 | `replace` with a string pattern: unchanged when the pattern is absent; otherwise the first occurrence (the one `indexOf` finds) is cut out and the replacement is put in its place |
| Text.IndexFrom | src/lib/toc-generator.ts:144 | the search behind `includes`/`indexOf`: a returned index is an occurrence with none before it from the start point; none is returned only when no occurrence exists |
| Text.ContainsIff | src/lib/toc-generator.ts:144 | `includes` holds exactly when the pattern occurs somewhere in the text |
| Text.JoinSnoc | src/components/CategoryList.tsx:31 | joining one more name appends the separator and that name |
| Slug.GenerateSlug | src/lib/toc-generator.ts:27-45 | every slug is hyphen-tidy (no doubled, leading or trailing hyphen) and whitespace-free; a CJK text's slug only holds word characters, U+3000 to U+9FFF and hyphens; any other text's slug only holds lower-case ASCII letters, digits and hyphens |
| Slug.TrimHyphens | src/lib/toc-generator.ts:35 | `replace(/^-+\|-+$/g, '')`: the result is a slice of the input with only hyphens before and after it, so the interior is kept as it is; neither end of the result is a hyphen; no doubled hyphen is introduced |
| Slug.Collapse | src/lib/toc-generator.ts:42-43 | `replace(/P+/g, c)`: when `c` is in the class, no two neighbours of the result both belong to it |
| Slug.CollapseWord | src/lib/toc-generator.ts:42-43 | a stretch with no character of the class is copied unchanged, and a run after it starts afresh |
| Slug.CollapseRun | src/lib/toc-generator.ts:42-43 | a maximal run of the class becomes the single character `c` in its place, or nothing when it continues a run already replaced; the text after it is collapsed on its own |
| Slug.Keep | src/lib/toc-generator.ts:41 | `replace(/[^K]/g, '')`: only characters of the class remain; a text made only of class characters comes back whole; a text without any comes back empty; the result is no longer than the input |
| Slug.KeepConcat | src/lib/toc-generator.ts:41 | filtering a text is filtering its two parts and putting the results side by side, so every class character is kept, in order |
| Slug.LowerAscii | src/lib/toc-generator.ts:40 | `toLowerCase` on ASCII: same length, each letter lowered and every other character kept |
| SlugFacts.CollapseWords | src/lib/toc-generator.ts:32 | collapsing the whitespace runs of a hyphen-free text that starts with a word gives its words joined by single hyphens, plus one hyphen when the text ends in whitespace; no hyphen is doubled |
| SlugFacts.WordsSlug | src/lib/toc-generator.ts:32-35 | on a hyphen-free text, turning whitespace runs into `-` and trimming hyphens joins its words with single hyphens |
| SlugFacts.LatinSlugOfWords | src/lib/toc-generator.ts:39-44 | a non-CJK text without `_` or `-` slugs to the words of its lower-cased kept characters, joined by single hyphens |
| SlugFacts.LatinSlugWords | src/lib/toc-generator.ts:39-44 | a non-CJK text of ASCII letters, digits and whitespace slugs to its lower-cased words joined by single hyphens |
| SlugFacts.CjkSlugWords | src/lib/toc-generator.ts:29-35 | a CJK text of kept characters and whitespace slugs to its words, case kept, joined by single hyphens |
| SlugFacts.CollapseTwice | src/lib/toc-generator.ts:42-43 | replacing `[\s_]+` by `-` and then `-+` by `-` is replacing every run of `[\s_-]` by a single `-` |
| SlugFacts.CollapseKeepCjk | src/lib/toc-generator.ts:32-34 | replacing `\s+` by `-`, dropping the characters outside the kept class, then merging `-+` gives what dropping first and then replacing every run of `[\s-]` by one `-` gives |
| SlugFacts.CollapseBlanked | src/lib/toc-generator.ts:42 | replacing the runs of a wider separator class is replacing whitespace runs once the extra separators read as spaces |
| SlugFacts.LatinSlugSplit | src/lib/toc-generator.ts:39-44 | every non-CJK text slugs to the words of its lower-cased kept characters, split at runs of whitespace, `_` and `-`, joined by single hyphens |
| SlugFacts.CjkSlugSplit | src/lib/toc-generator.ts:29-35 | every CJK text slugs to the words of its kept characters, split at runs of whitespace and `-` once the dropped characters are gone, joined by single hyphens |
| SlugFacts.HelloWorldSlug | src/lib/toc-generator.ts:27-45 | `Hello World!` gives `hello-world` |
| SlugFacts.LatinSlugContent | src/lib/toc-generator.ts:39-44 | a non-CJK slug spells out exactly the text's ASCII letters and digits, lower-cased, in order; only hyphens are added |
| SlugFacts.CjkSlugContent | src/lib/toc-generator.ts:29-35 | a CJK slug keeps exactly the text's word and CJK-block characters (other than whitespace and hyphens), in order and with their case; only hyphens are added |
| SlugFacts.LatinSlugIdempotent | src/lib/toc-generator.ts:39-44 | slugging a non-CJK text's slug again gives the same slug |
| SlugFacts.CjkSlugIdempotent | src/lib/toc-generator.ts:29-35 | a CJK slug that still holds a CJK character is its own slug |
| SlugFacts.IdeographicSpaceSlug | src/lib/toc-generator.ts:29-44 | the ideographic space selects the CJK branch, which keeps case (`"　A"` gives `A`); slugging that slug takes the Latin branch (`A` gives `a`), so slugs are not idempotent in general |
| TocTree.Nest | src/lib/toc-generator.ts:82-105 | the nested forest as a recursive reference definition: flattening it in pre-order gives back the headings, and it is well nested |
| TocTree.ParentOf | src/lib/toc-generator.ts:88-98 | a heading's parent is the nearest earlier heading of a lower level, or none (-1): everything in between is at least as deep |
| TocTree.SameLevelSiblings | src/lib/toc-generator.ts:88-98 | two adjacent headings of equal level share their parent |
| TocTree.NestedUnique | src/lib/toc-generator.ts:82-105 | a well-nested forest is determined by its pre-order headings, so the nesting of a heading sequence is unique |
| TocTree.FlattenConcat | src/lib/toc-generator.ts:94 | appending root entries appends their headings |
| TocTree.CloseDeeper | src/lib/toc-generator.ts:88-90 | the pop loop leaves a prefix of the stack; every popped entry is at least as deep as the new heading, and the remaining top is shallower |
| TocTree.NestHeadings | src/lib/toc-generator.ts:82-105 | `nestHeadings`: the forest flattens back to the input, is well nested and equals `Nest`; each heading was attached to the root or to the stack top exactly as `ParentOf` says |
| TocExtract.LineEnd | src/lib/toc-generator.ts:10 | `$` with the `m` flag: the first line terminator at or after the index, or the end of the input |
| TocExtract.MatchAt | src/lib/toc-generator.ts:10 | a match starts at the given index, has 1 to 6 `#` and ends after them |
| TocExtract.MatchShape | src/lib/toc-generator.ts:10 | a match is a line start, its `#` run, a non-empty whitespace run, then a non-empty caption without line terminators that runs to the end of its line; the caption starts with a non-whitespace character unless everything after the `#` run is whitespace, and then it is the single last character that is not a line terminator, followed only by line terminators |
| TocExtract.MatchAtIff | src/lib/toc-generator.ts:10 | the regex matches at an index exactly when it starts a line, 1 to 6 `#` (and no more) follow, then whitespace, and later some character that is not a line terminator |
| TocExtract.SevenHashesNeverMatch | src/lib/toc-generator.ts:10 | seven or more `#` never match |
| TocExtract.MatchExamples | src/lib/toc-generator.ts:10 | a bare `##` line takes the next line as its caption; an all-space caption matches at the end of the input, and before a later line of text takes that text instead; `#A` does not match |
| TocExtract.NextMatch | src/lib/toc-generator.ts:60 | `exec` from `lastIndex`: the result is a match at or after the start point |
| TocExtract.NextMatchLeftmost | src/lib/toc-generator.ts:60 | `exec` returns the leftmost match: none starts between the start point and the one returned, and none at all when nothing is returned |
| TocExtract.HeadingOf | src/lib/toc-generator.ts:61-63 | the entry's level is the `#` count minus one, its text is the caption with only whitespace cut from either end and is itself trimmed, its slug is that text's slug; the text is empty exactly when the caption is all whitespace |
| TocExtract.Step | src/lib/toc-generator.ts:66-73 | a match contributes one entry when it has two or more `#`, and none otherwise |
| TocExtract.ScanHeadings | src/lib/toc-generator.ts:60-74 | every collected heading has a level from 1 to 5, a trimmed text and that text's slug |
| TocExtract.ScanStep | src/lib/toc-generator.ts:60-74 | one turn of the `exec` loop keeps the collected headings plus those still to come equal to the whole scan |
| TocExtract.Headings | src/lib/toc-generator.ts:50-77 | the extracted forest flattens to the headings scanned after the placeholder is removed, and is well nested |
| TocExtract.ExtractHeadings | src/lib/toc-generator.ts:50-77 | `extractHeadings`: the `exec` loop with the placeholder removed, then `nestHeadings`, yields exactly `Headings` |
| TocRender.Render | src/lib/toc-generator.ts:110-128 | a forest renders to the empty string exactly when it is empty |
| TocRender.Item | src/lib/toc-generator.ts:117-124 | an entry's HTML starts with its anchor and ends with `</li>\n`; it is exactly those two parts when the entry has no children |
| TocRender.RenderConcat | src/lib/toc-generator.ts:115-125 | the HTML of two sibling forests side by side is their two HTMLs side by side |
| TocRender.RenderCons | src/lib/toc-generator.ts:115-125 | a forest's HTML is its first entry's item followed by the rest's HTML |
| TocRender.RenderLinks | src/lib/toc-generator.ts:117-122 | every heading of the forest, at any depth, has its link in the HTML |
| TocRender.ItemLinks | src/lib/toc-generator.ts:117-122 | an entry's item holds its own link and the links of all its descendants |
| TocRender.RenderToc | src/lib/toc-generator.ts:110-128 | `renderTocMarkdown`: the loop that appends items, with a recursive call for children, produces `Render` |
| TocRender.GenerateToc | src/lib/toc-generator.ts:133-135 | `generateToc` renders the forest; the result is empty exactly when there are no headings |
| TocInsert.FoldTitleHeading | src/lib/toc-generator.ts:154-158 | folding a title heading into the placeholder keeps a placeholder in the text |
| TocInsert.MatchEnd | src/lib/toc-generator.ts:155-162 | a match ends with the placeholder, after a run of whitespace only; a blank-line match starts with `\n` or `\r\n`; a bold-title match starts with `**Table of Contents**` or `**目次**` and its whitespace run holds a `\n` |
| TocInsert.Replacement | src/lib/toc-generator.ts:157-162 | both rewrites' replacements hold the placeholder |
| TocInsert.ReplaceAllCopies | src/lib/toc-generator.ts:157-162 | a global `replace` copies unchanged any stretch where no match starts |
| TocInsert.ReplaceAllKeeps | src/lib/toc-generator.ts:157-162 | a global `replace` keeps any occurrence of a pattern that no match starts inside, when the replacement holds that pattern too |
| TocInsert.MatchBold | src/lib/toc-generator.ts:155 | a bold-title match starts with `**Table of Contents**` or `**目次**`, then a whitespace run holding a `\n`, then the placeholder |
| TocInsert.MatchBlank | src/lib/toc-generator.ts:162 | a blank-line match starts with `\n` or `\r\n`, then whitespace only, then the placeholder |
| TocInsert.MatchEndComplete | src/lib/toc-generator.ts:155-162 | conversely, a start the pattern accepts followed by whitespace only (holding a `\n` after a bold title) and the placeholder is a match ending after that placeholder |
| TocInsert.NoMatchAt | src/lib/toc-generator.ts:155-162 | no rewrite match starts at a character other than `*`, `\r` or `\n` |
| TocInsert.ApplyKeepsPlaceholder | src/lib/toc-generator.ts:157-162 | each global rewrite keeps a placeholder in the text |
| TocInsert.PreprocessKeepsPlaceholder | src/lib/toc-generator.ts:157-162 | the three rewrites together keep a placeholder in the text |
| TocInsert.TocTitle | src/lib/toc-generator.ts:174-181 | the title is the one given unless it is absent or empty; otherwise it is `目次` exactly when the text holds a CJK character, and `Table of Contents` exactly when it does not |
| TocInsert.InsertToc | src/lib/toc-generator.ts:142-187 | `insertToc`: the early return, the rewrites, extraction, rendering, the empty case and the titled container, yielding `InsertTocSpec` |
| TocInsert.InsertTocWithoutPlaceholder | src/lib/toc-generator.ts:144-146 | without a placeholder the markdown comes back unchanged |
| TocInsert.FirstPlaceholder | src/lib/toc-generator.ts:169-186 | after the rewrites there is a placeholder, and `indexOf` finds its first occurrence |
| TocInsert.InsertTocWithoutHeadings | src/lib/toc-generator.ts:169-171 | with no headings, the result is the rewritten text with its first placeholder cut out and no container |
| TocInsert.InsertTocWithHeadings | src/lib/toc-generator.ts:174-186 | with headings, the first placeholder of the rewritten text is replaced by the container, titled as `TocTitle` says and holding the rendered forest; the rest of the text is kept |
| TocInsert.InsertTocLinks | src/lib/toc-generator.ts:165-186 | every heading extracted from the rewritten text has its link in the result |
| Search.DedupSpec | src/pages/HomePage.tsx:58 | `[...new Set(xs)]` has no duplicates and exactly the members of `xs` |
| Search.DedupPrefix | src/pages/HomePage.tsx:108 | deduplicating a longer list keeps the deduplication of its prefix as a prefix, since first occurrences come first |
| Search.DedupOfNoDup | src/pages/HomePage.tsx:108 | a list without duplicates is its own deduplication |
| Search.FilterMembers | src/pages/HomePage.tsx:105 | `filter` keeps exactly the members that pass the test, is no longer than its input, and filters any split of its input part by part, so the kept members stay in order |
| Search.FilterConcat | src/pages/HomePage.tsx:105 | filtering two lists put together is filtering each and putting the results together |
| Search.FilterNoDup | src/pages/HomePage.tsx:123 | filtering a list without duplicates gives a list without duplicates |
| Search.FilterAll | src/pages/HomePage.tsx:58 | filtering with a test every element passes changes nothing |
| Search.CloseQuote | src/pages/HomePage.tsx:32 | the lazy `(.*?)\1` stops at the first twin of the opening quote, crossing no line terminator; it finds none exactly when every twin has a line terminator before it |
| Search.QuoteAt | src/pages/HomePage.tsx:32 | a quote match starting here opens with `"` or `'` and closes with the first same character, with no line terminator between; there is none when the text does not open with a quote or every twin has a line terminator before it |
| Search.NextQuote | src/pages/HomePage.tsx:37 | the match `exec` finds has its opening quote before its closing one, both inside the text |
| Search.NextQuoteLeftmost | src/pages/HomePage.tsx:37 | the match `exec` finds is a quote match at its opening index and no quote match starts before it; when it finds none, no quote match starts anywhere |
| Search.Tokenize | src/pages/HomePage.tsx:31-55 | the tokenizer loop yields exactly `Tokens`: the whitespace runs before each quoted match, the match's inner text, and the runs after the last match |
| Search.TokenizeStep | src/pages/HomePage.tsx:39-48 | one turn of the quote loop keeps the keywords so far plus the tokens of the rest equal to the tokens of the whole input |
| Search.SplitWords | src/pages/HomePage.tsx:39-55 | `trim`, the emptiness test and `split(/\s+/)` together append exactly the whitespace-free runs of the text |
| Search.ParseSearch | src/pages/HomePage.tsx:25-59 | an absent or empty parameter gives no keywords |
| Search.ParseSearchClean | src/pages/HomePage.tsx:58 | parsed keywords are never empty and never repeat |
| Search.ParseSearchParam | src/pages/HomePage.tsx:25-59 | `parseSearchParam`: trims, tokenizes, drops empty keywords and deduplicates, yielding `ParseSearch` |
| Search.HandleSearchSubmit | src/pages/HomePage.tsx:76-119 | `handleSearchSubmit` yields the `Submit` state |
| Search.SubmitKeepsKeywords | src/pages/HomePage.tsx:76-119 | submitting keeps the existing keywords as a prefix and never repeats one; a whitespace-only input changes nothing; otherwise the input is cleared and the keywords are exactly the old ones plus the non-empty tokens of the input |
| Search.RemoveKeywordSpec | src/pages/HomePage.tsx:122-126 | removing a keyword drops it and keeps every other keyword; removal works on any split of the list part by part, so the others keep their order; a list without duplicates stays so; removing an absent keyword changes nothing |
| Search.Quoted | src/pages/HomePage.tsx:161-164 | each keyword is quoted exactly when it holds a space |
| Search.SearchParam | src/pages/HomePage.tsx:159-167 | the `search` parameter is removed exactly when no keywords remain |
| Search.SearchQuery | src/pages/HomePage.tsx:186-195 | for a non-empty keyword list the query is sent exactly when the search string is non-empty, and is then the search string; no keywords means no query |
| Search.SearchQueryPresent | src/pages/HomePage.tsx:186-195 | a non-empty list of plain keywords always sends its search string as the query |
| Search.Clear | src/pages/HomePage.tsx:143-151 | clearing empties the keywords and the input and removes the `search` parameter |
| Search.RunsSeparate | src/pages/HomePage.tsx:164 | `split(/\s+/)` splits a joined string at a separating space, or after a whole word followed by whitespace, into the runs of each side |
| Search.TokensQuoted | src/pages/HomePage.tsx:161-163 | a keyword quoted by the serializer reads back as one token |
| Search.TokensOfSearchString | src/pages/HomePage.tsx:159-166 | tokenizing the search string of plain keywords gives the keywords back |
| Search.ParseSearchParamRoundTrip | src/pages/HomePage.tsx:25-59 | writing a list of distinct plain keywords to the `search` parameter and parsing it back gives the same list |
| Search.TabKeywordSplits | src/pages/HomePage.tsx:161-163 | a keyword holding a tab but no space is written unquoted and reads back as two keywords |
| Entry.WordCount | src/pages/EntryPage.tsx:188 | the word count is never below one, since splitting the empty string gives one piece |
| Entry.WordCountRuns | src/pages/EntryPage.tsx:188 | the count is the number of whitespace-free runs, except that a text without words counts one |
| Entry.ReadingTime | src/pages/EntryPage.tsx:187-191 | the reading time is at least one minute and is the least number of whole minutes for the word count at 200 words a minute |
| Entry.ReadingTimeBands | src/pages/EntryPage.tsx:189 | up to 200 words take one minute, 201 to 400 take two |
| Entry.ReadingTimeMonotone | src/pages/EntryPage.tsx:187-191 | more words never take less time |
| Entry.EntryContent | src/pages/EntryPage.tsx:251 | the body is the raw markdown when it has no placeholder |
| Entry.EntryReadingTime | src/pages/EntryPage.tsx:251-253 | the reading time is measured on the body after `insertToc`; without a placeholder that is the raw markdown |
| Entry.HeadingId | src/pages/EntryPage.tsx:344-373 | every heading id is whitespace-free and hyphen-tidy |
| Entry.AnchorHasHref | src/lib/toc-generator.ts:117 | a TOC anchor holds `href="#` followed by its slug |
| Entry.TocLinksTargetHeadingIds | src/pages/EntryPage.tsx:344-373 | for every heading the TOC lists, the body holds a link to `#` followed by the `id` its heading element gets |
| Categories.Names | src/components/CategoryList.tsx:30 | `map(cat => cat.name)`: one name per category, in order |
| Categories.CategoryList | src/components/CategoryList.tsx:19-48 | nothing is rendered exactly when the categories are absent or empty; otherwise there is one item per category, with its name, in order; a `/` precedes an item exactly when separators are on and it is not the first; each item links to `/?category=` followed by its hierarchical filter, the names up to and including it joined with commas (FilterFirst, FilterNext, FilterLast) |
| Categories.FilterFirst | src/components/CategoryList.tsx:14-31 | the first item filters by its own name |
| Categories.FilterNext | src/components/CategoryList.tsx:14-31 | each later item's filter is the previous item's filter, a comma and its own name |
| Categories.FilterLast | src/components/CategoryList.tsx:28-31 | the last item filters by all names joined with commas |
| Categories.FilterPrefix | src/components/CategoryList.tsx:14-31 | an item's filter is a prefix of every later item's filter |

## Left out

- The title-heading pattern `mdHeadingPattern` (a lazy, multiline regex with a negative lookahead) is not modelled as a matcher. `TocInsert.FoldTitleHeading` takes its match as a parameter and applies the replacement. A span that does not end with the placeholder cannot be such a match, so it is ignored.
- Replacement strings are taken literally. JavaScript's `$` patterns (`$&`, `$1`, `$$`) in the container's title or in TOC text are not expanded.
- Slug.Keep: its own contract does not state the order of the kept characters; `Slug.KeepConcat` does.
- Slug.Collapse: its own contract states only that no two class characters end up side by side; what a run becomes and what is copied are stated by `Slug.CollapseWord` and `Slug.CollapseRun`.
- `toLowerCase` is modelled for ASCII letters only. Other scripts' case mappings are not modelled.
- Strings are sequences of characters, not UTF-16 code units. Surrogate pairs and the lengths JavaScript would report for them are not modelled.
- `\w` is the ASCII word class and `\s` is JavaScript's whitespace class, as sets of characters.
- TocTree.NestHeadings: modelled on values. The source appends children to objects that the stack and the forest share. The model instead attaches each heading to the open entry at its depth, so the aliasing itself is not represented. The `parents` result records each root-or-stack-top decision.
- `renderTocMarkdown`'s `indent` argument is passed down but never read, so it is left out.
- The two tokenizer loops in `HomePage.tsx` (in `parseSearchParam` at line 37 and in `handleSearchSubmit` at line 89) are the same code. One method, `Search.Tokenize`, models both. The loop variables are kept, and the remaining input is read as a suffix.
- The three serializers in `HomePage.tsx` (lines 132-134, 161-164 and 189-192) are the same code. `Search.Quoted` and `Search.SearchString` model all three.
- Search.ParseSearchParamRoundTrip: holds only for distinct keywords that are non-empty, hold no quote character and whose only whitespace is the plain space. Other keywords are not guaranteed to survive the round trip:
  - A keyword with a tab or line break but no space is written unquoted and splits (`Search.TabKeywordSplits`).
  - A keyword with quote characters can be re-tokenized differently, for instance when it holds two of the same quote character.
  - Duplicates are merged.
  - Empty keywords are dropped.
- URL handling is left out:
  - `URLSearchParams` encoding and decoding;
  - `navigate`;
  - the `category` and `tag` parameters;
  - the pagination of the entry query.
  The model works on the decoded `search` value and the query string.
- React rendering, state hooks, effects and their timing are left out. `Search.SearchBox` is the keywords and the input field. Each handler is a function from state to state.
- Network requests, dates, the clipboard, local storage and theming are outside the core and left out.
- The heading components take their label through `String(children)`. For a heading with inline markup that string is not the raw caption. `Entry.TocLinksTargetHeadingIds` assumes the rendered headings' labels are the texts the TOC extracted.
- Slugs are not deduplicated in the source. Two headings with the same text share an anchor, and the model keeps that behaviour.
- React `key` attributes, CSS classes and the badge components are presentation only and are left out.
