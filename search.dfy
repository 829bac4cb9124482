/**
  The home page's search keywords: the tokenizer that turns a query (from
  the `search` URL parameter or the search box) into keywords, where a run
  between matching quotes is one keyword; the de-duplication that keeps
  first occurrences; adding and removing keywords; and the serialization
  that writes the keywords back, quoting those that contain a space.
 */
module Search {
  import opened Text

  /* ----- Order-keeping de-duplication: `[...new Set(xs)]` ----- */

  predicate NoDup<T(==)>(xs: seq<T>) {
    forall i, j :: 0 <= i < j < |xs| ==> xs[i] != xs[j]
  }

  /** The elements of `xs` in order of first occurrence, each once. */
  function Dedup<T(==)>(xs: seq<T>): seq<T>
    decreases |xs|
  {
    if xs == [] then []
    else
      var d := Dedup(xs[..|xs| - 1]);
      if xs[|xs| - 1] in d then d else d + [xs[|xs| - 1]]
  }

  /** The result has no duplicates and holds exactly the elements of the input. */
  lemma {:induction false} DedupSpec<T>(xs: seq<T>)
    ensures NoDup(Dedup(xs))
    ensures forall x :: x in Dedup(xs) <==> x in xs
    decreases |xs|
  {
    if xs != [] {
      var init := xs[..|xs| - 1];
      DedupSpec(init);
      assert xs == init + [xs[|xs| - 1]];
    }
  }

  /** Appending elements never disturbs what is already there: `Dedup(a)` is a prefix of `Dedup(a + b)`. */
  lemma {:induction false} DedupPrefix<T>(a: seq<T>, b: seq<T>)
    ensures Dedup(a) <= Dedup(a + b)
    decreases |b|
  {
    if b == [] {
      assert a + b == a;
    } else {
      var c := a + b;
      assert c[..|c| - 1] == a + b[..|b| - 1];
      DedupPrefix(a, b[..|b| - 1]);
    }
  }

  /** A list without duplicates is its own de-duplication. */
  lemma {:induction false} DedupOfNoDup<T>(xs: seq<T>)
    requires NoDup(xs)
    ensures Dedup(xs) == xs
    decreases |xs|
  {
    if xs != [] {
      var init := xs[..|xs| - 1];
      assert NoDup(init);
      DedupOfNoDup(init);
      assert xs[|xs| - 1] !in init;
      assert xs == init + [xs[|xs| - 1]];
    }
  }

  /* ----- Filtering ----- */

  /** `xs.filter(keep)`. */
  function Filter(xs: seq<string>, keep: string -> bool): seq<string>
    decreases |xs|
  {
    if xs == [] then []
    else (if keep(xs[0]) then [xs[0]] else []) + Filter(xs[1..], keep)
  }

  /**
    The filter keeps exactly the elements `keep` accepts, and no more than
    there were; it works piece by piece, so what it keeps stays in its
    original order.
   */
  lemma FilterMembers(xs: seq<string>, keep: string -> bool)
    ensures forall x :: x in Filter(xs, keep) <==> x in xs && keep(x)
    ensures |Filter(xs, keep)| <= |xs|
    ensures forall i :: 0 <= i <= |xs| ==> Filter(xs, keep) == Filter(xs[..i], keep) + Filter(xs[i..], keep)
  {
    FilterIn(xs, keep);
    forall i | 0 <= i <= |xs| ensures Filter(xs, keep) == Filter(xs[..i], keep) + Filter(xs[i..], keep) {
      FilterConcat(xs[..i], xs[i..], keep);
      assert xs[..i] + xs[i..] == xs;
    }
  }

  /** What the filter keeps, element by element. */
  lemma {:induction false} FilterIn(xs: seq<string>, keep: string -> bool)
    ensures forall x :: x in Filter(xs, keep) <==> x in xs && keep(x)
    ensures |Filter(xs, keep)| <= |xs|
    decreases |xs|
  {
    if xs != [] {
      FilterIn(xs[1..], keep);
      assert xs == [xs[0]] + xs[1..];
    }
  }

  /** Filtering a concatenation filters each part. */
  lemma {:induction false} FilterConcat(a: seq<string>, b: seq<string>, keep: string -> bool)
    ensures Filter(a + b, keep) == Filter(a, keep) + Filter(b, keep)
    decreases |a|
  {
    if a == [] {
      assert a + b == b;
    } else {
      assert (a + b)[0] == a[0] && (a + b)[1..] == a[1..] + b;
      FilterConcat(a[1..], b, keep);
    }
  }

  /** The filter keeps the relative order and so keeps a list free of duplicates. */
  lemma {:induction false} FilterNoDup(xs: seq<string>, keep: string -> bool)
    requires NoDup(xs)
    ensures NoDup(Filter(xs, keep))
    decreases |xs|
  {
    if xs != [] {
      assert NoDup(xs[1..]);
      FilterNoDup(xs[1..], keep);
      FilterMembers(xs[1..], keep);
      assert xs[0] !in xs[1..];
    }
  }

  /** When every element is accepted, the filter changes nothing. */
  lemma {:induction false} FilterAll(xs: seq<string>, keep: string -> bool)
    requires forall i :: 0 <= i < |xs| ==> keep(xs[i])
    ensures Filter(xs, keep) == xs
    decreases |xs|
  {
    if xs != [] {
      FilterAll(xs[1..], keep);
    }
  }

  /** `keywords.filter(keyword => keyword.length > 0)`. */
  function NonEmpty(xs: seq<string>): seq<string> {
    Filter(xs, x => x != [])
  }

  /* ----- The quote-aware tokenizer ----- */

  predicate IsQuote(c: char) {
    c == '"' || c == '\''
  }

  /** A line terminator comes somewhere before index `k` of `t`. */
  predicate BreakBefore(t: string, k: nat) {
    exists j :: 0 <= j < k && j < |t| && IsLineTerminator(t[j])
  }

  /**
    `(.*?)\1` after an opening quote `q`: the index of the first `q` in `t`,
    unless a line terminator (which `.` does not match) or the end comes
    first. There is no result exactly when every `q` in `t` has a line
    terminator before it.
   */
  function CloseQuote(t: string, q: char): (r: Option<nat>)
    ensures r.Some? ==> r.value < |t| && t[r.value] == q
    ensures r.Some? ==> forall k :: 0 <= k < r.value ==> t[k] != q && !IsLineTerminator(t[k])
    ensures r.None? ==> forall k :: 0 <= k < |t| && t[k] == q ==> BreakBefore(t, k)
    decreases |t|
  {
    if t == [] then None
    else if t[0] == q then Some(0)
    else if IsLineTerminator(t[0]) then
      assert forall k :: 0 < k < |t| ==> BreakBefore(t, k) by {
        forall k | 0 < k < |t| ensures BreakBefore(t, k) {
          assert IsLineTerminator(t[0]);
        }
      }
      None
    else match CloseQuote(t[1..], q)
      case None =>
        CloseQuoteNone(t, q);
        None
      case Some(j) => Some(j + 1)
  }

  /** A line terminator before a twin in the tail is one before it in the whole text. */
  lemma CloseQuoteNone(t: string, q: char)
    requires t != [] && t[0] != q
    requires forall k :: 0 <= k < |t| - 1 && t[1..][k] == q ==> BreakBefore(t[1..], k)
    ensures forall k :: 0 <= k < |t| && t[k] == q ==> BreakBefore(t, k)
  {
    forall k | 0 <= k < |t| && t[k] == q ensures BreakBefore(t, k) {
      assert t[1..][k - 1] == q;
      var j :| 0 <= j < k - 1 && j < |t| - 1 && IsLineTerminator(t[1..][j]);
      assert IsLineTerminator(t[j + 1]);
    }
  }

  /** A match of `(["'])(.*?)\1`: the opening quote's index and the closing quote's index. */
  datatype QuoteMatch = QuoteMatch(index: nat, close: nat)

  /**
    The match of the quote regex starting at the beginning of `t`, if any:
    the index of its closing quote, the first twin of the opening quote,
    with no line terminator before it. There is no match exactly when `t`
    does not open with a quote or every twin has a line terminator before it.
   */
  function QuoteAt(t: string): (r: Option<nat>)
    ensures r.Some? ==> 0 < r.value < |t| && IsQuote(t[0]) && t[r.value] == t[0]
    ensures r.Some? ==> forall k :: 0 < k < r.value ==> t[k] != t[0] && !IsLineTerminator(t[k])
    ensures r.None? ==> t == [] || !IsQuote(t[0]) || forall k :: 0 < k < |t| && t[k] == t[0] ==> BreakBefore(t[1..], k - 1)
  {
    if t != [] && IsQuote(t[0]) then
      match CloseQuote(t[1..], t[0])
      case None =>
        assert forall k :: 0 < k < |t| ==> t[k] == t[1..][k - 1];
        None
      case Some(j) =>
        assert forall k :: 0 < k < j + 1 ==> t[k] == t[1..][k - 1];
        Some(j + 1)
    else None
  }

  /** `exec` on `t`: the leftmost match of the quote regex (see NextQuoteLeftmost). */
  function NextQuote(t: string): (r: Option<QuoteMatch>)
    ensures r.Some? ==> r.value.index < r.value.close < |t|
    decreases |t|
  {
    if t == [] then None
    else match QuoteAt(t)
      case Some(j) => Some(QuoteMatch(0, j))
      case None =>
        match NextQuote(t[1..])
        case None => None
        case Some(m) => Some(QuoteMatch(m.index + 1, m.close + 1))
  }

  /**
    What `exec` promises: the match found is a match of `QuoteAt` at its
    opening index, and no match starts before it; no result means no match
    starts anywhere in `t`.
   */
  lemma {:induction false} NextQuoteLeftmost(t: string)
    ensures var r := NextQuote(t);
      r.Some? ==> QuoteAt(t[r.value.index..]) == Some(r.value.close - r.value.index)
    ensures var r := NextQuote(t);
      forall k :: 0 <= k < (if r.Some? then r.value.index else |t|) ==> QuoteAt(t[k..]).None?
    decreases |t|
  {
    if t != [] {
      if QuoteAt(t).Some? {
        assert t[0..] == t;
      } else {
        NextQuoteLeftmost(t[1..]);
        match NextQuote(t[1..])
        case None =>
          NextQuoteShift(t, |t| - 1);
        case Some(m) =>
          assert t[1..][m.index..] == t[m.index + 1..];
          NextQuoteShift(t, m.index);
      }
    }
  }

  /** No match at the start and none in the first `n` positions of the tail: none in the first `n + 1` of the text. */
  lemma NextQuoteShift(t: string, n: nat)
    requires t != [] && QuoteAt(t).None? && n < |t|
    requires forall k :: 0 <= k < n ==> QuoteAt(t[1..][k..]).None?
    ensures forall k :: 0 <= k < n + 1 ==> QuoteAt(t[k..]).None?
  {
    forall k | 0 <= k < n + 1 ensures QuoteAt(t[k..]).None? {
      if k == 0 {
        assert t[k..] == t;
      } else {
        assert t[1..][k - 1..] == t[k..];
      }
    }
  }

  /**
    The keywords of `t`: the words (whitespace-free runs) before the first
    quoted run, the run itself without its quotes, then the keywords of
    what follows it; with no quoted run, the words of `t`.
   */
  function Tokens(t: string): seq<string>
    decreases |t|
  {
    match NextQuote(t)
    case None => Runs(t)
    case Some(m) => Runs(t[..m.index]) + [t[m.index + 1..m.close]] + Tokens(t[m.close + 1..])
  }

  /**
    The tokenizer loop of `parseSearchParam` and `handleSearchSubmit`:
    `exec` finds the next quoted run from `lastIndex` on, the words before
    it and the run are pushed, and `lastIndex` moves past it; the words
    after the last run are pushed at the end.
   */
  method Tokenize(input: string) returns (keywords: seq<string>)
    ensures keywords == Tokens(input)
  {
    ghost var all := Tokens(input);
    keywords := [];
    var lastIndex: nat := 0;
    while true
      invariant lastIndex <= |input|
      invariant keywords + Tokens(input[lastIndex..]) == all
      decreases |input| - lastIndex
    {
      var m := NextQuote(input[lastIndex..]);
      if m.None? {
        break;
      }
      ghost var before := keywords;
      var index := lastIndex + m.value.index;
      var close := lastIndex + m.value.close;
      var textBefore := Trim(input[lastIndex..index]);
      if textBefore != [] {
        keywords := keywords + SplitWs(textBefore);
      }
      ghost var words := keywords;
      SplitWords(input[lastIndex..index], before, words);
      keywords := keywords + [input[index + 1..close]];
      var next := close + 1;
      TokenizeStep(input, lastIndex, m.value, index, close, next, all, before, words, keywords);
      lastIndex := next;
    }
    ghost var before := keywords;
    var remainingText := Trim(input[lastIndex..]);
    if remainingText != [] {
      keywords := keywords + SplitWs(remainingText);
    }
    SplitWords(input[lastIndex..], before, keywords);
  }

  /** Splitting trimmed text on whitespace, as the loop does, pushes exactly its words. */
  lemma SplitWords(x: string, before: seq<string>, after: seq<string>)
    requires after == if Trim(x) == [] then before else before + SplitWs(Trim(x))
    ensures after == before + Runs(x)
  {
    if AllWs(x) {
      RunsOfWs(x);
    } else {
      SplitTrimmedIsRuns(x);
    }
  }

  /** The keywords of a text with a quoted run: the words before it, the run, then the rest. */
  lemma TokensSome(t: string, m: QuoteMatch, front: string, run: string, back: string)
    requires NextQuote(t) == Some(m)
    requires front == t[..m.index] && run == t[m.index + 1..m.close] && back == t[m.close + 1..]
    ensures Tokens(t) == Runs(front) + ([run] + Tokens(back))
  {
    ConcatAssoc(Runs(front), [run], Tokens(back));
  }

  /** One turn of the tokenizer loop keeps the collected keywords, followed by those still to come, the same. */
  lemma TokenizeStep(input: string, last: nat, m: QuoteMatch, index: nat, close: nat, next: nat,
                     all: seq<string>, before: seq<string>, words: seq<string>, after: seq<string>)
    requires last <= |input| && NextQuote(input[last..]) == Some(m)
    requires index == last + m.index && close == last + m.close && next == close + 1
    requires before + Tokens(input[last..]) == all
    requires words == before + Runs(input[last..index])
    requires after == words + [input[index + 1..close]]
    ensures next <= |input| && after + Tokens(input[next..]) == all
  {
    var t := input[last..];
    var w := input[last..index];
    var x := input[index + 1..close];
    var rest := Tokens(input[close + 1..]);
    assert w == t[..m.index];
    assert x == t[m.index + 1..m.close];
    assert input[close + 1..] == t[m.close + 1..];
    TokensSome(t, m, w, x, input[close + 1..]);
    ConcatAssoc(before, Runs(w), [x] + rest);
    ConcatAssoc(before + Runs(w), [x], rest);
  }

  /* ----- Parsing the URL parameter and the search box ----- */

  /** `parseSearchParam` as a function: no keywords for an absent or empty parameter. */
  function ParseSearch(param: Option<string>): (r: seq<string>)
    ensures param.None? || param.value == [] ==> r == []
  {
    if param.None? || param.value == [] then [] else Dedup(NonEmpty(Tokens(Trim(param.value))))
  }

  /** Every parsed keyword list is free of empty keywords and of duplicates. */
  lemma ParseSearchClean(param: Option<string>)
    ensures forall i :: 0 <= i < |ParseSearch(param)| ==> ParseSearch(param)[i] != []
    ensures NoDup(ParseSearch(param))
  {
    if param.Some? && param.value != [] {
      var ks := NonEmpty(Tokens(Trim(param.value)));
      FilterMembers(Tokens(Trim(param.value)), x => x != []);
      DedupSpec(ks);
      forall i | 0 <= i < |Dedup(ks)| ensures Dedup(ks)[i] != [] {
        assert Dedup(ks)[i] in Dedup(ks);
      }
    }
  }

  /** `parseSearchParam`. */
  method ParseSearchParam(param: Option<string>) returns (keywords: seq<string>)
    ensures keywords == ParseSearch(param)
  {
    if param.None? || param.value == [] {
      return [];
    }
    var currentInput := Trim(param.value);
    var tokens := Tokenize(currentInput);
    keywords := Dedup(NonEmpty(tokens));
  }

  /** The search box's state: the keyword list and the text typed so far. */
  datatype SearchBox = SearchBox(keywords: seq<string>, input: string)

  /** `handleSearchSubmit` as a function. */
  function Submit(st: SearchBox): SearchBox {
    var currentInput := Trim(st.input);
    if currentInput == [] then st
    else SearchBox(Dedup(st.keywords + NonEmpty(Tokens(currentInput))), [])
  }

  /**
    `handleSearchSubmit`: input that is only whitespace changes nothing;
    otherwise the typed keywords join the existing ones, without
    duplicates, and the box is cleared.
   */
  method HandleSearchSubmit(st: SearchBox) returns (st': SearchBox)
    ensures st' == Submit(st)
  {
    if Trim(st.input) != [] {
      var currentInput := Trim(st.input);
      var newKeywords := Tokenize(currentInput);
      var filteredKeywords := NonEmpty(newKeywords);
      var uniqueKeywords := Dedup(st.keywords + filteredKeywords);
      st' := SearchBox(uniqueKeywords, []);
    } else {
      st' := st;
    }
  }

  /**
    A submit keeps the existing keywords, unchanged and in front, when
    they have no duplicates (as parsed keywords never do); it adds the
    typed ones, and the result still has no duplicates.
   */
  lemma SubmitKeepsKeywords(st: SearchBox)
    requires NoDup(st.keywords)
    ensures st.keywords <= Submit(st).keywords
    ensures NoDup(Submit(st).keywords)
    ensures Trim(st.input) == [] ==> Submit(st) == st
    ensures Trim(st.input) != [] ==>
      && Submit(st).input == []
      && forall k :: k in Submit(st).keywords <==> k in st.keywords || (k in Tokens(Trim(st.input)) && k != [])
  {
    if Trim(st.input) != [] {
      var ts := Tokens(Trim(st.input));
      var typed := NonEmpty(ts);
      DedupPrefix(st.keywords, typed);
      DedupOfNoDup(st.keywords);
      DedupSpec(st.keywords + typed);
      FilterMembers(ts, x => x != []);
    }
  }

  /** `removeKeyword`: every occurrence of the keyword goes, the others stay in order. */
  function RemoveKeyword(keywords: seq<string>, k: string): seq<string> {
    Filter(keywords, x => x != k)
  }

  lemma RemoveKeywordSpec(keywords: seq<string>, k: string)
    ensures k !in RemoveKeyword(keywords, k)
    ensures forall x :: x != k ==> (x in RemoveKeyword(keywords, k) <==> x in keywords)
    ensures NoDup(keywords) ==> NoDup(RemoveKeyword(keywords, k))
    ensures k !in keywords ==> RemoveKeyword(keywords, k) == keywords
    ensures forall i :: 0 <= i <= |keywords| ==>
      RemoveKeyword(keywords, k) == RemoveKeyword(keywords[..i], k) + RemoveKeyword(keywords[i..], k)
  {
    FilterMembers(keywords, x => x != k);
    if NoDup(keywords) {
      FilterNoDup(keywords, x => x != k);
    }
    if k !in keywords {
      FilterAll(keywords, x => x != k);
    }
  }

  /* ----- Serialization ----- */

  /** A keyword as written into the query: in double quotes when it contains a space. */
  function Quote(k: string): string {
    if ' ' in k then "\"" + k + "\"" else k
  }

  function Quoted(ks: seq<string>): (qs: seq<string>)
    ensures |qs| == |ks| && forall i :: 0 <= i < |ks| ==> qs[i] == Quote(ks[i])
  {
    seq(|ks|, i requires 0 <= i < |ks| => Quote(ks[i]))
  }

  /** The search string: the quoted keywords joined with single spaces. */
  function SearchString(ks: seq<string>): string {
    Join(Quoted(ks), " ")
  }

  /** The `search` URL parameter: absent for no keywords. */
  function SearchParam(ks: seq<string>): (r: Option<string>)
    ensures r.None? <==> ks == []
  {
    if ks == [] then None else Some(SearchString(ks))
  }

  /** The `query` sent with the entries request: absent when the search string is empty. */
  function SearchQuery(ks: seq<string>): (r: Option<string>)
    ensures r.Some? ==> r.value != [] && r.value == SearchString(ks)
    ensures ks == [] ==> r.None?
    ensures ks != [] ==> (r.Some? <==> SearchString(ks) != [])
  {
    var q := if ks == [] then [] else SearchString(ks);
    if q == [] then None else Some(q)
  }

  /** Keywords that survive the URL round trip always produce a query. */
  lemma SearchQueryPresent(ks: seq<string>)
    requires ks != [] && forall i :: 0 <= i < |ks| ==> Plain(ks[i])
    ensures SearchQuery(ks) == Some(SearchString(ks))
  {
    SearchStringEnds(ks);
  }

  /** `clearKeywords`: no keywords, an empty box, and so no `search` parameter. */
  function Clear(st: SearchBox): (st': SearchBox)
    ensures st'.keywords == [] && st'.input == [] && SearchParam(st'.keywords).None?
  {
    SearchBox([], [])
  }

  /* ----- Round trip ----- */

  /**
    A keyword that survives being written to the URL and read back: not
    empty, without quote characters, and with no whitespace but spaces.
   */
  predicate Plain(k: string) {
    k != [] && forall i :: 0 <= i < |k| ==> !IsQuote(k[i]) && (IsWs(k[i]) ==> k[i] == ' ')
  }

  predicate NoQuotes(a: string) {
    forall i :: 0 <= i < |a| ==> !IsQuote(a[i])
  }

  /** Text that can precede the rest without merging into its first word. */
  predicate Separate(a: string, x: string) {
    a == " " || (a != [] && NoWs(a) && (x == [] || IsWs(x[0])))
  }

  lemma RunsSeparate(a: string, x: string)
    requires Separate(a, x)
    ensures Runs(a + x) == Runs(a) + Runs(x)
  {
    if a == " " {
      RunsSkipRun(a + x, 1);
      assert (a + x)[1..] == x;
      assert Runs(a) == Runs(a[1..]) by { RunsSkipRun(a, 1); }
    } else {
      var s := a + x;
      NextWsIs(s, 0, |a|);
      assert s[..|a|] == a && s[|a|..] == x;
      RunsOfWord(a, []);
      assert a + [] == a;
    }
  }

  /** A closing quote is found past text without that quote or a line terminator. */
  lemma {:induction false} CloseQuoteAfter(k: string, q: char, tail: string)
    requires forall i :: 0 <= i < |k| ==> k[i] != q && !IsLineTerminator(k[i])
    ensures CloseQuote(k + [q] + tail, q) == Some(|k|)
    decreases |k|
  {
    if k != [] {
      assert (k + [q] + tail)[1..] == k[1..] + [q] + tail;
      CloseQuoteAfter(k[1..], q, tail);
    }
  }

  /** The leftmost quoted run of `a + t`, for `a` without quotes, is that of `t`. */
  lemma {:induction false} NextQuoteAfter(a: string, t: string)
    requires NoQuotes(a)
    ensures NextQuote(a + t) == match NextQuote(t)
      case None => None
      case Some(m) => Some(QuoteMatch(m.index + |a|, m.close + |a|))
    decreases |a|
  {
    if a == [] {
      assert a + t == t;
    } else {
      assert (a + t)[1..] == a[1..] + t;
      NextQuoteAfter(a[1..], t);
    }
  }

  /** Quote-free text in front contributes its words and shifts nothing else. */
  lemma TokensAfter(a: string, t: string)
    requires NoQuotes(a) && Separate(a, t)
    ensures Tokens(a + t) == Runs(a) + Tokens(t)
  {
    NextQuoteAfter(a, t);
    if NextQuote(t).None? {
      RunsSeparate(a, t);
    } else {
      TokensAfterQuote(a, t, NextQuote(t).value);
    }
  }

  lemma TokensAfterQuote(a: string, t: string, m: QuoteMatch)
    requires NoQuotes(a) && Separate(a, t)
    requires NextQuote(t) == Some(m)
    requires NextQuote(a + t) == Some(QuoteMatch(m.index + |a|, m.close + |a|))
    ensures Tokens(a + t) == Runs(a) + Tokens(t)
  {
    var p := m.index;
    var tail := [t[p + 1..m.close]] + Tokens(t[m.close + 1..]);
    TokensShifted(a, t, m);
    assert Separate(a, t[..p]);
    RunsSeparate(a, t[..p]);
    ConcatAssoc(Runs(a), Runs(t[..p]), tail);
    TokensSome(t, m, t[..p], t[p + 1..m.close], t[m.close + 1..]);
  }

  /** The quoted run found after a quote-free prefix is the one of the text behind it. */
  lemma TokensShifted(a: string, t: string, m: QuoteMatch)
    requires NextQuote(t) == Some(m)
    requires NextQuote(a + t) == Some(QuoteMatch(m.index + |a|, m.close + |a|))
    ensures Tokens(a + t) == Runs(a + t[..m.index]) + ([t[m.index + 1..m.close]] + Tokens(t[m.close + 1..]))
  {
    var i := m.index + |a|;
    var c := m.close + |a|;
    SlicesAfter(a, t, m.index, m.close);
    TokensSome(a + t, QuoteMatch(i, c), a + t[..m.index], t[m.index + 1..m.close], t[m.close + 1..]);
  }

  /** The pieces around a quoted run of `t` are, in `a + t`, the same pieces shifted by `|a|`. */
  lemma SlicesAfter(a: string, t: string, x: nat, y: nat)
    requires x < y < |t|
    ensures (a + t)[..|a| + x] == a + t[..x]
    ensures (a + t)[|a| + x + 1..|a| + y] == t[x + 1..y]
    ensures (a + t)[|a| + y + 1..] == t[y + 1..]
  {
  }

  /** A keyword with a space, written in double quotes, reads back as itself. */
  lemma TokensQuoted(k: string, tail: string)
    requires Plain(k)
    ensures Tokens("\"" + k + "\"" + tail) == [k] + Tokens(tail)
  {
    var s := "\"" + k + "\"" + tail;
    assert s[1..] == k + ['"'] + tail;
    forall i | 0 <= i < |k| ensures k[i] != '"' && !IsLineTerminator(k[i]) {
      assert !IsQuote(k[i]);
    }
    CloseQuoteAfter(k, '"', tail);
    assert NextQuote(s) == Some(QuoteMatch(0, |k| + 1));
    assert s[..0] == [];
    assert s[1..|k| + 1] == k;
    assert s[|k| + 2..] == tail;
  }

  /** A keyword list is written as a trimmed string: it starts and ends with a keyword or a quote. */
  lemma {:induction false} SearchStringEnds(ks: seq<string>)
    requires ks != [] && forall i :: 0 <= i < |ks| ==> Plain(ks[i])
    ensures var s := SearchString(ks); s != [] && !IsWs(s[0]) && !IsWs(s[|s| - 1])
    decreases |ks|
  {
    var q := Quote(ks[0]);
    assert q[0] == '"' || q[0] == ks[0][0];
    if |ks| > 1 {
      SearchStringEnds(ks[1..]);
      assert Quoted(ks)[1..] == Quoted(ks[1..]);
    } else {
      assert q[|q| - 1] == '"' || q[|q| - 1] == ks[0][|ks[0]| - 1];
    }
  }

  /** Reading back the written keywords gives the keywords, in order. */
  lemma {:induction false} TokensOfSearchString(ks: seq<string>)
    requires ks != [] && forall i :: 0 <= i < |ks| ==> Plain(ks[i])
    ensures Tokens(SearchString(ks)) == ks
    decreases |ks|
  {
    var tail: string := if |ks| == 1 then [] else " " + SearchString(ks[1..]);
    SearchStringCons(ks);
    if |ks| > 1 {
      TokensOfSearchString(ks[1..]);
      TokensAfterSpace(SearchString(ks[1..]));
    } else {
      assert Tokens(tail) == [];
    }
    TokensOfQuote(ks[0], tail);
    assert ks == [ks[0]] + ks[1..];
  }

  /** The search string is the first keyword, quoted as needed, then a space and the rest. */
  lemma SearchStringCons(ks: seq<string>)
    requires ks != []
    ensures SearchString(ks) == Quote(ks[0]) + (if |ks| == 1 then [] else " " + SearchString(ks[1..]))
  {
    if |ks| > 1 {
      assert Quoted(ks)[1..] == Quoted(ks[1..]);
    }
  }

  /** A space in front changes no keyword. */
  lemma TokensAfterSpace(r: string)
    ensures Tokens(" " + r) == Tokens(r)
  {
    assert NoQuotes(" ");
    TokensAfter(" ", r);
    RunsOfWs(" ");
  }

  /** A plain keyword, written as the search string writes it, reads back as itself before what follows. */
  lemma TokensOfQuote(k: string, tail: string)
    requires Plain(k)
    requires tail == [] || tail[0] == ' '
    ensures Tokens(Quote(k) + tail) == [k] + Tokens(tail)
  {
    if ' ' in k {
      TokensQuoted(k, tail);
    } else {
      assert NoWs(k);
      assert NoQuotes(k);
      TokensAfter(k, tail);
      RunsOfWord(k, []);
      assert k + [] == k;
    }
  }

  /**
    The URL round trip: keywords written to the `search` parameter and
    parsed back are the same keywords, for keyword lists without
    duplicates whose keywords have no quotes and no whitespace but spaces.
   */
  lemma ParseSearchParamRoundTrip(ks: seq<string>)
    requires NoDup(ks) && forall i :: 0 <= i < |ks| ==> Plain(ks[i])
    ensures ParseSearch(SearchParam(ks)) == ks
  {
    if ks != [] {
      var s := SearchString(ks);
      SearchStringEnds(ks);
      assert Trimmed(s);
      TokensOfSearchString(ks);
      FilterAll(ks, x => x != []);
      DedupOfNoDup(ks);
    }
  }

  /**
    Only spaces make a keyword quoted: a keyword holding a tab, which a
    quoted run can produce, is written bare and read back as two.
   */
  lemma TabKeywordSplits(k: string)
    requires k == "a\tb"
    ensures ParseSearch(SearchParam([k])) == ["a", "b"]
  {
    assert Quoted([k]) == [k] by {
      assert ' ' !in k;
    }
    assert SearchParam([k]) == Some(k);
    assert Trimmed(k);
    TabTokens(k);
    var ks: seq<string> := ["a", "b"];
    FilterAll(ks, x => x != []);
    DedupOfNoDup(ks);
  }

  lemma TabTokens(k: string)
    requires k == "a\tb"
    ensures Tokens(k) == ["a", "b"]
  {
    assert NextQuote(k[2..]) == None;
    assert NextQuote(k[1..]) == None;
    assert NextQuote(k) == None;
    assert NextWs(k, 0) == 1;
    assert k[1..] == "\tb" && k[..1] == "a";
    assert Runs("\tb") == Runs("b") by {
      assert "\tb"[1..] == "b";
    }
    assert Runs("b") == ["b"] by {
      RunsOfWord("b", []);
      assert "b" + [] == "b";
    }
  }
}
