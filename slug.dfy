/**
  Heading anchors: `generateSlug` turns a heading's text into the id that
  both the table of contents links to and the rendered heading carries.
  Text containing a CJK character keeps its case and its CJK characters;
  any other text is lower-cased and reduced to ASCII letters, digits and
  hyphens. Each step of the source's `replace` chain is one function here.
 */
module Slug {
  import opened Text

  /** The characters whose presence selects the CJK branch. */
  predicate IsCjkTrigger(c: char) {
    ('\U{3000}' <= c <= '\U{303F}') || ('\U{3040}' <= c <= '\U{309F}') || ('\U{30A0}' <= c <= '\U{30FF}')
    || ('\U{FF00}' <= c <= '\U{FF9F}') || ('\U{4E00}' <= c <= '\U{9FAF}') || ('\U{3400}' <= c <= '\U{4DBF}')
  }

  predicate HasCjk(s: string) {
    exists i :: 0 <= i < |s| && IsCjkTrigger(s[i])
  }

  predicate IsHyphen(c: char) {
    c == '-'
  }

  predicate IsAsciiAlnum(c: char) {
    ('a' <= c <= 'z') || ('A' <= c <= 'Z') || ('0' <= c <= '9')
  }

  /** What the CJK branch keeps: `\w`, the block U+3000 to U+9FFF, and the hyphen. */
  predicate KeepCjk(c: char) {
    IsWordChar(c) || ('\U{3000}' <= c <= '\U{9FFF}') || c == '-'
  }

  /** What the Latin branch keeps: `\w`, `\s` and the hyphen. */
  predicate KeepLatin(c: char) {
    IsWordChar(c) || IsWs(c) || c == '-'
  }

  /** The class `[\s_]`. */
  predicate IsWsOrUnderscore(c: char) {
    IsWs(c) || c == '_'
  }

  /** The characters a CJK slug carries over from its text, apart from the hyphens it inserts. */
  predicate IsCjkSlugChar(c: char) {
    KeepCjk(c) && !IsWs(c) && c != '-'
  }

  predicate IsCjkSlugCharOrHyphen(c: char) {
    IsCjkSlugChar(c) || c == '-'
  }

  predicate NotWs(c: char) {
    !IsWs(c)
  }

  /** A character `Keep` lets through in the Latin branch after lower-casing. */
  predicate IsLowerKept(c: char) {
    KeepLatin(c) && !('A' <= c <= 'Z')
  }

  /** The alphabet of a Latin slug. */
  predicate IsLatinSlugChar(c: char) {
    ('a' <= c <= 'z') || ('0' <= c <= '9') || c == '-'
  }

  /** Every character of `s` satisfies `q`. */
  predicate AllChars(s: string, q: char -> bool) {
    forall i :: 0 <= i < |s| ==> q(s[i])
  }

  predicate NoDoubleHyphen(s: string) {
    forall i :: 0 <= i < |s| - 1 ==> !(s[i] == '-' && s[i + 1] == '-')
  }

  /** No two hyphens in a row, none at either end. */
  predicate HyphenTidy(s: string) {
    (s == [] || (s[0] != '-' && s[|s| - 1] != '-')) && NoDoubleHyphen(s)
  }

  function LowerChar(c: char): (r: char)
    ensures !('A' <= r <= 'Z')
    ensures IsAsciiAlnum(c) <==> IsAsciiAlnum(r)
  {
    if 'A' <= c <= 'Z' then (c as int + 32) as char else c
  }

  /** `toLowerCase` restricted to ASCII letters. */
  function LowerAscii(s: string): (r: string)
    ensures |r| == |s|
    ensures forall i :: 0 <= i < |s| ==> r[i] == LowerChar(s[i])
  {
    seq(|s|, i requires 0 <= i < |s| => LowerChar(s[i]))
  }

  /**
    `replace(/[^K]/g, '')`: the characters satisfying `keep`, in order. A
    text of kept characters comes back whole, a text of none of them comes
    back empty, and (`KeepConcat`) the pieces of a text are filtered one by
    one, so every kept character stays where it was relative to the others.
   */
  function Keep(s: string, keep: char -> bool): (r: string)
    ensures |r| <= |s|
    ensures AllChars(r, keep)
    ensures AllChars(s, keep) ==> r == s
    ensures (forall i :: 0 <= i < |s| ==> !keep(s[i])) ==> r == []
    decreases |s|
  {
    if s == [] then []
    else if keep(s[0]) then [s[0]] + Keep(s[1..], keep)
    else Keep(s[1..], keep)
  }

  /** Filtering a text is filtering its two halves and putting the results side by side. */
  lemma {:induction false} KeepConcat(a: string, b: string, keep: char -> bool)
    ensures Keep(a + b, keep) == Keep(a, keep) + Keep(b, keep)
    decreases |a|
  {
    if a == [] {
      assert a + b == b;
    } else {
      assert (a + b)[0] == a[0] && (a + b)[1..] == a[1..] + b;
      KeepConcat(a[1..], b, keep);
    }
  }

  /** What `Keep` lets through satisfies `q` when every kept character of `s` does. */
  lemma {:induction false} KeepAll(s: string, keep: char -> bool, q: char -> bool)
    requires forall i :: 0 <= i < |s| && keep(s[i]) ==> q(s[i])
    ensures AllChars(Keep(s, keep), q)
    decreases |s|
  {
    if s != [] {
      KeepAll(s[1..], keep, q);
    }
  }

  /**
    `replace(/P+/g, c)`: every maximal run of characters satisfying `p`
    becomes the single character `c`. `inRun` says that the character
    before `s` was part of a run, so that a run continuing into `s` is not
    replaced a second time.
   */
  function Collapse(s: string, p: char -> bool, c: char, inRun: bool): (r: string)
    ensures inRun && p(c) ==> r == [] || !p(r[0])
    ensures p(c) ==> forall i :: 0 <= i < |r| - 1 ==> !(p(r[i]) && p(r[i + 1]))
    decreases |s|
  {
    if s == [] then []
    else if p(s[0]) then
      if inRun then Collapse(s[1..], p, c, true) else [c] + Collapse(s[1..], p, c, true)
    else [s[0]] + Collapse(s[1..], p, c, false)
  }

  /** A stretch with no character of the class is copied as it is, and the run state ends. */
  lemma {:induction false} CollapseWord(w: string, t: string, p: char -> bool, c: char, inRun: bool)
    requires w != [] && forall i :: 0 <= i < |w| ==> !p(w[i])
    ensures Collapse(w + t, p, c, inRun) == w + Collapse(t, p, c, false)
    decreases |w|
  {
    assert (w + t)[0] == w[0] && (w + t)[1..] == w[1..] + t;
    if |w| == 1 {
      assert w[1..] + t == t;
    } else {
      CollapseWord(w[1..], t, p, c, false);
    }
  }

  /**
    A maximal run of the class (one not followed by another character of
    the class) becomes the single replacement character in its place, or
    nothing when it continues a run already replaced.
   */
  lemma {:induction false} CollapseRun(r: string, t: string, p: char -> bool, c: char, inRun: bool)
    requires r != [] && forall i :: 0 <= i < |r| ==> p(r[i])
    requires t == [] || !p(t[0])
    ensures Collapse(r + t, p, c, inRun) == (if inRun then [] else [c]) + Collapse(t, p, c, false)
    decreases |r|
  {
    assert (r + t)[0] == r[0] && (r + t)[1..] == r[1..] + t;
    if |r| == 1 {
      assert r[1..] + t == t;
    } else {
      CollapseRun(r[1..], t, p, c, true);
    }
  }

  /** After collapsing, each character is the replacement or a character of `s` outside the runs. */
  lemma {:induction false} CollapseAll(s: string, p: char -> bool, c: char, inRun: bool, q: char -> bool)
    requires q(c) && forall i :: 0 <= i < |s| && !p(s[i]) ==> q(s[i])
    ensures AllChars(Collapse(s, p, c, inRun), q)
    decreases |s|
  {
    if s != [] {
      CollapseAll(s[1..], p, c, true, q);
      CollapseAll(s[1..], p, c, false, q);
    }
  }

  function DropLeadingHyphens(s: string): (r: string)
    ensures |r| <= |s| && r == s[|s| - |r|..]
    ensures r == [] || r[0] != '-'
  {
    if s != [] && s[0] == '-' then DropLeadingHyphens(s[1..]) else s
  }

  function DropTrailingHyphens(s: string): (r: string)
    ensures |r| <= |s| && r == s[..|r|]
    ensures r == [] || r[|r| - 1] != '-'
  {
    if s != [] && s[|s| - 1] == '-' then DropTrailingHyphens(s[..|s| - 1]) else s
  }

  /** What `DropLeadingHyphens` removes is hyphens. */
  lemma {:induction false} LeadingDropped(s: string)
    ensures forall i :: 0 <= i < |s| - |DropLeadingHyphens(s)| ==> s[i] == '-'
    decreases |s|
  {
    if s != [] && s[0] == '-' {
      LeadingDropped(s[1..]);
    }
  }

  /** What `DropTrailingHyphens` removes is hyphens. */
  lemma {:induction false} TrailingDropped(s: string)
    ensures forall i :: |DropTrailingHyphens(s)| <= i < |s| ==> s[i] == '-'
    decreases |s|
  {
    if s != [] && s[|s| - 1] == '-' {
      TrailingDropped(s[..|s| - 1]);
    }
  }

  /** `r` is `s` from index `k` on, with only hyphens before and after it. */
  predicate HyphensAround(s: string, r: string, k: nat) {
    && k + |r| <= |s|
    && (forall i :: 0 <= i < |r| ==> r[i] == s[k + i])
    && (forall i :: 0 <= i < k ==> s[i] == '-')
    && (forall i :: k + |r| <= i < |s| ==> s[i] == '-')
  }

  /**
    `replace(/^-+|-+$/g, '')`: the leading and the trailing run of hyphens
    go, and the middle of the text is kept as it is.
   */
  function TrimHyphens(s: string): (r: string)
    ensures exists k: nat :: HyphensAround(s, r, k)
    ensures r == [] || (r[0] != '-' && r[|r| - 1] != '-')
    ensures NoDoubleHyphen(s) ==> NoDoubleHyphen(r)
  {
    var t := DropLeadingHyphens(s);
    var r := DropTrailingHyphens(t);
    LeadingDropped(s);
    TrailingDropped(t);
    TrimAround(s, t, r);
    r
  }

  /** A suffix of `s` after hyphens, cut short before hyphens, sits in `s` between those hyphens. */
  lemma TrimAround(s: string, t: string, r: string)
    requires |t| <= |s| && t == s[|s| - |t|..] && forall i :: 0 <= i < |s| - |t| ==> s[i] == '-'
    requires |r| <= |t| && r == t[..|r|] && forall i :: |r| <= i < |t| ==> t[i] == '-'
    ensures HyphensAround(s, r, |s| - |t|)
  {
  }

  /** Trimming keeps a property every character of the text has. */
  lemma TrimAll(s: string, q: char -> bool)
    requires AllChars(s, q)
    ensures AllChars(TrimHyphens(s), q)
  {
    var r := TrimHyphens(s);
    var k: nat :| HyphensAround(s, r, k);
    forall i | 0 <= i < |r| ensures q(r[i]) {
      assert r[i] == s[k + i];
    }
  }

  /** The CJK branch of `generateSlug`: whitespace runs to hyphens, the kept characters, hyphens collapsed and trimmed. */
  function CjkSlug(text: string): string {
    TrimHyphens(Collapse(Keep(Collapse(text, IsWs, '-', false), KeepCjk), IsHyphen, '-', false))
  }

  /** The Latin branch of `generateSlug`: lower-case, the kept characters, whitespace and underscore runs to hyphens, hyphens collapsed and trimmed. */
  function LatinSlug(text: string): string {
    TrimHyphens(Collapse(Collapse(Keep(LowerAscii(text), KeepLatin), IsWsOrUnderscore, '-', false), IsHyphen, '-', false))
  }

  /**
    `generateSlug`: hyphens never doubled nor at either end, no whitespace;
    a text without CJK characters gives lower-case ASCII letters, digits and
    hyphens only.
   */
  function GenerateSlug(text: string): (r: string)
    ensures HyphenTidy(r)
    ensures NoWs(r)
    ensures HasCjk(text) ==> AllChars(r, KeepCjk)
    ensures !HasCjk(text) ==> AllChars(r, IsLatinSlugChar)
  {
    if HasCjk(text) then CjkSlugProps(text); CjkSlugChars(CjkSlug(text)); CjkSlug(text)
    else LatinSlugProps(text); LatinSlugChars(LatinSlug(text)); LatinSlug(text)
  }

  lemma CjkSlugProps(text: string)
    ensures HyphenTidy(CjkSlug(text))
    ensures AllChars(CjkSlug(text), IsCjkSlugCharOrHyphen)
  {
    var a := Collapse(text, IsWs, '-', false);
    CollapseAll(text, IsWs, '-', false, NotWs);
    var b := Keep(a, KeepCjk);
    KeepAll(a, KeepCjk, IsCjkSlugCharOrHyphen);
    var c := Collapse(b, IsHyphen, '-', false);
    CollapseAll(b, IsHyphen, '-', false, IsCjkSlugCharOrHyphen);
    TrimAll(c, IsCjkSlugCharOrHyphen);
  }

  lemma CjkSlugChars(r: string)
    requires AllChars(r, IsCjkSlugCharOrHyphen)
    ensures NoWs(r) && AllChars(r, KeepCjk)
  {
    forall i | 0 <= i < |r| ensures !IsWs(r[i]) && KeepCjk(r[i]) {
      assert IsCjkSlugCharOrHyphen(r[i]);
    }
  }

  lemma LatinSlugProps(text: string)
    ensures HyphenTidy(LatinSlug(text))
    ensures AllChars(LatinSlug(text), IsLatinSlugChar)
  {
    var l := LowerAscii(text);
    var a := Keep(l, KeepLatin);
    KeepAll(l, KeepLatin, IsLowerKept);
    var b := Collapse(a, IsWsOrUnderscore, '-', false);
    CollapseAll(a, IsWsOrUnderscore, '-', false, IsLatinSlugChar);
    var c := Collapse(b, IsHyphen, '-', false);
    CollapseAll(b, IsHyphen, '-', false, IsLatinSlugChar);
    TrimAll(c, IsLatinSlugChar);
  }

  lemma LatinSlugChars(r: string)
    requires AllChars(r, IsLatinSlugChar)
    ensures NoWs(r)
  {
    forall i | 0 <= i < |r| ensures !IsWs(r[i]) {
      assert IsLatinSlugChar(r[i]);
    }
  }
}

module SlugFacts {
  import opened Text
  import opened Slug

  lemma {:induction false} KeepSnoc(s: string, x: char, q: char -> bool)
    ensures Keep(s + [x], q) == Keep(s, q) + (if q(x) then [x] else [])
    decreases |s|
  {
    if s == [] {
      assert [x][1..] == [];
    } else {
      assert (s + [x])[1..] == s[1..] + [x];
      KeepSnoc(s[1..], x, q);
    }
  }

  /** Removing characters that `q` rejects anyway does not change what `q` keeps. */
  lemma {:induction false} KeepCollapse(s: string, p: char -> bool, c: char, inRun: bool, q: char -> bool)
    requires !q(c) && forall x :: p(x) ==> !q(x)
    ensures Keep(Collapse(s, p, c, inRun), q) == Keep(s, q)
    decreases |s|
  {
    if s != [] {
      KeepCollapse(s[1..], p, c, true, q);
      KeepCollapse(s[1..], p, c, false, q);
    }
  }

  lemma {:induction false} KeepKeep(s: string, p: char -> bool, q: char -> bool)
    requires forall x :: q(x) ==> p(x)
    ensures Keep(Keep(s, p), q) == Keep(s, q)
    decreases |s|
  {
    if s != [] {
      KeepKeep(s[1..], p, q);
    }
  }

  lemma {:induction false} KeepDropLeading(s: string, q: char -> bool)
    requires !q('-')
    ensures Keep(DropLeadingHyphens(s), q) == Keep(s, q)
    decreases |s|
  {
    if s != [] && s[0] == '-' {
      KeepDropLeading(s[1..], q);
    }
  }

  lemma {:induction false} KeepDropTrailing(s: string, q: char -> bool)
    requires !q('-')
    ensures Keep(DropTrailingHyphens(s), q) == Keep(s, q)
    decreases |s|
  {
    if s != [] && s[|s| - 1] == '-' {
      var u := s[..|s| - 1];
      assert s == u + ['-'];
      KeepSnoc(u, '-', q);
      KeepDropTrailing(u, q);
    }
  }

  /** Trimming hyphens loses nothing `q` keeps, when `q` rejects the hyphen. */
  lemma KeepTrim(s: string, q: char -> bool)
    requires !q('-')
    ensures Keep(TrimHyphens(s), q) == Keep(s, q)
  {
    KeepDropLeading(s, q);
    KeepDropTrailing(DropLeadingHyphens(s), q);
  }

  lemma {:induction false} KeepLower(s: string)
    ensures Keep(LowerAscii(s), IsAsciiAlnum) == LowerAscii(Keep(s, IsAsciiAlnum))
    decreases |s|
  {
    if s != [] {
      var t := Keep(s[1..], IsAsciiAlnum);
      LowerCons(s[0], s[1..]);
      assert [s[0]] + s[1..] == s;
      KeepLower(s[1..]);
      KeepHead(LowerChar(s[0]), LowerAscii(s[1..]), IsAsciiAlnum);
      if IsAsciiAlnum(s[0]) {
        LowerCons(s[0], t);
      }
    }
  }

  /** Lower-casing works one character at a time. */
  lemma LowerCons(c: char, t: string)
    ensures LowerAscii([c] + t) == [LowerChar(c)] + LowerAscii(t)
  {
  }

  /** Filtering a text is filtering its first character, then the rest. */
  lemma KeepHead(c: char, t: string, keep: char -> bool)
    ensures Keep([c] + t, keep) == (if keep(c) then [c] else []) + Keep(t, keep)
  {
    assert ([c] + t)[0] == c && ([c] + t)[1..] == t;
  }

  /**
    A Latin slug spells out the ASCII letters and digits of its text,
    lower-cased and in their original order: only hyphens are added.
   */
  lemma LatinSlugContent(text: string)
    requires !HasCjk(text)
    ensures Keep(GenerateSlug(text), IsAsciiAlnum) == LowerAscii(Keep(text, IsAsciiAlnum))
  {
    var l := LowerAscii(text);
    var a := Keep(l, KeepLatin);
    var b := Collapse(a, IsWsOrUnderscore, '-', false);
    var c := Collapse(b, IsHyphen, '-', false);
    KeepTrim(c, IsAsciiAlnum);
    KeepCollapse(b, IsHyphen, '-', false, IsAsciiAlnum);
    KeepCollapse(a, IsWsOrUnderscore, '-', false, IsAsciiAlnum);
    KeepKeep(l, KeepLatin, IsAsciiAlnum);
    KeepLower(text);
  }

  /**
    A CJK slug keeps, in order and with their case, every character of its
    text that is a word character or lies in U+3000 to U+9FFF, apart from
    whitespace and hyphens; only hyphens are added.
   */
  lemma CjkSlugContent(text: string)
    requires HasCjk(text)
    ensures Keep(GenerateSlug(text), IsCjkSlugChar) == Keep(text, IsCjkSlugChar)
  {
    var a := Collapse(text, IsWs, '-', false);
    var b := Keep(a, KeepCjk);
    var c := Collapse(b, IsHyphen, '-', false);
    KeepTrim(c, IsCjkSlugChar);
    KeepCollapse(b, IsHyphen, '-', false, IsCjkSlugChar);
    KeepKeep(a, KeepCjk, IsCjkSlugChar);
    KeepCollapse(text, IsWs, '-', false, IsCjkSlugChar);
  }

  lemma {:induction false} CollapseNone(s: string, p: char -> bool, c: char, inRun: bool)
    requires forall i :: 0 <= i < |s| ==> !p(s[i])
    ensures Collapse(s, p, c, inRun) == s
    decreases |s|
  {
    if s != [] {
      CollapseNone(s[1..], p, c, false);
    }
  }

  lemma {:induction false} CollapseTidy(s: string, inRun: bool)
    requires NoDoubleHyphen(s) && (inRun ==> s == [] || s[0] != '-')
    ensures Collapse(s, IsHyphen, '-', inRun) == s
    decreases |s|
  {
    if s != [] {
      CollapseTidy(s[1..], s[0] == '-');
    }
  }

  lemma TrimTidy(s: string)
    requires s == [] || (s[0] != '-' && s[|s| - 1] != '-')
    ensures TrimHyphens(s) == s
  {
  }

  lemma {:induction false} LowerNoUpper(s: string)
    requires AllChars(s, IsLatinSlugChar)
    ensures LowerAscii(s) == s
  {
    assert forall i :: 0 <= i < |s| ==> LowerChar(s[i]) == s[i];
  }

  lemma LatinNoCjk(s: string)
    requires AllChars(s, IsLatinSlugChar)
    ensures !HasCjk(s)
  {
    forall i | 0 <= i < |s| ensures !IsCjkTrigger(s[i]) {
      assert IsLatinSlugChar(s[i]);
    }
  }

  lemma LatinCharFacts(c: char)
    requires IsLatinSlugChar(c)
    ensures KeepLatin(c) && !IsWsOrUnderscore(c)
  {
  }

  lemma LatinFixpoint(r: string)
    requires AllChars(r, IsLatinSlugChar) && HyphenTidy(r)
    ensures LatinSlug(r) == r
  {
    LowerNoUpper(r);
    LatinKeepsAll(r);
    CollapseTidy(r, false);
    TrimTidy(r);
  }

  /** A Latin slug survives the filter and holds no whitespace or underscore run to replace. */
  lemma LatinKeepsAll(r: string)
    requires AllChars(r, IsLatinSlugChar)
    ensures Keep(r, KeepLatin) == r
    ensures Collapse(r, IsWsOrUnderscore, '-', false) == r
  {
    forall i | 0 <= i < |r| ensures KeepLatin(r[i]) && !IsWsOrUnderscore(r[i]) {
      LatinCharFacts(r[i]);
    }
    CollapseNone(r, IsWsOrUnderscore, '-', false);
  }

  /** Slugging a Latin slug again changes nothing. */
  lemma LatinSlugIdempotent(text: string)
    requires !HasCjk(text)
    ensures GenerateSlug(GenerateSlug(text)) == GenerateSlug(text)
  {
    var r := GenerateSlug(text);
    LatinNoCjk(r);
    LatinFixpoint(r);
  }

  lemma CjkFixpoint(r: string)
    requires NoWs(r) && AllChars(r, KeepCjk) && HyphenTidy(r)
    ensures CjkSlug(r) == r
  {
    CollapseNone(r, IsWs, '-', false);
    CollapseTidy(r, false);
    TrimTidy(r);
  }

  /** A CJK slug that still holds a CJK character is its own slug. */
  lemma CjkSlugIdempotent(text: string)
    requires HasCjk(text) && HasCjk(GenerateSlug(text))
    ensures GenerateSlug(GenerateSlug(text)) == GenerateSlug(text)
  {
    CjkFixpoint(GenerateSlug(text));
  }

  /**
    A text whose only CJK character is whitespace keeps its case, and its
    slug, no longer holding a CJK character, slugs differently.
   */
  lemma IdeographicSpaceSlug()
    ensures GenerateSlug("\U{3000}A") == "A"
    ensures GenerateSlug("A") == "a"
  {
    var t := "\U{3000}A";
    assert HasCjk(t) by {
      assert IsCjkTrigger(t[0]);
    }
    assert Collapse(t, IsWs, '-', false) == "-A";
    assert Keep("-A", KeepCjk) == "-A";
    assert Collapse("-A", IsHyphen, '-', false) == "-A";
    assert TrimHyphens("-A") == "A";
    LatinA();
  }

  lemma LatinA()
    ensures GenerateSlug("A") == "a"
  {
    var t := "A";
    assert !HasCjk(t) by {
      assert |t| == 1 && !IsCjkTrigger(t[0]);
    }
    var l := LowerAscii(t);
    assert l == "a" by {
      assert |l| == 1 && l[0] == 'a';
    }
    assert Keep("a", KeepLatin) == "a";
    assert Collapse("a", IsWsOrUnderscore, '-', false) == "a";
    assert Collapse("a", IsHyphen, '-', false) == "a";
  }

  /** Two classes that agree on every character of `s` collapse it alike. */
  lemma {:induction false} CollapseSameClass(s: string, p: char -> bool, q: char -> bool, c: char, inRun: bool)
    requires forall i :: 0 <= i < |s| ==> p(s[i]) == q(s[i])
    ensures Collapse(s, p, c, inRun) == Collapse(s, q, c, inRun)
    decreases |s|
  {
    if s != [] {
      CollapseSameClass(s[1..], p, q, c, true);
      CollapseSameClass(s[1..], p, q, c, false);
    }
  }

  predicate NoHyphen(s: string) {
    forall i :: 0 <= i < |s| ==> s[i] != '-'
  }

  /**
    Collapsing the whitespace runs of `u` gives its words joined by single
    hyphens, followed by one more hyphen when `u` ends in whitespace, and
    no hyphen is doubled.
   */
  predicate CollapsesToWords(u: string, inRun: bool) {
    var j := Join(Runs(u), "-");
    && Collapse(u, IsWs, '-', inRun) == j + (if u != [] && IsWs(u[|u| - 1]) then "-" else "")
    && (j == [] <==> u == [])
    && (j != [] ==> j[0] != '-' && j[|j| - 1] != '-')
    && NoDoubleHyphen(Collapse(u, IsWs, '-', inRun))
  }

  /** A hyphen-free text that starts with a word collapses to its words. */
  lemma {:induction false} CollapseWords(u: string, inRun: bool)
    requires u != [] ==> !IsWs(u[0])
    requires NoHyphen(u)
    ensures CollapsesToWords(u, inRun)
    decreases |u|
  {
    if u != [] {
      var i := NextWs(u, 0);
      if i == |u| {
        RunsOfWord(u, "");
        assert u + "" == u;
        CollapseWord(u, "", IsWs, '-', inRun);
      } else {
        var k := WsRunEnd(u, i);
        CollapseWords(u[k..], false);
        CollapseWordsStep(u, inRun, i, k);
      }
    }
  }

  /** The step of `CollapseWords`: the first word, the whitespace run after it, and the rest. */
  lemma CollapseWordsStep(u: string, inRun: bool, i: nat, k: nat)
    requires u != [] && !IsWs(u[0]) && NoHyphen(u)
    requires i == NextWs(u, 0) && i < |u| && k == WsRunEnd(u, i)
    requires CollapsesToWords(u[k..], false)
    ensures CollapsesToWords(u, inRun)
  {
    CollapseFirstWord(u, inRun, i, k);
    RunsStep(u, i, k);
    if k == |u| {
      LastWord(u, inRun, i);
    } else {
      WordThenWords(u, inRun, i, k);
    }
  }

  /** A word followed by a whitespace run reaching the end collapses to that word and one hyphen. */
  lemma LastWord(u: string, inRun: bool, i: nat)
    requires u != [] && !IsWs(u[0]) && NoHyphen(u) && 0 < i < |u| && IsWs(u[|u| - 1])
    requires Collapse(u, IsWs, '-', inRun) == u[..i] + "-" + Collapse(u[|u|..], IsWs, '-', false)
    requires Runs(u) == [u[..i]] + Runs(u[|u|..])
    ensures CollapsesToWords(u, inRun)
  {
    var w := u[..i];
    assert u[|u|..] == [];
    assert Runs(u) == [w];
    assert Join([w], "-") == w;
    assert w[0] == u[0];
    NoDoubleAfterWord(w, []);
  }

  /** A word, a whitespace run, then more words: the first word, one hyphen and the collapse of the rest. */
  lemma WordThenWords(u: string, inRun: bool, i: nat, k: nat)
    requires u != [] && !IsWs(u[0]) && NoHyphen(u) && 0 < i < k < |u|
    requires CollapsesToWords(u[k..], false)
    requires Collapse(u, IsWs, '-', inRun) == u[..i] + "-" + Collapse(u[k..], IsWs, '-', false)
    requires Runs(u) == [u[..i]] + Runs(u[k..])
    ensures CollapsesToWords(u, inRun)
  {
    var w := u[..i];
    var v := u[k..];
    NoDoubleAfterWord(w, Collapse(v, IsWs, '-', false));
    assert w[0] == u[0];
    assert u[|u| - 1] == v[|v| - 1];
    JoinCons(w, Runs(v), "-");
  }

  /** The first word is copied and the whitespace run after it becomes one hyphen. */
  lemma CollapseFirstWord(u: string, inRun: bool, i: nat, k: nat)
    requires u != [] && !IsWs(u[0])
    requires i == NextWs(u, 0) && i < |u| && k == WsRunEnd(u, i)
    ensures Collapse(u, IsWs, '-', inRun) == u[..i] + "-" + Collapse(u[k..], IsWs, '-', false)
  {
    assert u == u[..i] + u[i..k] + u[k..];
    CollapseWordRun(u[..i], u[i..k], u[k..], inRun);
  }

  /** A word, a whitespace run and a text not starting with whitespace collapse to the word, one hyphen and the text's collapse. */
  lemma CollapseWordRun(w: string, r: string, v: string, inRun: bool)
    requires w != [] && forall i :: 0 <= i < |w| ==> !IsWs(w[i])
    requires r != [] && forall i :: 0 <= i < |r| ==> IsWs(r[i])
    requires v == [] || !IsWs(v[0])
    ensures Collapse(w + r + v, IsWs, '-', inRun) == w + "-" + Collapse(v, IsWs, '-', false)
  {
    assert w + r + v == w + (r + v);
    CollapseWord(w, r + v, IsWs, '-', inRun);
    CollapseRun(r, v, IsWs, '-', false);
  }

  lemma JoinCons(w: string, rs: seq<string>, sep: string)
    requires rs != []
    ensures Join([w] + rs, sep) == w + sep + Join(rs, sep)
  {
    assert ([w] + rs)[1..] == rs;
  }

  /** A hyphen-free word, a hyphen and a text that does not start with one make no double hyphen. */
  lemma NoDoubleAfterWord(w: string, x: string)
    requires w != [] && NoHyphen(w)
    requires NoDoubleHyphen(x) && (x == [] || x[0] != '-')
    ensures NoDoubleHyphen(w + "-" + x)
  {
    var s := w + "-" + x;
    forall i | 0 <= i < |s| - 1 ensures !(s[i] == '-' && s[i + 1] == '-') {
      if i < |w| - 1 {
        assert s[i] == w[i];
      } else if i == |w| - 1 {
        assert s[i] == w[i];
      } else if i == |w| {
        assert s[i + 1] == x[0];
      } else {
        assert s[i] == x[i - |w| - 1] && s[i + 1] == x[i - |w|];
      }
    }
  }

  /** At most one hyphen in front of a text that does not start with one is all that is dropped. */
  lemma DropLeadingPad(pre: string, x: string)
    requires pre == [] || pre == "-"
    requires x == [] || x[0] != '-'
    ensures DropLeadingHyphens(pre + x) == x
  {
    if pre == [] {
      assert pre + x == x;
    } else {
      assert (pre + x)[1..] == x;
    }
  }

  /** At most one hyphen after a text that does not end with one is all that is dropped. */
  lemma DropTrailingPad(j: string, post: string)
    requires post == [] || post == "-"
    requires j == [] || j[|j| - 1] != '-'
    ensures DropTrailingHyphens(j + post) == j
  {
    if post == [] {
      assert j + post == j;
    } else {
      assert (j + post)[..|j + post| - 1] == j;
    }
  }

  /** Trimming a text whose ends are not hyphens, padded by at most one hyphen on each side, gives back the text. */
  lemma TrimPadded(pre: string, j: string, post: string)
    requires pre == [] || pre == "-"
    requires post == [] || post == "-"
    requires j == [] ==> post == []
    requires j != [] ==> j[0] != '-' && j[|j| - 1] != '-'
    ensures TrimHyphens(pre + j + post) == j
  {
    var x := j + post;
    assert pre + j + post == pre + x;
    assert x == [] || x[0] != '-' by {
      if j != [] {
        assert x[0] == j[0];
      }
    }
    DropLeadingPad(pre, x);
    DropTrailingPad(j, post);
  }

  /**
    On a hyphen-free text, turning whitespace runs into hyphens and
    trimming the hyphens at the ends joins its words with single hyphens.
   */
  lemma WordsSlug(u: string)
    requires NoHyphen(u)
    ensures NoDoubleHyphen(Collapse(u, IsWs, '-', false))
    ensures TrimHyphens(Collapse(u, IsWs, '-', false)) == Join(Runs(u), "-")
  {
    var k := WsRunEnd(u, 0);
    var v := u[k..];
    CollapseWords(v, false);
    RunsSkipRun(u, k);
    LeadingRunCollapse(u, k);
    PaddedCollapse(Collapse(u, IsWs, '-', false), if k == 0 then [] else "-", v);
  }

  /** The collapse of a text that starts with a word, behind at most one hyphen, trims to its words. */
  lemma PaddedCollapse(x: string, pre: string, v: string)
    requires pre == [] || pre == "-"
    requires CollapsesToWords(v, false)
    requires x == pre + Collapse(v, IsWs, '-', false)
    ensures NoDoubleHyphen(x) && TrimHyphens(x) == Join(Runs(v), "-")
  {
    var j := Join(Runs(v), "-");
    var post: string := if v != [] && IsWs(v[|v| - 1]) then "-" else "";
    PaddedWords(x, pre, j, post);
  }

  /** The collapsed text, a hyphen or nothing on each side of the joined words, trims to those words. */
  lemma PaddedWords(x: string, pre: string, j: string, post: string)
    requires pre == [] || pre == "-"
    requires post == [] || post == "-"
    requires x == pre + (j + post)
    requires j == [] ==> post == []
    requires j != [] ==> j[0] != '-' && j[|j| - 1] != '-'
    requires NoDoubleHyphen(j + post)
    ensures NoDoubleHyphen(x) && TrimHyphens(x) == j
  {
    assert x == pre + j + post;
    TrimPadded(pre, j, post);
    if pre == "-" {
      NoDoubleAfterPad(j + post);
    } else {
      assert x == j + post;
    }
  }

  /** A leading whitespace run becomes one hyphen. */
  lemma LeadingRunCollapse(u: string, k: nat)
    requires k == WsRunEnd(u, 0)
    ensures Collapse(u, IsWs, '-', false) == (if k == 0 then [] else "-") + Collapse(u[k..], IsWs, '-', false)
  {
    if k > 0 {
      assert u == u[..k] + u[k..];
      CollapseRun(u[..k], u[k..], IsWs, '-', false);
    }
  }

  lemma NoDoubleAfterPad(x: string)
    requires NoDoubleHyphen(x) && (x == [] || x[0] != '-')
    ensures NoDoubleHyphen("-" + x)
  {
    var s := "-" + x;
    forall i | 0 <= i < |s| - 1 ensures !(s[i] == '-' && s[i + 1] == '-') {
      if i == 0 {
        assert s[1] == x[0];
      } else {
        assert s[i] == x[i - 1] && s[i + 1] == x[i];
      }
    }
  }

  predicate NotSeparator(c: char) {
    c != '_' && c != '-'
  }

  /**
    A Latin text without underscores or hyphens slugs to the words of its
    lower-cased kept characters joined by single hyphens: every whitespace
    run between two words becomes exactly one `-`.
   */
  lemma LatinSlugOfWords(text: string)
    requires !HasCjk(text)
    requires forall i :: 0 <= i < |text| ==> NotSeparator(text[i])
    ensures GenerateSlug(text) == Join(Runs(Keep(LowerAscii(text), KeepLatin)), "-")
  {
    var l := LowerAscii(text);
    KeepAll(l, KeepLatin, NotSeparator);
    var a := Keep(l, KeepLatin);
    forall i | 0 <= i < |a| ensures IsWsOrUnderscore(a[i]) == IsWs(a[i]) && a[i] != '-' {
      assert NotSeparator(a[i]);
    }
    CollapseSameClass(a, IsWsOrUnderscore, IsWs, '-', false);
    WordsSlug(a);
    CollapseTidy(Collapse(a, IsWs, '-', false), false);
  }

  /**
    A text of ASCII letters, digits and whitespace slugs to its lower-cased
    words joined by single hyphens.
   */
  lemma LatinSlugWords(text: string)
    requires !HasCjk(text)
    requires forall i :: 0 <= i < |text| ==> IsAsciiAlnum(text[i]) || IsWs(text[i])
    ensures GenerateSlug(text) == Join(Runs(LowerAscii(text)), "-")
  {
    var l := LowerAscii(text);
    assert AllChars(l, KeepLatin);
    LatinSlugOfWords(text);
  }

  /**
    A CJK text of kept characters and whitespace slugs to its words, case
    and all, joined by single hyphens.
   */
  lemma CjkSlugWords(text: string)
    requires HasCjk(text)
    requires forall i :: 0 <= i < |text| ==> IsCjkSlugChar(text[i]) || IsWs(text[i])
    ensures GenerateSlug(text) == Join(Runs(text), "-")
  {
    var a := Collapse(text, IsWs, '-', false);
    CollapseAll(text, IsWs, '-', false, KeepCjk);
    WordsSlug(text);
    CollapseTidy(a, false);
  }

  /** The class `[_-]`: the separators besides whitespace in the Latin branch. */
  predicate IsUnderscoreOrHyphen(c: char) {
    c == '_' || c == '-'
  }

  /** The class `[\s_-]`: what separates two words of a Latin slug. */
  predicate IsLatinSep(c: char) {
    IsWs(c) || IsUnderscoreOrHyphen(c)
  }

  /** The class `[\s-]`: what separates two words of a CJK slug. */
  predicate IsCjkSep(c: char) {
    IsWs(c) || c == '-'
  }

  /** What the CJK branch lets through once its whitespace is counted: `\w`, the CJK block, `-` and `\s`. */
  predicate KeepCjkOrWs(c: char) {
    KeepCjk(c) || IsWs(c)
  }

  /** `s` with every character of the class `extra` read as a space. */
  function Blanked(s: string, extra: char -> bool): (r: string)
    ensures |r| == |s|
    ensures forall i :: 0 <= i < |s| ==> r[i] == if extra(s[i]) then ' ' else s[i]
    decreases |s|
  {
    if s == [] then [] else [if extra(s[0]) then ' ' else s[0]] + Blanked(s[1..], extra)
  }

  /** Collapsing the runs of `\s` plus `extra` is collapsing the whitespace runs once `extra` reads as a space. */
  lemma {:induction false} CollapseBlanked(u: string, extra: char -> bool, sep: char -> bool, inRun: bool)
    requires forall i :: 0 <= i < |u| ==> sep(u[i]) == (IsWs(u[i]) || extra(u[i]))
    ensures Collapse(u, sep, '-', inRun) == Collapse(Blanked(u, extra), IsWs, '-', inRun)
    decreases |u|
  {
    if u != [] {
      var b := Blanked(u, extra);
      assert b[1..] == Blanked(u[1..], extra);
      CollapseBlanked(u[1..], extra, sep, true);
      CollapseBlanked(u[1..], extra, sep, false);
    }
  }

  /**
    The Latin branch's two replacements, `[\s_]+` and then `-+`, act as one:
    every run of `[\s_-]` becomes a single hyphen.
   */
  lemma {:induction false} CollapseTwice(u: string, inWs: bool, inHyphen: bool)
    requires inWs ==> inHyphen
    ensures Collapse(Collapse(u, IsWsOrUnderscore, '-', inWs), IsHyphen, '-', inHyphen)
         == Collapse(u, IsLatinSep, '-', inHyphen)
    decreases |u|
  {
    if u != [] {
      var rest := u[1..];
      if IsWsOrUnderscore(u[0]) {
        var c := Collapse(rest, IsWsOrUnderscore, '-', true);
        assert (['-'] + c)[0] == '-' && (['-'] + c)[1..] == c;
        CollapseTwice(rest, true, true);
      } else {
        var c := Collapse(rest, IsWsOrUnderscore, '-', false);
        assert ([u[0]] + c)[0] == u[0] && ([u[0]] + c)[1..] == c;
        CollapseTwice(rest, false, u[0] == '-');
      }
    }
  }

  /**
    The CJK branch's steps, `\s+` to `-`, the filter, then `-+` to `-`, give
    what filtering first and then collapsing every run of `[\s-]` gives: a
    dropped character between two whitespace runs only leaves two hyphens
    that the last step merges.
   */
  lemma {:induction false} CollapseKeepCjk(t: string, inWs: bool, inHyphen: bool)
    requires inWs ==> inHyphen
    ensures Collapse(Keep(Collapse(t, IsWs, '-', inWs), KeepCjk), IsHyphen, '-', inHyphen)
         == Collapse(Keep(t, KeepCjkOrWs), IsCjkSep, '-', inHyphen)
    decreases |t|
  {
    if t != [] {
      var rest := t[1..];
      if IsWs(t[0]) {
        var c := Collapse(rest, IsWs, '-', true);
        assert (['-'] + c)[0] == '-' && (['-'] + c)[1..] == c;
        CollapseKeepCjk(rest, true, true);
        var k := Keep(c, KeepCjk);
        assert (['-'] + k)[0] == '-' && (['-'] + k)[1..] == k;
        var w := Keep(rest, KeepCjkOrWs);
        assert ([t[0]] + w)[0] == t[0] && ([t[0]] + w)[1..] == w;
      } else {
        var c := Collapse(rest, IsWs, '-', false);
        assert ([t[0]] + c)[0] == t[0] && ([t[0]] + c)[1..] == c;
        var k := Keep(c, KeepCjk);
        assert ([t[0]] + k)[0] == t[0] && ([t[0]] + k)[1..] == k;
        var w := Keep(rest, KeepCjkOrWs);
        assert ([t[0]] + w)[0] == t[0] && ([t[0]] + w)[1..] == w;
        if KeepCjk(t[0]) {
          CollapseKeepCjk(rest, false, t[0] == '-');
        } else {
          CollapseKeepCjk(rest, false, inHyphen);
        }
      }
    }
  }

  /**
    A Latin text slugs to its words, split at every run of `[\s_-]`, of its
    lower-cased kept characters, joined by single hyphens: whitespace,
    underscores and hyphens all separate words, and a run of them becomes
    exactly one `-`.
   */
  lemma LatinSlugSplit(text: string)
    requires !HasCjk(text)
    ensures GenerateSlug(text) == Join(Runs(Blanked(Keep(LowerAscii(text), KeepLatin), IsUnderscoreOrHyphen)), "-")
  {
    var a := Keep(LowerAscii(text), KeepLatin);
    var b := Blanked(a, IsUnderscoreOrHyphen);
    CollapseTwice(a, false, false);
    CollapseBlanked(a, IsUnderscoreOrHyphen, IsLatinSep, false);
    assert NoHyphen(b);
    WordsSlug(b);
  }

  /**
    A CJK text slugs to its words, split at every run of `[\s-]` once the
    characters the branch drops are gone, joined by single hyphens.
   */
  lemma CjkSlugSplit(text: string)
    requires HasCjk(text)
    ensures GenerateSlug(text) == Join(Runs(Blanked(Keep(text, KeepCjkOrWs), IsHyphen)), "-")
  {
    var a := Keep(text, KeepCjkOrWs);
    var b := Blanked(a, IsHyphen);
    CollapseKeepCjk(text, false, false);
    CollapseBlanked(a, IsHyphen, IsCjkSep, false);
    assert NoHyphen(b);
    WordsSlug(b);
  }

  /** `Hello World!` becomes `hello-world`. */
  lemma HelloWorldSlug(t: string)
    requires t == "Hello World!"
    ensures GenerateSlug(t) == "hello-world"
  {
    HelloWorldPlain(t);
    LatinSlugOfWords(t);
    HelloWorldKept(t);
    HelloWorldRuns("hello world");
    assert ["hello", "world"][1..] == ["world"];
    assert Join(["hello", "world"], "-") == "hello" + "-" + "world";
    HelloDashWorld();
  }

  lemma HelloWorldPlain(t: string)
    requires t == "Hello World!"
    ensures !HasCjk(t)
    ensures forall i :: 0 <= i < |t| ==> NotSeparator(t[i])
  {
    forall i | 0 <= i < |t| ensures !IsCjkTrigger(t[i]) && NotSeparator(t[i]) {
      assert t[i] in "HeloWrd !";
    }
  }

  lemma HelloWorldKept(t: string)
    requires t == "Hello World!"
    ensures Keep(LowerAscii(t), KeepLatin) == "hello world"
  {
    var l := LowerAscii(t);
    var w := "hello world";
    assert l == w + "!" by {
      forall i | 0 <= i < |l| ensures l[i] == (w + "!")[i] {
        assert i < |w| ==> t[i] in "HeloWrd " && (w + "!")[i] == w[i];
      }
    }
    KeepConcat(w, "!", KeepLatin);
    HelloWorldLatin(w);
    BangDropped();
    assert w + [] == w;
  }

  lemma HelloWorldRuns(s: string)
    requires s == "hello world"
    ensures Runs(s) == ["hello", "world"]
  {
    HelloSpaceWorld(s);
    RunsConcat("hello ", "world");
    HelloRun("hello ");
    WorldRun("world");
  }

  lemma HelloSpaceWorld(s: string)
    requires s == "hello world"
    ensures s == "hello " + "world"
  {
  }

  lemma HelloRun(s: string)
    requires s == "hello "
    ensures Runs(s) == ["hello"]
  {
    assert s == "hello" + " ";
    RunsOfWord("hello", " ");
  }

  lemma WorldRun(s: string)
    requires s == "world"
    ensures Runs(s) == ["world"]
  {
    assert s == s + "";
    RunsOfWord(s, "");
  }

  lemma HelloDashWorld()
    ensures "hello" + "-" + "world" == "hello-world"
  {
  }

  lemma HelloWorldLatin(w: string)
    requires w == "hello world"
    ensures AllChars(w, KeepLatin)
  {
    forall i | 0 <= i < |w| ensures KeepLatin(w[i]) {
      assert w[i] == ' ' || 'a' <= w[i] <= 'z';
    }
  }

  lemma BangDropped()
    ensures Keep("!", KeepLatin) == []
  {
    assert !KeepLatin("!"[0]);
  }
}
