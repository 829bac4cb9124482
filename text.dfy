/**
  JavaScript string primitives that the reader's text processing is built on:
  the `\s` character class (which is also the set `String.prototype.trim`
  strips), `\w`, line terminators, `trim`, `split(/\s+/)`, `indexOf`,
  `replace` of the first occurrence of a literal string, and `join`.
  Strings are sequences of characters.
 */
module Text {

  datatype Option<+T> = None | Some(value: T)

  /** The line terminators of ECMAScript: `.` does not match them, and `^`/`$` in multiline mode stop at them. */
  predicate IsLineTerminator(c: char) {
    c == '\n' || c == '\r' || c == '\U{2028}' || c == '\U{2029}'
  }

  /** ECMAScript WhiteSpace and LineTerminator: the class `\s`, and what `trim` removes. */
  predicate IsWs(c: char) {
    c == '\t' || c == '\n' || c == '\U{B}' || c == '\U{C}' || c == '\r' || c == ' '
    || c == '\U{A0}' || c == '\U{1680}' || ('\U{2000}' <= c <= '\U{200A}')
    || c == '\U{2028}' || c == '\U{2029}' || c == '\U{202F}' || c == '\U{205F}'
    || c == '\U{3000}' || c == '\U{FEFF}'
  }

  /** The class `\w` (no `u` flag): ASCII letters, digits and underscore. */
  predicate IsWordChar(c: char) {
    ('a' <= c <= 'z') || ('A' <= c <= 'Z') || ('0' <= c <= '9') || c == '_'
  }

  predicate NoWs(s: string) {
    forall i :: 0 <= i < |s| ==> !IsWs(s[i])
  }

  predicate AllWs(s: string) {
    forall i :: 0 <= i < |s| ==> IsWs(s[i])
  }

  /** A string that `trim` leaves as it is. */
  predicate Trimmed(s: string) {
    s == [] || (!IsWs(s[0]) && !IsWs(s[|s| - 1]))
  }

  /** First index at or after `i` whose character is whitespace, or `|s|`. */
  function NextWs(s: string, i: nat): (j: nat)
    requires i <= |s|
    ensures i <= j <= |s|
    ensures j < |s| ==> IsWs(s[j])
    ensures forall k :: i <= k < j ==> !IsWs(s[k])
    decreases |s| - i
  {
    if i == |s| || IsWs(s[i]) then i else NextWs(s, i + 1)
  }

  /** First index at or after `i` whose character is not whitespace, or `|s|`: the end of a `\s*` run. */
  function WsRunEnd(s: string, i: nat): (j: nat)
    requires i <= |s|
    ensures i <= j <= |s|
    ensures j < |s| ==> !IsWs(s[j])
    ensures forall k :: i <= k < j ==> IsWs(s[k])
    decreases |s| - i
  {
    if i == |s| || !IsWs(s[i]) then i else WsRunEnd(s, i + 1)
  }

  function TrimStart(s: string): (r: string)
    ensures |r| <= |s| && r == s[|s| - |r|..]
    ensures r == [] || !IsWs(r[0])
    ensures forall i :: 0 <= i < |s| - |r| ==> IsWs(s[i])
  {
    if s != [] && IsWs(s[0]) then TrimStart(s[1..]) else s
  }

  function TrimEnd(s: string): (r: string)
    ensures |r| <= |s| && r == s[..|r|]
    ensures r == [] || !IsWs(r[|r| - 1])
    ensures forall i :: |r| <= i < |s| ==> IsWs(s[i])
  {
    if s != [] && IsWs(s[|s| - 1]) then TrimEnd(s[..|s| - 1]) else s
  }

  /** `s` is `r` with only whitespace before it, from index `a` on, and only whitespace after it. */
  predicate TrimmedFrom(s: string, r: string, a: nat) {
    a + |r| <= |s| && r == s[a..a + |r|] && AllWs(s[..a]) && AllWs(s[a + |r|..])
  }

  /** `s.trim()`: the middle of `s`, with the whitespace at both ends cut off. */
  function Trim(s: string): (r: string)
    ensures Trimmed(r)
    ensures exists a: nat :: TrimmedFrom(s, r, a)
    ensures r == [] <==> AllWs(s)
    ensures Trimmed(s) ==> r == s
  {
    var t := TrimStart(s);
    var r := TrimEnd(t);
    TrimmedParts(s, t, r);
    r
  }

  /** A suffix after whitespace, cut short before whitespace, sits in the text between that whitespace. */
  lemma TrimmedParts(s: string, t: string, r: string)
    requires |t| <= |s| && t == s[|s| - |t|..] && forall i :: 0 <= i < |s| - |t| ==> IsWs(s[i])
    requires |r| <= |t| && r == t[..|r|] && forall i :: |r| <= i < |t| ==> IsWs(t[i])
    ensures TrimmedFrom(s, r, |s| - |t|)
  {
    var a := |s| - |t|;
    assert s[a + |r|..] == t[|r|..];
  }

  /**
    `s.split(/\s+/)`: the pieces between maximal whitespace runs. The empty
    string gives one empty piece, and leading or trailing whitespace gives an
    empty first or last piece.
   */
  function SplitWs(s: string): (r: seq<string>)
    ensures |r| >= 1
    decreases |s|
  {
    var i := NextWs(s, 0);
    if i == |s| then [s]
    else [s[..i]] + SplitWs(s[WsRunEnd(s, i)..])
  }

  /**
    The maximal runs of non-whitespace characters of `s`, in order: an
    independent description of the words of a text.
   */
  function Runs(s: string): seq<string>
    decreases |s|
  {
    if s == [] then []
    else if IsWs(s[0]) then Runs(s[1..])
    else
      var i := NextWs(s, 0);
      [s[..i]] + Runs(s[i..])
  }

  /** Every word is non-empty and free of whitespace. */
  lemma {:induction false} RunsPieces(s: string)
    ensures forall k :: 0 <= k < |Runs(s)| ==> Runs(s)[k] != [] && NoWs(Runs(s)[k])
    decreases |s|
  {
    if s != [] {
      if IsWs(s[0]) {
        RunsPieces(s[1..]);
      } else {
        var i := NextWs(s, 0);
        RunsPieces(s[i..]);
        assert NoWs(s[..i]);
      }
    }
  }

  /** Leading whitespace does not change the words. */
  lemma {:induction false} RunsSkipRun(s: string, k: nat)
    requires k <= |s| && forall m :: 0 <= m < k ==> IsWs(s[m])
    ensures Runs(s) == Runs(s[k..])
    decreases k
  {
    if k > 0 {
      RunsSkipRun(s[1..], k - 1);
      assert s[1..][k - 1..] == s[k..];
    }
  }

  /** Splitting the trimmed text on whitespace runs yields exactly its words. */
  lemma SplitTrimmedIsRuns(s: string)
    requires !AllWs(s)
    ensures SplitWs(Trim(s)) == Runs(s)
  {
    var t := TrimStart(s);
    assert t == [] ==> AllWs(s);
    RunsSkipRun(s, |s| - |t|);
    SplitTrimEndIsRuns(t);
  }

  lemma {:induction false} SplitTrimEndIsRuns(u: string)
    requires u != [] && !IsWs(u[0])
    ensures SplitWs(TrimEnd(u)) == Runs(u)
    decreases |u|
  {
    var i := NextWs(u, 0);
    if i == |u| {
      assert u[..i] == u;
      assert TrimEnd(u) == u;
    } else {
      var j := WsRunEnd(u, i);
      if j == |u| {
        SplitRunsOneWord(u, i);
      } else {
        RunsStep(u, i, j);
        SplitStep(u, i, j);
        SplitTrimEndIsRuns(u[j..]);
      }
    }
  }

  /** The case of one word followed by whitespace only. */
  lemma SplitRunsOneWord(u: string, i: nat)
    requires u != [] && !IsWs(u[0]) && i == NextWs(u, 0) && i < |u| && WsRunEnd(u, i) == |u|
    ensures SplitWs(TrimEnd(u)) == Runs(u)
  {
    RunsSkipRun(u[i..], |u| - i);
    TrimEndDropsWs(u, i);
    var e := TrimEnd(u);
    NextWsIs(e, 0, |e|);
  }

  /** Trimming the end removes exactly a trailing whitespace run. */
  lemma {:induction false} TrimEndDropsWs(u: string, k: nat)
    requires 0 < k <= |u| && !IsWs(u[k - 1]) && forall m :: k <= m < |u| ==> IsWs(u[m])
    ensures TrimEnd(u) == u[..k]
    decreases |u| - k
  {
    if k < |u| {
      TrimEndDropsWs(u[..|u| - 1], k);
      assert u[..|u| - 1][..k] == u[..k];
    }
  }

  lemma RunsStep(u: string, i: nat, j: nat)
    requires u != [] && !IsWs(u[0]) && i == NextWs(u, 0) && i < |u| && j == WsRunEnd(u, i)
    ensures Runs(u) == [u[..i]] + Runs(u[j..])
  {
    assert Runs(u) == [u[..i]] + Runs(u[i..]);
    RunsSkipRun(u[i..], j - i);
    assert u[i..][j - i..] == u[j..];
  }

  lemma SplitStep(u: string, i: nat, j: nat)
    requires u != [] && !IsWs(u[0]) && i == NextWs(u, 0) && i < |u| && j == WsRunEnd(u, i) && j < |u|
    ensures SplitWs(TrimEnd(u)) == [u[..i]] + SplitWs(TrimEnd(u[j..]))
  {
    var e := TrimEnd(u);
    TrimEndAtWord(u, j);
    NextWsAgree(u, e, i);
    WsRunEndAgree(u, e, i, j);
    assert e[..i] == u[..i];
  }

  /** Trimming the end of `u` keeps everything before a non-whitespace character at `j`. */
  lemma TrimEndAtWord(u: string, j: nat)
    requires j < |u| && !IsWs(u[j])
    ensures j < |TrimEnd(u)| && TrimEnd(u)[..j + 1] == u[..j + 1]
    ensures TrimEnd(u)[j..] == TrimEnd(u[j..])
  {
    var e := TrimEnd(u);
    var t := TrimEnd(u[j..]);
    TrimEndKeepsPrefix(u, j);
    assert t != [] && t[0] == u[j];
    assert e[j..] == t;
  }

  lemma {:induction false} TrimEndKeepsPrefix(u: string, j: nat)
    requires j < |u| && !IsWs(u[j])
    ensures TrimEnd(u) == u[..j] + TrimEnd(u[j..])
    decreases |u|
  {
    if IsWs(u[|u| - 1]) {
      assert |u| - 1 > j;
      assert u[..|u| - 1][..j] == u[..j];
      assert u[..|u| - 1][j..] == u[j..][..|u[j..]| - 1];
      TrimEndKeepsPrefix(u[..|u| - 1], j);
    } else {
      assert u == u[..j] + u[j..];
    }
  }

  lemma NextWsAgree(u: string, e: string, i: nat)
    requires i < |u| && i < |e| && u[..i + 1] == e[..i + 1]
    requires NextWs(u, 0) == i
    ensures NextWs(e, 0) == i
  {
    assert forall m :: 0 <= m <= i ==> e[m] == u[m] by {
      forall m | 0 <= m <= i ensures e[m] == u[m] {
        assert e[..i + 1][m] == u[..i + 1][m];
      }
    }
    NextWsIs(e, 0, i);
  }

  lemma {:induction false} NextWsIs(e: string, k: nat, i: nat)
    requires k <= i <= |e| && (i == |e| || IsWs(e[i]))
    requires forall m :: k <= m < i ==> !IsWs(e[m])
    ensures NextWs(e, k) == i
    decreases i - k
  {
    if k < i {
      NextWsIs(e, k + 1, i);
    }
  }

  lemma {:induction false} WsRunEndAgree(u: string, e: string, i: nat, j: nat)
    requires i <= j < |u| && j < |e| && u[..j + 1] == e[..j + 1]
    requires WsRunEnd(u, i) == j
    ensures WsRunEnd(e, i) == j
    decreases j - i
  {
    assert e[i] == e[..j + 1][i] && u[i] == u[..j + 1][i];
    if i < j {
      WsRunEndAgree(u, e, i + 1, j);
    } else {
      assert e[j] == u[j];
    }
  }

  /** Words of a concatenation whose left part ends in whitespace are the words of both parts. */
  lemma {:induction false} RunsConcat(w: string, y: string)
    requires w == [] || IsWs(w[|w| - 1])
    ensures Runs(w + y) == Runs(w) + Runs(y)
    decreases |w|
  {
    if w == [] {
      assert w + y == y;
    } else if IsWs(w[0]) {
      assert (w + y)[1..] == w[1..] + y;
      RunsConcat(w[1..], y);
    } else {
      var i := RunsConcatWord(w, y);
      var v := w[i..];
      assert IsWs(v[|v| - 1]);
      RunsConcat(v, y);
      ConsAssoc(Runs(w + y), w[..i], Runs(v), Runs(y), Runs(w));
    }
  }

  lemma ConcatAssoc<T>(a: seq<T>, b: seq<T>, c: seq<T>)
    ensures (a + b) + c == a + (b + c)
  {
  }

  lemma ConsAssoc<T>(l: seq<T>, a: T, x: seq<T>, y: seq<T>, m: seq<T>)
    requires l == [a] + (x + y) && m == [a] + x
    ensures l == m + y
  {
  }

  lemma RunsConcatWord(w: string, y: string) returns (i: nat)
    requires w != [] && !IsWs(w[0]) && IsWs(w[|w| - 1])
    ensures 0 < i < |w|
    ensures Runs(w + y) == [w[..i]] + Runs(w[i..] + y)
    ensures Runs(w) == [w[..i]] + Runs(w[i..])
  {
    i := NextWs(w, 0);
    assert i < |w|;
    NextWsIs(w + y, 0, i);
    assert (w + y)[..i] == w[..i];
    assert (w + y)[i..] == w[i..] + y;
  }

  lemma RunsOfWs(w: string)
    requires AllWs(w)
    ensures Runs(w) == []
  {
    RunsSkipRun(w, |w|);
  }

  /** A single non-empty word followed by whitespace only has that word as its only run. */
  lemma RunsOfWord(k: string, tail: string)
    requires k != [] && NoWs(k) && AllWs(tail)
    ensures Runs(k + tail) == [k]
  {
    var s := k + tail;
    assert s[0] == k[0];
    NextWsIs(s, 0, |k|);
    assert s[..|k|] == k;
    assert s[|k|..] == tail;
    RunsOfWs(tail);
  }

  /** `pat` occurs in `s` at position `k`. */
  predicate OccursAt(s: string, pat: string, k: nat) {
    k + |pat| <= |s| && s[k..k + |pat|] == pat
  }

  /** `s.indexOf(pat)` searching from `from`: the first position of an occurrence. */
  function IndexFrom(s: string, pat: string, from: nat): (r: Option<nat>)
    requires from <= |s| + 1
    ensures r.Some? ==> from <= r.value && OccursAt(s, pat, r.value)
    ensures r.Some? ==> forall k :: from <= k < r.value ==> !OccursAt(s, pat, k)
    ensures r.None? ==> forall k :: from <= k ==> !OccursAt(s, pat, k)
    decreases |s| + 1 - from
  {
    if from + |pat| > |s| then None
    else if s[from..from + |pat|] == pat then Some(from)
    else IndexFrom(s, pat, from + 1)
  }

  function IndexOf(s: string, pat: string): Option<nat> {
    IndexFrom(s, pat, 0)
  }

  /** `s.includes(pat)`. */
  predicate Contains(s: string, pat: string) {
    IndexOf(s, pat).Some?
  }

  /** `pat` occurs somewhere in `s`. */
  ghost predicate Infix(s: string, pat: string) {
    exists k: nat :: OccursAt(s, pat, k)
  }

  /** `includes` finds exactly the patterns that occur. */
  lemma ContainsIff(s: string, pat: string)
    ensures Contains(s, pat) <==> Infix(s, pat)
  {
    if !Contains(s, pat) {
      assert forall k: nat :: !OccursAt(s, pat, k);
    }
  }

  lemma InfixLeft(a: string, b: string, w: string)
    requires Infix(a, w)
    ensures Infix(a + b, w)
  {
    var k: nat :| OccursAt(a, w, k);
    assert (a + b)[k..k + |w|] == a[k..k + |w|];
    assert OccursAt(a + b, w, k);
  }

  lemma InfixRight(a: string, b: string, w: string)
    requires Infix(b, w)
    ensures Infix(a + b, w)
  {
    var k: nat :| OccursAt(b, w, k);
    assert (a + b)[|a| + k..|a| + k + |w|] == b[k..k + |w|];
    assert OccursAt(a + b, w, |a| + k);
  }

  lemma InfixMiddle(a: string, m: string, c: string, w: string)
    requires Infix(m, w)
    ensures Infix(a + m + c, w)
  {
    InfixRight(a, m, w);
    InfixLeft(a + m, c, w);
  }

  /** An occurrence inside an occurrence is an occurrence. */
  lemma InfixTrans(s: string, w: string, v: string)
    requires Infix(s, w) && Infix(w, v)
    ensures Infix(s, v)
  {
    var k: nat :| OccursAt(s, w, k);
    var j: nat :| OccursAt(w, v, j);
    assert s[k..k + |w|] == w;
    forall m | 0 <= m < |v| ensures s[k + j + m] == v[m] {
      assert s[k + j + m] == w[j + m];
    }
    assert s[k + j..k + j + |v|] == v;
    assert OccursAt(s, v, k + j);
  }

  /** `s.replace(pat, repl)` for a literal pattern: the first occurrence only, the rest untouched. */
  function ReplaceFirst(s: string, pat: string, repl: string): (r: string)
    ensures !Contains(s, pat) ==> r == s
    ensures Contains(s, pat) ==> var k := IndexOf(s, pat).value;
      OccursAt(s, pat, k) && r == s[..k] + repl + s[k + |pat|..]
      && forall j: nat :: j < k ==> !OccursAt(s, pat, j)
  {
    match IndexOf(s, pat)
    case None => s
    case Some(k) => s[..k] + repl + s[k + |pat|..]
  }

  /** `xs.join(sep)`. */
  function Join(xs: seq<string>, sep: string): string
    decreases |xs|
  {
    if |xs| == 0 then ""
    else if |xs| == 1 then xs[0]
    else xs[0] + sep + Join(xs[1..], sep)
  }

  /** Joining one more piece appends the separator and that piece. */
  lemma {:induction false} JoinSnoc(xs: seq<string>, y: string, sep: string)
    requires xs != []
    ensures Join(xs + [y], sep) == Join(xs, sep) + sep + y
    decreases |xs|
  {
    if |xs| == 1 {
      assert xs + [y] == [xs[0], y];
      assert [xs[0], y][1..] == [y];
    } else {
      assert (xs + [y])[1..] == xs[1..] + [y];
      JoinSnoc(xs[1..], y, sep);
    }
  }
}
