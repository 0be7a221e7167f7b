/**
 * The split of a sub-menu entry label of the form "Title (detail)" into a
 * title and a detail line, by a whole-string match of the pattern
 * `(.*)\s*\((.+)\)` with backtracking, greedy quantifiers.
 *
 * `.` matches any character but a line terminator (\n, \r, U+0085, U+2028,
 * U+2029); `\s` matches space, \t, \n, U+000B, \f and \r.
 */
module TitleSplit {
  import opened Wrappers

  predicate IsLineTerminator(c: char)
  {
    c == '\n' || c == '\r' || c == '\U{85}' || c == '\U{2028}' || c == '\U{2029}'
  }

  predicate IsSpace(c: char)
  {
    c == ' ' || c == '\t' || c == '\n' || c == '\U{B}' || c == '\U{C}' || c == '\r'
  }

  /** Every character matches `.` */
  predicate AnyChars(s: string)
  {
    forall i :: 0 <= i < |s| ==> !IsLineTerminator(s[i])
  }

  /** Every character matches `\s` */
  predicate AllSpace(s: string)
  {
    forall i :: 0 <= i < |s| ==> IsSpace(s[i])
  }

  /**
   * A way for the whole text to match the pattern: group 1 `title`, the
   * `\s*` part `ws`, and group 2 `detail` between the parentheses.
   */
  predicate Decomposes(text: string, title: string, ws: string, detail: string)
  {
    && text == title + ws + "(" + detail + ")"
    && AnyChars(title)
    && AllSpace(ws)
    && |detail| > 0
    && AnyChars(detail)
  }

  /** The whole text matches the pattern. */
  ghost predicate Matches(text: string)
  {
    exists t, ws, d :: Decomposes(text, t, ws, d)
  }

  /** The length of the longest run of `\s` characters starting at `a`. */
  function SpaceRun(s: string, a: nat): (n: nat)
    requires a <= |s|
    ensures a + n <= |s|
    ensures AllSpace(s[a..a + n])
    ensures a + n == |s| || !IsSpace(s[a + n])
    decreases |s| - a
  {
    if a < |s| && IsSpace(s[a]) then
      var n := SpaceRun(s, a + 1);
      assert s[a..a + 1 + n] == [s[a]] + s[a + 1..a + 1 + n];
      1 + n
    else 0
  }

  /**
   * The match, if any, once group 1 has taken the first `a` characters:
   * `\s*` then takes the whole run of white space (a shorter run would leave
   * a white-space character where `\(` is needed), and `(.+)\)` must take
   * the rest.
   */
  function MatchAt(s: string, a: nat): (r: Option<(string, string)>)
    requires a <= |s|
  {
    var j := a + SpaceRun(s, a);
    if AnyChars(s[..a]) && j + 2 < |s| && s[j] == '(' && s[|s| - 1] == ')' && AnyChars(s[j + 1..|s| - 1])
    then Some((s[..a], s[j + 1..|s| - 1]))
    else None
  }

  /** A white-space run followed by a non-space character is exactly the longest run. */
  lemma {:induction false} SpaceRunExact(s: string, a: nat, k: nat)
    requires a + k < |s| && AllSpace(s[a..a + k]) && !IsSpace(s[a + k])
    ensures SpaceRun(s, a) == k
    decreases k
  {
    if k > 0 {
      assert IsSpace(s[a..a + k][0]);
      assert s[a + 1..a + k] == s[a..a + k][1..];
      SpaceRunExact(s, a + 1, k - 1);
    }
  }

  /** `MatchAt` finds a match at `a` exactly when the text decomposes with a group 1 of length `a`. */
  lemma MatchAtDecomposes(s: string, a: nat)
    requires a <= |s|
    ensures MatchAt(s, a).Some? ==> Decomposes(s, MatchAt(s, a).value.0, s[a..a + SpaceRun(s, a)], MatchAt(s, a).value.1)
  {
    var j := a + SpaceRun(s, a);
    if MatchAt(s, a).Some? {
      assert s == s[..a] + s[a..j] + "(" + s[j + 1..|s| - 1] + ")";
    }
  }

  lemma DecomposesMatchAt(s: string, t: string, ws: string, d: string)
    requires Decomposes(s, t, ws, d)
    ensures MatchAt(s, |t|) == Some((t, d))
  {
    var a := |t|;
    var j := a + |ws|;
    assert s[a..j] == ws;
    assert s[j] == '(';
    SpaceRunExact(s, a, |ws|);
    assert s[..a] == t;
    assert s[j + 1..|s| - 1] == d;
  }

  /**
   * The backtracking search for group 1: the longest prefix, no longer than
   * `a`, after which the rest of the pattern matches.
   */
  function SearchFrom(s: string, a: nat): (r: Option<(string, string)>)
    requires a <= |s|
    ensures r.Some? ==> |r.value.0| <= a && MatchAt(s, |r.value.0|) == r
    ensures r.Some? ==> forall b :: |r.value.0| < b <= a ==> MatchAt(s, b).None?
    ensures r.None? ==> forall b :: 0 <= b <= a ==> MatchAt(s, b).None?
    decreases a
  {
    var m := MatchAt(s, a);
    if m.Some? then
      assert |m.value.0| == a;
      m
    else if a == 0 then None
    else SearchFrom(s, a - 1)
  }

  /** A text split into the title line and the optional detail line. */
  datatype Split = Split(title: string, detail: Option<string>)

  /** The title/detail split of `getView`: groups 1 and 2 on a match, else the whole text. */
  function SplitTitle(text: string): (r: Split)
    ensures r.detail.None? ==> r.title == text
    ensures r.detail.Some? ==> |r.detail.value| > 0
  {
    match SearchFrom(text, |text|)
    case Some((t, d)) =>
      MatchAtDecomposes(text, |t|);
      Split(t, Some(d))
    case None => Split(text, None)
  }

  /** A detail is produced only from a real match of the pattern. */
  lemma SplitSound(text: string)
    ensures SplitTitle(text).detail.Some? ==>
      exists ws :: Decomposes(text, SplitTitle(text).title, ws, SplitTitle(text).detail.value)
  {
    var r := SearchFrom(text, |text|);
    if r.Some? {
      MatchAtDecomposes(text, |r.value.0|);
    }
  }

  /** The text has a detail exactly when the whole text matches the pattern. */
  lemma SplitComplete(text: string)
    ensures SplitTitle(text).detail.Some? <==> Matches(text)
  {
    var r := SearchFrom(text, |text|);
    if r.None? {
      NoMatchNoDecomposition(text);
    } else {
      var a := |r.value.0|;
      MatchAtDecomposes(text, a);
      assert Decomposes(text, r.value.0, text[a..a + SpaceRun(text, a)], r.value.1);
    }
  }

  /** When the search finds nothing, the text has no decomposition at all. */
  lemma NoMatchNoDecomposition(text: string)
    requires SearchFrom(text, |text|).None?
    ensures !Matches(text)
  {
    forall t, ws, d | Decomposes(text, t, ws, d)
      ensures false
    {
      DecomposesMatchAt(text, t, ws, d);
    }
  }

  /** Group 1 is greedy: among all matches the split takes the longest title. */
  lemma SplitGreedy(text: string, t: string, ws: string, d: string)
    requires Decomposes(text, t, ws, d)
    ensures SplitTitle(text).detail.Some?
    ensures |t| <= |SplitTitle(text).title|
  {
    DecomposesMatchAt(text, t, ws, d);
  }

  /**
   * On a text without line terminators greedy group 1 also takes the white
   * space before the parenthesis: the text is exactly title + "(" + detail + ")".
   */
  lemma SplitReassembles(text: string)
    requires AnyChars(text)
    ensures SplitTitle(text).detail.Some? ==>
      text == SplitTitle(text).title + "(" + SplitTitle(text).detail.value + ")"
    ensures SplitTitle(text).detail.Some? ==> |text| > 0 && text[|text| - 1] == ')'
  {
    var r := SplitTitle(text);
    if r.detail.Some? {
      SplitSound(text);
      var ws :| Decomposes(text, r.title, ws, r.detail.value);
      if |ws| > 0 {
        var t' := r.title + ws;
        assert text == t' + "" + "(" + r.detail.value + ")";
        assert t' == text[..|t'|];
        assert Decomposes(text, t', "", r.detail.value);
        SplitGreedy(text, t', "", r.detail.value);
        assert false;
      }
      assert text == r.title + "(" + r.detail.value + ")";
    }
  }

  /** An example: the space before the parenthesis stays in the title. */
  lemma SplitExample()
    ensures SplitTitle("Auto (x)") == Split("Auto ", Some("x"))
  {
    var s := "Auto (x)";
    assert Decomposes(s, "Auto ", "", "x");
    SplitReassembles(s);
    SplitGreedy(s, "Auto ", "", "x");
  }
}
