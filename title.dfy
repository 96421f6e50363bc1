/**
 * Title extraction of the site generator (`extract_title` in generator.rb).
 *
 * The source matches the markdown text against the Ruby regular expression
 * `/^#\s+(.+)$/` and returns capture group 1, or the fixed default title when
 * there is no match.  This module gives both
 *   - the declarative meaning of that expression (`IsMatch`, and `Leftmost`,
 *     the match a backtracking engine reports: leftmost start, then the
 *     longest `\s+` run that still lets `.+` match), and
 *   - an executable search (`MatchAt`, `Search`, `ExtractTitle`)
 * and proves that the search returns exactly the group of the reported match.
 */
module Title {
  import opened Wrappers

  /** The fallback title used when the document has no level-1 heading. */
  const DefaultTitle: string := "My Static Site"

  /** Ruby's `\s`: space, tab, line feed, vertical tab, form feed, carriage return. */
  predicate IsSpace(c: char) {
    c == ' ' || c == '\t' || c == '\n' || c == '\U{000B}' || c == '\U{000C}' || c == '\r'
  }

  /** Ruby's `^`: the start of the text or the position just after a line feed. */
  predicate AtLineStart(s: string, p: nat) {
    p == 0 || (p <= |s| && s[p - 1] == '\n')
  }

  /**
   * The end of the line that contains position k: the first line feed at or
   * after k, or the end of the text.  `.+` followed by `$` always stops there.
   */
  function LineEnd(s: string, k: nat): (e: nat)
    requires k <= |s|
    ensures k <= e <= |s|
    ensures e == |s| || s[e] == '\n'
    ensures forall j :: k <= j < e ==> s[j] != '\n'
    decreases |s| - k
  {
    if k == |s| || s[k] == '\n' then k else LineEnd(s, k + 1)
  }

  /**
   * `/^#\s+(.+)$/` matches with the `#` at p and group 1 starting at k: p is a
   * line start holding `#`, everything strictly between p and k is `\s`
   * (at least one character), and `.+` can take at least the character at k.
   * Group 1 is then s[k..LineEnd(s, k)].
   */
  ghost predicate IsMatch(s: string, p: nat, k: nat) {
    && p + 2 <= k < |s|
    && AtLineStart(s, p)
    && s[p] == '#'
    && (forall j :: p < j < k ==> IsSpace(s[j]))
    && s[k] != '\n'
  }

  /** No match starts at p. */
  ghost predicate NoMatchAt(s: string, p: nat) {
    forall k: nat :: !IsMatch(s, p, k)
  }

  /** No position of the text starts a match. */
  ghost predicate NoHeading(s: string) {
    forall p: nat, k: nat :: !IsMatch(s, p, k)
  }

  /**
   * The match Ruby reports: no match starts further left, and among the
   * matches at p the greedy `\s+` takes the longest run.
   */
  ghost predicate Leftmost(s: string, p: nat, k: nat) {
    && IsMatch(s, p, k)
    && (forall p': nat :: p' < p ==> NoMatchAt(s, p'))
    && (forall k': nat :: IsMatch(s, p, k') ==> k' <= k)
  }

  /** The first position at or after j that is not `\s`, or the end of the text. */
  function SpaceRunEnd(s: string, j: nat): (q: nat)
    requires j <= |s|
    ensures j <= q <= |s|
    ensures forall i :: j <= i < q ==> IsSpace(s[i])
    ensures q < |s| ==> !IsSpace(s[q])
    decreases |s| - j
  {
    if j < |s| && IsSpace(s[j]) then SpaceRunEnd(s, j + 1) else j
  }

  /** The largest index in [lo, hi) that is not a line feed, if any. */
  function LastNonNewline(s: string, lo: nat, hi: nat): (r: Option<nat>)
    requires lo <= hi <= |s|
    ensures r.Some? ==> lo <= r.value < hi && s[r.value] != '\n'
    ensures r.Some? ==> forall j :: r.value < j < hi ==> s[j] == '\n'
    ensures r.None? ==> forall j :: lo <= j < hi ==> s[j] == '\n'
    decreases hi
  {
    if hi == lo then None
    else if s[hi - 1] != '\n' then Some(hi - 1)
    else LastNonNewline(s, lo, hi - 1)
  }

  /**
   * The outcome of trying the expression at start position p, as a
   * backtracking engine does it: `\s+` first takes the whole run of `\s`;
   * if the text ends there, it gives characters back until `.+` can take
   * one that is not a line feed.  The result is the start of group 1.
   */
  function MatchAt(s: string, p: nat): (r: Option<nat>)
    ensures r.Some? ==> IsMatch(s, p, r.value)
    ensures r.Some? ==> forall k: nat :: IsMatch(s, p, k) ==> k <= r.value
    ensures r.None? ==> forall k: nat :: !IsMatch(s, p, k)
  {
    if p < |s| && AtLineStart(s, p) && s[p] == '#' then
      var q := SpaceRunEnd(s, p + 1);
      if q == p + 1 then None
      else if q < |s| then Some(q)
      else LastNonNewline(s, p + 2, q)
    else
      None
  }

  /** The leftmost start position at or after `from` where the expression matches, with its group start. */
  function Search(s: string, from: nat): (r: Option<(nat, nat)>)
    requires from <= |s|
    ensures r.Some? ==> from <= r.value.0 && MatchAt(s, r.value.0) == Some(r.value.1)
    ensures r.Some? ==> forall p: nat :: from <= p < r.value.0 ==> MatchAt(s, p).None?
    ensures r.None? ==> forall p: nat :: from <= p ==> MatchAt(s, p).None?
    decreases |s| - from
  {
    if from == |s| then None
    else match MatchAt(s, from)
      case Some(k) => Some((from, k))
      case None => Search(s, from + 1)
  }

  /**
   * `extract_title`: group 1 of the match Ruby reports, or the default title.
   * The title is never empty and never spans a line break; a heading line's
   * trailing blanks are kept.
   */
  function ExtractTitle(s: string): (title: string)
    ensures NoHeading(s) ==> title == DefaultTitle
    ensures !NoHeading(s) ==> exists p: nat, k: nat :: Leftmost(s, p, k) && title == s[k..LineEnd(s, k)]
    ensures title != [] && '\n' !in title
  {
    match Search(s, 0)
    case None =>
      assert NoHeading(s) by {
        forall p: nat, k: nat ensures !IsMatch(s, p, k) {
          assert MatchAt(s, p).None?;
        }
      }
      DefaultTitle
    case Some((p, k)) =>
      assert Leftmost(s, p, k) by {
        forall p': nat | p' < p ensures NoMatchAt(s, p') {
          assert MatchAt(s, p').None?;
        }
      }
      s[k..LineEnd(s, k)]
  }
}

/** Consequences of the regular expression's meaning, and worked examples. */
module TitleFacts {
  import opened Title

  /** At most one match is the reported one. */
  lemma LeftmostUnique(s: string, p: nat, k: nat, p': nat, k': nat)
    requires Leftmost(s, p, k) && Leftmost(s, p', k')
    ensures p == p' && k == k'
  {
    assert p' < p ==> NoMatchAt(s, p');
    assert p < p' ==> NoMatchAt(s, p);
    assert IsMatch(s, p, k) && IsMatch(s, p', k');
  }

  /**
   * A document whose first `#`-led line is `# t` (one blank, then text that
   * does not start with a blank) is titled t, with t taken verbatim to the
   * end of its line.
   */
  lemma {:induction false} HeadingLineTitle(pre: string, t: string, post: string)
    requires pre == [] || pre[|pre| - 1] == '\n'
    requires forall i :: 0 <= i < |pre| && AtLineStart(pre, i) ==> pre[i] != '#'
    requires t != [] && !IsSpace(t[0]) && '\n' !in t
    requires post == [] || post[0] == '\n'
    ensures ExtractTitle(pre + "# " + t + post) == t
  {
    var s := pre + "# " + t + post;
    var p, k := |pre|, |pre| + 2;
    assert s[p] == '#' && s[p + 1] == ' ' && s[k] == t[0];
    assert IsMatch(s, p, k);
    forall p': nat | p' < p ensures NoMatchAt(s, p') {
      assert s[p'] == pre[p'];
      assert AtLineStart(s, p') ==> AtLineStart(pre, p');
    }
    assert Leftmost(s, p, k);
    assert s[k..k + |t|] == t;
    forall j | k <= j < k + |t| ensures s[j] != '\n' {
      assert s[j] == t[j - k];
    }
    assert k + |t| == |s| || s[k + |t|] == '\n';
    assert LineEnd(s, k) == k + |t| by {
      LineEndIsFirstBreak(s, k, k + |t|);
    }
    var p0: nat, k0: nat :| Leftmost(s, p0, k0) && ExtractTitle(s) == s[k0..LineEnd(s, k0)];
    LeftmostUnique(s, p, k, p0, k0);
  }

  /** LineEnd is the first line break: any e with a break (or the end) at e and none before it is LineEnd. */
  lemma LineEndIsFirstBreak(s: string, k: nat, e: nat)
    requires k <= e <= |s|
    requires e == |s| || s[e] == '\n'
    requires forall j :: k <= j < e ==> s[j] != '\n'
    ensures LineEnd(s, k) == e
  {
  }

  /** A heading line followed by a paragraph is titled by its heading. */
  lemma HelloWorldTitle()
    ensures ExtractTitle("# Hello World\n\nThis is *great*.") == "Hello World"
  {
    assert "# Hello World\n\nThis is *great*." == [] + "# " + "Hello World" + "\n\nThis is *great*.";
    HeadingLineTitle([], "Hello World", "\n\nThis is *great*.");
  }

  /** A single line whose `#`, if any, is not followed by a blank holds no heading. */
  lemma SingleLineWithoutHeading(s: string)
    requires '\n' !in s
    requires |s| < 2 || s[0] != '#' || !IsSpace(s[1])
    ensures ExtractTitle(s) == DefaultTitle
  {
    forall p: nat, k: nat ensures !IsMatch(s, p, k) {
      if 0 < p <= |s| {
        assert s[p - 1] in s;
      }
    }
  }

  /** `#` directly followed by text is not a heading: the default title is used. */
  lemma NoBlankAfterHash()
    ensures ExtractTitle("#Title") == DefaultTitle
  {
    SingleLineWithoutHeading("#Title");
  }

  /** A level-2 heading does not count: its second character is `#`, not a blank. */
  lemma LevelTwoIgnored()
    ensures ExtractTitle("## Title") == DefaultTitle
  {
    SingleLineWithoutHeading("## Title");
  }

  /** `\s+` may cross a line break: a bare `#` line takes the next line as title. */
  lemma BareHashTakesNextLine()
    ensures ExtractTitle("#\nText") == "Text"
  {
    var s := "#\nText";
    assert IsMatch(s, 0, 2);
    assert Leftmost(s, 0, 2);
    assert LineEnd(s, 2) == 6 by {
      LineEndIsFirstBreak(s, 2, 6);
    }
    var p0: nat, k0: nat :| Leftmost(s, p0, k0) && ExtractTitle(s) == s[k0..LineEnd(s, k0)];
    LeftmostUnique(s, 0, 2, p0, k0);
  }

  /** Trailing blanks of the heading line are part of the title. */
  lemma TrailingBlanksKept()
    ensures ExtractTitle("# Hi  ") == "Hi  "
  {
    HeadingLineTitle([], "Hi  ", []);
    assert [] + "# " + "Hi  " + [] == "# Hi  ";
  }

  /**
   * When only blanks follow `#` up to the end of the text, `\s+` gives back
   * its last blank to `.+`: the title is that single blank.
   */
  lemma BlankTitleAtEnd()
    ensures ExtractTitle("#  ") == " "
  {
    var s := "#  ";
    assert IsMatch(s, 0, 2);
    assert Leftmost(s, 0, 2);
    assert LineEnd(s, 2) == 3 by {
      LineEndIsFirstBreak(s, 2, 3);
    }
    var p0: nat, k0: nat :| Leftmost(s, p0, k0) && ExtractTitle(s) == s[k0..LineEnd(s, k0)];
    LeftmostUnique(s, 0, 2, p0, k0);
  }
}
