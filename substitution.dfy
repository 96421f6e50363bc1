/**
 * Replace-all of a literal pattern, as Ruby's `String#gsub` does when the
 * pattern is a String: the text is scanned left to right, each occurrence
 * found is replaced, and scanning resumes after it, so occurrences never
 * overlap and text produced by a replacement is never scanned again.
 *
 * Its reference definition is split-and-join: cutting the text at the
 * occurrences gives pieces free of the pattern that join back (with the
 * pattern) to the text, and the replacement joins the same pieces with the
 * replacement text instead.
 */
module Substitution {

  /** The pattern occurs in s starting at position i. */
  predicate OccursAt(s: string, pat: string, i: nat) {
    i + |pat| <= |s| && s[i..i + |pat|] == pat
  }

  /** s contains no occurrence of the pattern. */
  ghost predicate Free(s: string, pat: string) {
    forall i: nat :: !OccursAt(s, pat, i)
  }

  /** Every occurrence of `pat` in s, leftmost first and non-overlapping, replaced by `rep`. */
  function ReplaceAll(s: string, pat: string, rep: string): string
    requires pat != []
    decreases |s|
  {
    if s == [] then []
    else if pat <= s then rep + ReplaceAll(s[|pat|..], pat, rep)
    else [s[0]] + ReplaceAll(s[1..], pat, rep)
  }

  /** The pieces of s between the occurrences the left-to-right scan finds. */
  function Split(s: string, pat: string): (pieces: seq<string>)
    requires pat != []
    ensures |pieces| >= 1
    decreases |s|
  {
    if s == [] then [[]]
    else if pat <= s then [[]] + Split(s[|pat|..], pat)
    else
      var rest := Split(s[1..], pat);
      [[s[0]] + rest[0]] + rest[1..]
  }

  /** The pieces concatenated with `sep` between neighbours. */
  function Join(pieces: seq<string>, sep: string): string
  {
    if |pieces| == 0 then []
    else if |pieces| == 1 then pieces[0]
    else pieces[0] + sep + Join(pieces[1..], sep)
  }

  /** Prepending a character to the first piece prepends it to the joined text. */
  lemma {:induction false} JoinConsFirst(c: char, pieces: seq<string>, sep: string)
    requires |pieces| >= 1
    ensures Join([[c] + pieces[0]] + pieces[1..], sep) == [c] + Join(pieces, sep)
  {
    var ps := [[c] + pieces[0]] + pieces[1..];
    assert ps[1..] == pieces[1..];
  }

  /** Round trip: joining the pieces with the pattern gives back the text. */
  lemma {:induction false} SplitJoin(s: string, pat: string)
    requires pat != []
    ensures Join(Split(s, pat), pat) == s
    decreases |s|
  {
    if s == [] {
    } else if pat <= s {
      var rest := Split(s[|pat|..], pat);
      SplitJoin(s[|pat|..], pat);
      JoinConsEmpty(rest, pat);
      assert s == pat + s[|pat|..];
    } else {
      var rest := Split(s[1..], pat);
      SplitJoin(s[1..], pat);
      JoinConsFirst(s[0], rest, pat);
      assert s == [s[0]] + s[1..];
    }
  }

  /** An empty first piece puts the separator at the front. */
  lemma JoinConsEmpty(pieces: seq<string>, sep: string)
    requires |pieces| >= 1
    ensures Join([[]] + pieces, sep) == sep + Join(pieces, sep)
  {
    var ps := [[]] + pieces;
    assert ps[1..] == pieces;
    assert Join(ps, sep) == ps[0] + sep + Join(ps[1..], sep);
  }

  /** Replacing all occurrences is joining the same pieces with the replacement. */
  lemma {:induction false} ReplaceAllIsJoinOfSplit(s: string, pat: string, rep: string)
    requires pat != []
    ensures ReplaceAll(s, pat, rep) == Join(Split(s, pat), rep)
    decreases |s|
  {
    if s == [] {
    } else if pat <= s {
      var rest := Split(s[|pat|..], pat);
      ReplaceAllIsJoinOfSplit(s[|pat|..], pat, rep);
      JoinConsEmpty(rest, rep);
    } else {
      var rest := Split(s[1..], pat);
      ReplaceAllIsJoinOfSplit(s[1..], pat, rep);
      JoinConsFirst(s[0], rest, rep);
    }
  }

  /** The first piece is a prefix of the text. */
  lemma FirstPieceIsPrefix(s: string, pat: string)
    requires pat != []
    ensures Split(s, pat)[0] <= s
  {
    var pieces := Split(s, pat);
    SplitJoin(s, pat);
    if |pieces| > 1 {
      assert Join(pieces, pat) == pieces[0] + (pat + Join(pieces[1..], pat));
    }
  }

  /** No piece contains the pattern: the replacement leaves exactly the text between occurrences. */
  lemma {:induction false} SplitPiecesFree(s: string, pat: string)
    requires pat != []
    ensures forall j :: 0 <= j < |Split(s, pat)| ==> Free(Split(s, pat)[j], pat)
    decreases |s|
  {
    var pieces := Split(s, pat);
    if s == [] {
      assert pieces == [[]];
    } else if pat <= s {
      SplitPiecesFree(s[|pat|..], pat);
      assert forall j :: 1 <= j < |pieces| ==> pieces[j] == Split(s[|pat|..], pat)[j - 1];
      assert pieces[0] == [];
    } else {
      var rest := Split(s[1..], pat);
      SplitPiecesFree(s[1..], pat);
      FirstPieceIsPrefix(s[1..], pat);
      var first := [s[0]] + rest[0];
      assert first <= s;
      forall i: nat ensures !OccursAt(first, pat, i) {
        if i == 0 {
          assert OccursAt(first, pat, 0) ==> pat <= s;
        } else if OccursAt(first, pat, i) {
          assert first[i..i + |pat|] == rest[0][i - 1..i - 1 + |pat|];
          assert OccursAt(rest[0], pat, i - 1);
        }
      }
      assert forall j :: 1 <= j < |pieces| ==> pieces[j] == rest[j];
    }
  }

  /** Text without the pattern is left as it is. */
  lemma {:induction false} ReplaceAllFree(s: string, pat: string, rep: string)
    requires pat != [] && Free(s, pat)
    ensures ReplaceAll(s, pat, rep) == s
    decreases |s|
  {
    if s != [] {
      assert !OccursAt(s, pat, 0);
      forall i: nat ensures !OccursAt(s[1..], pat, i) {
        assert !OccursAt(s, pat, i + 1);
        if i + |pat| <= |s[1..]| {
          assert s[1..][i..i + |pat|] == s[i + 1..i + 1 + |pat|];
        }
      }
      ReplaceAllFree(s[1..], pat, rep);
    }
  }

  /** A leading occurrence is replaced and scanning resumes right after it. */
  lemma ReplaceAllLeading(pat: string, rest: string, rep: string)
    requires pat != []
    ensures ReplaceAll(pat + rest, pat, rep) == rep + ReplaceAll(rest, pat, rep)
  {
    assert (pat + rest)[|pat|..] == rest;
  }

  /** A prefix in which no occurrence starts is copied unchanged. */
  lemma {:induction false} ReplaceAllCopiesPrefix(a: string, rest: string, pat: string, rep: string)
    requires pat != []
    requires forall i :: 0 <= i < |a| ==> !OccursAt(a + rest, pat, i)
    ensures ReplaceAll(a + rest, pat, rep) == a + ReplaceAll(rest, pat, rep)
    decreases |a|
  {
    if a != [] {
      var s := a + rest;
      assert !OccursAt(s, pat, 0);
      assert !(pat <= s);
      assert s[1..] == a[1..] + rest;
      forall i | 0 <= i < |a[1..]| ensures !OccursAt(a[1..] + rest, pat, i) {
        assert !OccursAt(s, pat, i + 1);
        if i + |pat| <= |s[1..]| {
          assert s[1..][i..i + |pat|] == s[i + 1..i + 1 + |pat|];
        }
      }
      ReplaceAllCopiesPrefix(a[1..], rest, pat, rep);
      assert ReplaceAll(s, pat, rep) == [s[0]] + ReplaceAll(s[1..], pat, rep);
      assert s[0] == a[0] && a == [a[0]] + a[1..];
      assert [s[0]] + (a[1..] + ReplaceAll(rest, pat, rep)) == a + ReplaceAll(rest, pat, rep);
    } else {
      assert a + rest == rest;
    }
  }

  /** No occurrence can start in a prefix that lacks the pattern's first character. */
  lemma NoOccurrenceWithoutFirstChar(a: string, rest: string, pat: string)
    requires pat != [] && pat[0] !in a
    ensures forall i :: 0 <= i < |a| ==> !OccursAt(a + rest, pat, i)
  {
    forall i | 0 <= i < |a| ensures !OccursAt(a + rest, pat, i) {
      assert (a + rest)[i] == a[i];
    }
  }

  /** Replacing the pattern by itself changes nothing. */
  lemma ReplaceAllBySelf(s: string, pat: string)
    requires pat != []
    ensures ReplaceAll(s, pat, pat) == s
  {
    ReplaceAllIsJoinOfSplit(s, pat, pat);
    SplitJoin(s, pat);
  }

  /** Text without the pattern's first character passes through unchanged. */
  lemma ReplaceAllSkips(a: string, rest: string, pat: string, rep: string)
    requires pat != [] && pat[0] !in a
    ensures ReplaceAll(a + rest, pat, rep) == a + ReplaceAll(rest, pat, rep)
  {
    NoOccurrenceWithoutFirstChar(a, rest, pat);
    ReplaceAllCopiesPrefix(a, rest, pat, rep);
  }

  /** One differing character rules out an occurrence. */
  lemma MismatchAt(s: string, pat: string, i: nat, k: nat)
    requires k < |pat| && i + k < |s| && s[i + k] != pat[k]
    ensures !OccursAt(s, pat, i)
  {
    if i + |pat| <= |s| {
      assert s[i..i + |pat|][k] == s[i + k];
    }
  }
}
