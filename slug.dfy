/**
 * The category slug rule of the back office: a title becomes a slug by
 * replacing every maximal run of whitespace with one `-` (the global
 * replacement of `\s+`) and then lower-casing the result.
 */
module Slug {
  import opened Ascii

  ghost predicate NoWhitespace(s: string) {
    forall i :: 0 <= i < |s| ==> !IsWhitespace(s[i])
  }

  /** Empty or made only of whitespace. */
  predicate AllWhitespace(s: string) {
    forall i :: 0 <= i < |s| ==> IsWhitespace(s[i])
  }

  /**
   * The length of the leading run of `s`: the longest prefix whose characters
   * are all whitespace (when `ws`) or all non-whitespace (when `!ws`).
   */
  function RunLength(s: string, ws: bool): (n: nat)
    ensures n <= |s|
    ensures forall i :: 0 <= i < n ==> IsWhitespace(s[i]) == ws
    ensures n == |s| || IsWhitespace(s[n]) != ws
  {
    if s != [] && IsWhitespace(s[0]) == ws then 1 + RunLength(s[1..], ws) else 0
  }

  /** `title.replace(/\s+/g, '-')`: each maximal whitespace run becomes one `-`. */
  function CollapseWhitespace(s: string): (r: string)
    ensures |r| <= |s|
    ensures NoWhitespace(r)
    ensures r == [] <==> s == []
    decreases |s|
  {
    if s == [] then []
    else if IsWhitespace(s[0]) then "-" + CollapseWhitespace(s[RunLength(s, true)..])
    else [s[0]] + CollapseWhitespace(s[1..])
  }

  /** The slug of a category title (routes/admin_categories.js, add and edit). */
  function Slugify(title: string): (slug: string)
    ensures NoWhitespace(slug)
    ensures forall i :: 0 <= i < |slug| ==> !IsUpper(slug[i])
    ensures |slug| <= |title|
    ensures slug == [] <==> title == []
  {
    ToLower(CollapseWhitespace(title))
  }

  /** A string without whitespace passes through the run replacement untouched. */
  lemma {:induction false} CollapseKeepsWhitespaceFree(s: string)
    requires NoWhitespace(s)
    ensures CollapseWhitespace(s) == s
    decreases |s|
  {
    if s != [] {
      CollapseKeepsWhitespaceFree(s[1..]);
    }
  }

  /** Slugging a slug gives it back unchanged. */
  lemma SlugifyIdempotent(title: string)
    ensures Slugify(Slugify(title)) == Slugify(title)
  {
    var slug := Slugify(title);
    CollapseKeepsWhitespaceFree(slug);
    ToLowerFixesLowerCase(slug);
  }

  // A title read as its maximal runs: words (non-whitespace) and gaps
  // (whitespace), each non-empty, words and gaps alternating.

  datatype Run = Word(chars: string) | Gap(chars: string)

  ghost predicate ValidRun(run: Run) {
    |run.chars| > 0 &&
    (run.Word? ==> NoWhitespace(run.chars)) &&
    (run.Gap? ==> AllWhitespace(run.chars))
  }

  /** Every run is valid and no two neighbouring runs are of the same kind. */
  ghost predicate MaximalRuns(runs: seq<Run>) {
    runs == [] ||
    (ValidRun(runs[0]) &&
     (|runs| > 1 ==> runs[0].Word? != runs[1].Word?) &&
     MaximalRuns(runs[1..]))
  }

  /** The text the runs spell out. */
  function Flatten(runs: seq<Run>): string {
    if runs == [] then [] else runs[0].chars + Flatten(runs[1..])
  }

  /** The runs with every gap written as a single `-`. */
  function Render(runs: seq<Run>): string {
    if runs == [] then []
    else (if runs[0].Gap? then "-" else runs[0].chars) + Render(runs[1..])
  }

  /** The decomposition of a title into its maximal runs, first run first. */
  function RunsOf(s: string): (runs: seq<Run>)
    ensures runs == [] <==> s == []
    ensures runs != [] ==> runs[0].Gap? == IsWhitespace(s[0])
    decreases |s|
  {
    if s == [] then []
    else
      var ws := IsWhitespace(s[0]);
      var n := RunLength(s, ws);
      var chars, rest := s[..n], s[n..];
      [if ws then Gap(chars) else Word(chars)] + RunsOf(rest)
  }

  /** RunsOf really is a decomposition into maximal runs. */
  lemma {:induction false} RunsOfSpellsTitle(s: string)
    ensures MaximalRuns(RunsOf(s))
    ensures Flatten(RunsOf(s)) == s
    decreases |s|
  {
    if s != [] {
      var ws := IsWhitespace(s[0]);
      var n := RunLength(s, ws);
      var chars, rest := s[..n], s[n..];
      var run := if ws then Gap(chars) else Word(chars);
      var runs := RunsOf(rest);
      RunsOfSpellsTitle(rest);
      assert RunsOf(s) == [run] + runs;
      assert |rest| < |s|;
      assert forall i :: 0 <= i < |chars| ==> chars[i] == s[i];
      if ws {
        assert AllWhitespace(chars);
      } else {
        assert NoWhitespace(chars);
      }
      assert ValidRun(run);
      assert ([run] + runs)[1..] == runs;
      assert s == chars + rest;
    }
  }

  lemma {:induction false} GapRunLength(gap: string, t: string)
    requires AllWhitespace(gap)
    requires t == [] || !IsWhitespace(t[0])
    ensures RunLength(gap + t, true) == |gap|
    decreases |gap|
  {
    if gap != [] {
      assert (gap + t)[1..] == gap[1..] + t;
      GapRunLength(gap[1..], t);
    }
  }

  lemma {:induction false} CollapseAfterWord(word: string, t: string)
    requires NoWhitespace(word)
    ensures CollapseWhitespace(word + t) == word + CollapseWhitespace(t)
    decreases |word|
  {
    if word != [] {
      var w := word + t;
      assert w[0] == word[0] && !IsWhitespace(w[0]);
      assert w[1..] == word[1..] + t;
      assert CollapseWhitespace(w) == [w[0]] + CollapseWhitespace(w[1..]);
      CollapseAfterWord(word[1..], t);
      calc {
        CollapseWhitespace(w);
        [word[0]] + (word[1..] + CollapseWhitespace(t));
        ([word[0]] + word[1..]) + CollapseWhitespace(t);
        { assert [word[0]] + word[1..] == word; }
        word + CollapseWhitespace(t);
      }
    } else {
      assert word + t == t;
    }
  }

  lemma {:induction false} FlattenStartsWithRun(runs: seq<Run>)
    requires MaximalRuns(runs) && runs != []
    ensures Flatten(runs) != [] && Flatten(runs)[0] == runs[0].chars[0]
  {
  }

  /**
   * For every decomposition of a text into maximal runs, the run replacement
   * writes each gap as exactly one `-` and keeps every word as it is, in order.
   */
  lemma {:induction false} CollapseByRuns(runs: seq<Run>)
    requires MaximalRuns(runs)
    ensures CollapseWhitespace(Flatten(runs)) == Render(runs)
  {
    if runs != [] {
      var rest := runs[1..];
      CollapseByRuns(rest);
      if runs[0].Gap? {
        if rest != [] {
          FlattenStartsWithRun(rest);
        }
        GapRunLength(runs[0].chars, Flatten(rest));
        assert (runs[0].chars + Flatten(rest))[|runs[0].chars|..] == Flatten(rest);
      } else {
        CollapseAfterWord(runs[0].chars, Flatten(rest));
      }
    }
  }

  /** The slug of any title is its maximal runs, gaps as `-`, lower-cased. */
  lemma SlugifyByRuns(title: string)
    ensures Slugify(title) == ToLower(Render(RunsOf(title)))
  {
    RunsOfSpellsTitle(title);
    CollapseByRuns(RunsOf(title));
  }
}
