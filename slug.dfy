/**
 * Slug normalisation of a free-text search term, as both search forms write it:
 *
 *   term.toLowerCase().replace(/[^a-z0-9]+/g, "-").replace(/^-|-$/g, "")
 *
 * Lowercasing is modelled on ASCII: `A`..`Z` become `a`..`z` and every other
 * character is left alone (and so counts as "outside [a-z0-9]" unless it is
 * already a lower-case letter or a digit).
 */
module Slug {

  // ---------------------------------------------------------------------------
  // Character classes
  // ---------------------------------------------------------------------------

  predicate IsUpper(c: char) { 'A' <= c <= 'Z' }

  /** The regex class `[a-z0-9]`. */
  predicate IsAlnum(c: char) { 'a' <= c <= 'z' || '0' <= c <= '9' }

  /** An ASCII letter of either case, or an ASCII digit. */
  predicate IsAsciiAlnum(c: char) { IsAlnum(c) || IsUpper(c) }

  /** The characters a slug is made of. */
  predicate IsSlugChar(c: char) { IsAlnum(c) || c == '-' }

  predicate HasAsciiAlnum(s: string) {
    exists i :: 0 <= i < |s| && IsAsciiAlnum(s[i])
  }

  // ---------------------------------------------------------------------------
  // What a slug looks like
  // ---------------------------------------------------------------------------

  predicate AllSlugChars(t: string) {
    forall i :: 0 <= i < |t| ==> IsSlugChar(t[i])
  }

  predicate NoDoubleHyphen(t: string) {
    forall i :: 0 < i < |t| ==> !(t[i - 1] == '-' && t[i] == '-')
  }

  predicate NoEdgeHyphen(t: string) {
    |t| > 0 ==> t[0] != '-' && t[|t| - 1] != '-'
  }

  /** Only `[a-z0-9-]`, no `--`, no `-` at either end. */
  predicate IsSlug(t: string) {
    AllSlugChars(t) && NoDoubleHyphen(t) && NoEdgeHyphen(t)
  }

  /** The characters of `t` in `[a-z0-9]`, in order. */
  function Alnums(t: string): string
    decreases |t|
  {
    if t == [] then []
    else (if IsAlnum(t[0]) then [t[0]] else []) + Alnums(t[1..])
  }

  /** `t` with every `-` removed. */
  function RemoveHyphens(t: string): string
    decreases |t|
  {
    if t == [] then []
    else (if t[0] != '-' then [t[0]] else []) + RemoveHyphens(t[1..])
  }

  // ---------------------------------------------------------------------------
  // The chain, step by step
  // ---------------------------------------------------------------------------

  /** `toLowerCase` on one character, ASCII only. */
  function Lower(c: char): (r: char)
    ensures IsAlnum(r) <==> IsAsciiAlnum(c)
    ensures !IsUpper(r)
    ensures !IsUpper(c) ==> r == c
  {
    if IsUpper(c) then (c as int + 32) as char else c
  }

  /** `toLowerCase` on a string. */
  function LowerAll(s: string): string {
    seq(|s|, i requires 0 <= i < |s| => Lower(s[i]))
  }

  /**
   * The number of leading characters of `t` outside `[a-z0-9]`: the match of
   * `[^a-z0-9]+` (greedy) at the start of `t`, or 0 when it does not match.
   */
  function LeadingRunLength(t: string): (k: nat)
    ensures k <= |t|
    ensures t != [] && !IsAlnum(t[0]) ==> k > 0
    decreases |t|
  {
    if t == [] || IsAlnum(t[0]) then 0 else 1 + LeadingRunLength(t[1..])
  }

  /**
   * `replace(/[^a-z0-9]+/g, "-")` as the regex engine performs it: scan left
   * to right, copy a character of `[a-z0-9]`, and replace each greedy match of
   * a run of other characters by one `-`.
   */
  function ReplaceRuns(t: string): string
    decreases |t|
  {
    if t == [] then []
    else if IsAlnum(t[0]) then [t[0]] + ReplaceRuns(t[1..])
    else ['-'] + ReplaceRuns(t[LeadingRunLength(t)..])
  }

  /**
   * `replace(/^-|-$/g, "")`: drop one leading `-`, then one trailing `-` of
   * what is left (so `"-"` becomes `""`, as the regex matches it only once).
   */
  function TrimHyphens(t: string): string {
    DropTrailingHyphen(DropLeadingHyphen(t))
  }

  /** The `^-` alternative. */
  function DropLeadingHyphen(t: string): string {
    if |t| > 0 && t[0] == '-' then t[1..] else t
  }

  /** The `-$` alternative. */
  function DropTrailingHyphen(t: string): string {
    if |t| > 0 && t[|t| - 1] == '-' then t[..|t| - 1] else t
  }

  /** The whole chain. */
  function Slugify(s: string): string {
    TrimHyphens(ReplaceRuns(LowerAll(s)))
  }

  // ---------------------------------------------------------------------------
  // The slug described without regexes: the words of the term, joined by `-`
  // ---------------------------------------------------------------------------

  /** The number of leading characters of `t` in `[a-z0-9]`. */
  function LeadingWordLength(t: string): (k: nat)
    ensures k <= |t|
    ensures t != [] && IsAlnum(t[0]) ==> k > 0
    decreases |t|
  {
    if t == [] || !IsAlnum(t[0]) then 0 else 1 + LeadingWordLength(t[1..])
  }

  /** A word: a non-empty string of `[a-z0-9]` characters. */
  predicate IsWord(w: string) {
    w != [] && forall i :: 0 <= i < |w| ==> IsAlnum(w[i])
  }

  /** The maximal runs of `[a-z0-9]` characters of `t`, in order. */
  function Words(t: string): seq<string>
    decreases |t|
  {
    if t == [] then []
    else if IsAlnum(t[0]) then [t[..LeadingWordLength(t)]] + Words(t[LeadingWordLength(t)..])
    else Words(t[LeadingRunLength(t)..])
  }

  /** The words with one `-` between neighbours. */
  function JoinHyphen(ws: seq<string>): string
    decreases |ws|
  {
    if ws == [] then ""
    else if |ws| == 1 then ws[0]
    else ws[0] + "-" + JoinHyphen(ws[1..])
  }

  /** The output so far ends inside a run: the next characters outside `[a-z0-9]` add nothing. */
  predicate EndsInHyphen(out: string) {
    |out| > 0 && out[|out| - 1] == '-'
  }

  /**
   * What the left-to-right scan still emits for the unread input `rest` once
   * it has emitted `out`: when `out` ends in the `-` of a run, the rest of
   * that run adds nothing more.
   */
  function Pending(out: string, rest: string): string {
    if EndsInHyphen(out) then ReplaceRuns(rest[LeadingRunLength(rest)..]) else ReplaceRuns(rest)
  }

  // ---------------------------------------------------------------------------
  // The loop that computes the slug
  // ---------------------------------------------------------------------------

  /** One pass over the characters: lowercase each and replace every run outside `[a-z0-9]` by one `-`. */
  method LowerAndReplaceRuns(s: string) returns (out: string)
    ensures out == ReplaceRuns(LowerAll(s))
  {
    ghost var low := LowerAll(s);
    out := "";
    assert out + Pending(out, low[0..]) == ReplaceRuns(low) by {
      assert low[0..] == low;
    }
    for i := 0 to |s|
      invariant out + Pending(out, low[i..]) == ReplaceRuns(low)
    {
      var c := Lower(s[i]);
      PendingStep(out, low[i..]);
      assert low[i..][1..] == low[i + 1..];
      if IsAlnum(c) {
        out := out + [c];
      } else if |out| == 0 || out[|out| - 1] != '-' {
        out := out + ['-'];
      }
    }
    assert low[|s|..] == [];
  }

  /** Computes the slug with one pass over the characters, then drops a leading and a trailing hyphen. */
  method BuildSlug(s: string) returns (slug: string)
    ensures slug == Slugify(s)
    ensures IsSlug(slug)
  {
    slug := LowerAndReplaceRuns(s);
    if |slug| > 0 && slug[0] == '-' {
      slug := slug[1..];
    }
    if |slug| > 0 && slug[|slug| - 1] == '-' {
      slug := slug[..|slug| - 1];
    }
    SlugifyIsSlug(s);
  }

  // ---------------------------------------------------------------------------
  // Lemmas about the steps
  // ---------------------------------------------------------------------------

  /** The run length is the greedy match: every character before it is outside `[a-z0-9]`, and the one it stops at is inside. */
  lemma {:induction false} LeadingRunLengthIsGreedyMatch(t: string)
    ensures forall i :: 0 <= i < LeadingRunLength(t) ==> !IsAlnum(t[i])
    ensures LeadingRunLength(t) < |t| ==> IsAlnum(t[LeadingRunLength(t)])
    decreases |t|
  {
    if t != [] && !IsAlnum(t[0]) {
      LeadingRunLengthIsGreedyMatch(t[1..]);
      assert forall i :: 1 <= i < |t| ==> t[1..][i - 1] == t[i];
    }
  }

  /** Reading one more character keeps the loop's invariant, in each of the loop's three cases. */
  lemma PendingStep(out: string, rest: string)
    requires rest != []
    ensures IsAlnum(rest[0]) ==>
              out + Pending(out, rest) == (out + [rest[0]]) + Pending(out + [rest[0]], rest[1..])
    ensures !IsAlnum(rest[0]) && EndsInHyphen(out) ==>
              out + Pending(out, rest) == out + Pending(out, rest[1..])
    ensures !IsAlnum(rest[0]) && !EndsInHyphen(out) ==>
              out + Pending(out, rest) == (out + ['-']) + Pending(out + ['-'], rest[1..])
  {
    var x := rest[0];
    var tail := rest[1..];
    if IsAlnum(x) {
      assert rest[0..] == rest;
      assert ReplaceRuns(rest) == [x] + ReplaceRuns(tail);
      assert !EndsInHyphen(out + [x]);
      assert out + ([x] + ReplaceRuns(tail)) == (out + [x]) + ReplaceRuns(tail);
    } else {
      var k := LeadingRunLength(rest);
      assert k == 1 + LeadingRunLength(tail);
      assert tail[LeadingRunLength(tail)..] == rest[k..];
      if !EndsInHyphen(out) {
        assert ReplaceRuns(rest) == ['-'] + ReplaceRuns(rest[k..]);
        assert EndsInHyphen(out + ['-']);
        assert out + (['-'] + ReplaceRuns(rest[k..])) == (out + ['-']) + ReplaceRuns(rest[k..]);
      }
    }
  }

  /** The first character the run replacement emits. */
  lemma ReplaceRunsHead(t: string)
    requires t != []
    ensures ReplaceRuns(t) != []
    ensures ReplaceRuns(t)[0] == if IsAlnum(t[0]) then t[0] else '-'
  {
  }

  /** `[x] + r` keeps the slug alphabet and has no `--`, provided a leading `-` is not followed by another. */
  lemma ConsSlugChars(x: char, r: string)
    requires IsSlugChar(x) && AllSlugChars(r) && NoDoubleHyphen(r)
    requires x == '-' && r != [] ==> r[0] != '-'
    ensures AllSlugChars([x] + r) && NoDoubleHyphen([x] + r)
  {
    assert forall i :: 1 <= i < |[x] + r| ==> ([x] + r)[i] == r[i - 1];
  }

  /** The run replacement yields only `[a-z0-9-]` and never `--`. */
  lemma {:induction false} ReplaceRunsSlugChars(t: string)
    ensures AllSlugChars(ReplaceRuns(t))
    ensures NoDoubleHyphen(ReplaceRuns(t))
    decreases |t|
  {
    if t != [] {
      if IsAlnum(t[0]) {
        ReplaceRunsSlugChars(t[1..]);
        ConsSlugChars(t[0], ReplaceRuns(t[1..]));
      } else {
        var k := LeadingRunLength(t);
        var rest := t[k..];
        ReplaceRunsSlugChars(rest);
        LeadingRunLengthIsGreedyMatch(t);
        if rest != [] {
          ReplaceRunsHead(rest);
          assert rest[0] == t[k];
        }
        ConsSlugChars('-', ReplaceRuns(rest));
      }
    }
  }

  /** A run outside `[a-z0-9]` contributes nothing to `Alnums`. */
  lemma {:induction false} AlnumsSkipRun(t: string, k: nat)
    requires k <= |t|
    requires forall i :: 0 <= i < k ==> !IsAlnum(t[i])
    ensures Alnums(t) == Alnums(t[k..])
    decreases k
  {
    if k == 0 {
      assert t[0..] == t;
    } else {
      assert forall i :: 0 <= i < k - 1 ==> t[1..][i] == t[i + 1];
      AlnumsSkipRun(t[1..], k - 1);
      assert t[1..][k - 1..] == t[k..];
    }
  }

  /** The run replacement keeps every `[a-z0-9]` character, in order, and adds only hyphens. */
  lemma {:induction false} ReplaceRunsKeepsAlnums(t: string)
    ensures RemoveHyphens(ReplaceRuns(t)) == Alnums(t)
    decreases |t|
  {
    if t != [] {
      if IsAlnum(t[0]) {
        ReplaceRunsKeepsAlnums(t[1..]);
        var r := [t[0]] + ReplaceRuns(t[1..]);
        assert r[1..] == ReplaceRuns(t[1..]);
      } else {
        var k := LeadingRunLength(t);
        var rest := t[k..];
        ReplaceRunsKeepsAlnums(rest);
        LeadingRunLengthIsGreedyMatch(t);
        AlnumsSkipRun(t, k);
        var r := ['-'] + ReplaceRuns(rest);
        assert r[1..] == ReplaceRuns(rest);
      }
    }
  }

  /** Each run becomes one character, so the replacement never lengthens its input. */
  lemma {:induction false} ReplaceRunsNoLonger(t: string)
    ensures |ReplaceRuns(t)| <= |t|
    decreases |t|
  {
    if t != [] {
      if IsAlnum(t[0]) {
        ReplaceRunsNoLonger(t[1..]);
      } else {
        ReplaceRunsNoLonger(t[LeadingRunLength(t)..]);
      }
    }
  }

  /** The run replacement leaves a string of `[a-z0-9-]` without `--` unchanged. */
  lemma {:induction false} ReplaceRunsFixesSlugChars(t: string)
    requires AllSlugChars(t) && NoDoubleHyphen(t)
    ensures ReplaceRuns(t) == t
    decreases |t|
  {
    if t != [] {
      var tail := t[1..];
      assert forall i :: 0 <= i < |tail| ==> tail[i] == t[i + 1];
      assert AllSlugChars(tail) && NoDoubleHyphen(tail);
      ReplaceRunsFixesSlugChars(tail);
      if !IsAlnum(t[0]) {
        if tail != [] {
          assert !(t[0] == '-' && t[1] == '-');
          assert IsAlnum(tail[0]);
        }
        assert LeadingRunLength(tail) == 0;
        assert t[LeadingRunLength(t)..] == tail;
      }
    }
  }

  lemma {:induction false} RemoveHyphensAppend(a: string, b: string)
    ensures RemoveHyphens(a + b) == RemoveHyphens(a) + RemoveHyphens(b)
    decreases |a|
  {
    if a == [] {
      assert a + b == b;
    } else {
      assert (a + b)[0] == a[0];
      assert (a + b)[1..] == a[1..] + b;
      RemoveHyphensAppend(a[1..], b);
    }
  }

  /** Removing the hyphens leaves nothing exactly when every character is a hyphen. */
  lemma {:induction false} RemoveHyphensEmpty(t: string)
    ensures RemoveHyphens(t) == [] <==> forall i :: 0 <= i < |t| ==> t[i] == '-'
    decreases |t|
  {
    if t != [] {
      RemoveHyphensEmpty(t[1..]);
      assert forall i :: 1 <= i < |t| ==> t[1..][i - 1] == t[i];
    }
  }

  /** No `[a-z0-9]` character is kept exactly when none is present. */
  lemma {:induction false} AlnumsEmpty(t: string)
    ensures Alnums(t) == [] <==> forall i :: 0 <= i < |t| ==> !IsAlnum(t[i])
    decreases |t|
  {
    if t != [] {
      AlnumsEmpty(t[1..]);
      assert forall i :: 1 <= i < |t| ==> t[1..][i - 1] == t[i];
    }
  }

  /** Dropping a leading `-` from a hyphen-collapsed string leaves one that does not start with `-`, and removes only a hyphen. */
  lemma DropLeadingShape(t: string)
    requires AllSlugChars(t) && NoDoubleHyphen(t)
    ensures var a := DropLeadingHyphen(t);
      AllSlugChars(a) && NoDoubleHyphen(a) && |a| <= |t| &&
      (|a| > 0 ==> a[0] != '-') &&
      RemoveHyphens(a) == RemoveHyphens(t)
  {
    if |t| > 1 && t[0] == '-' {
      assert !(t[0] == '-' && t[1] == '-');
    }
  }

  /** Dropping a trailing `-` from a hyphen-collapsed string that does not start with `-` gives a slug, and removes only a hyphen. */
  lemma DropTrailingShape(a: string)
    requires AllSlugChars(a) && NoDoubleHyphen(a) && (|a| > 0 ==> a[0] != '-')
    ensures var b := DropTrailingHyphen(a);
      IsSlug(b) && |b| <= |a| && RemoveHyphens(b) == RemoveHyphens(a)
  {
    if |a| > 0 && a[|a| - 1] == '-' {
      var b := a[..|a| - 1];
      assert a == b + ['-'];
      RemoveHyphensAppend(b, ['-']);
      assert ['-'][1..] == [];
    }
  }

  /** Trimming one hyphen from each end of a hyphen-collapsed string gives a slug and removes only hyphens. */
  lemma TrimShape(t: string)
    requires AllSlugChars(t) && NoDoubleHyphen(t)
    ensures IsSlug(TrimHyphens(t))
    ensures |TrimHyphens(t)| <= |t|
    ensures RemoveHyphens(TrimHyphens(t)) == RemoveHyphens(t)
  {
    DropLeadingShape(t);
    DropTrailingShape(DropLeadingHyphen(t));
  }

  /** The word length is the greedy match of `[a-z0-9]+`: every character before it is inside, and the one it stops at is outside. */
  lemma {:induction false} LeadingWordLengthIsGreedyMatch(t: string)
    ensures forall i :: 0 <= i < LeadingWordLength(t) ==> IsAlnum(t[i])
    ensures LeadingWordLength(t) < |t| ==> !IsAlnum(t[LeadingWordLength(t)])
    decreases |t|
  {
    if t != [] && IsAlnum(t[0]) {
      LeadingWordLengthIsGreedyMatch(t[1..]);
      assert forall i :: 1 <= i < |t| ==> t[1..][i - 1] == t[i];
    }
  }

  /** Every entry of `Words(t)` is a word. */
  lemma {:induction false} WordsAreWords(t: string)
    ensures forall i :: 0 <= i < |Words(t)| ==> IsWord(Words(t)[i])
    decreases |t|
  {
    if t != [] {
      if IsAlnum(t[0]) {
        var k := LeadingWordLength(t);
        LeadingWordLengthIsGreedyMatch(t);
        WordsAreWords(t[k..]);
        assert IsWord(t[..k]);
      } else {
        WordsAreWords(t[LeadingRunLength(t)..]);
      }
    }
  }

  /** Joining words gives a non-empty string that starts and ends inside `[a-z0-9]`. */
  lemma {:induction false} JoinHyphenEdges(ws: seq<string>)
    requires ws != []
    requires forall i :: 0 <= i < |ws| ==> IsWord(ws[i])
    ensures JoinHyphen(ws) != []
    ensures IsAlnum(JoinHyphen(ws)[0]) && IsAlnum(JoinHyphen(ws)[|JoinHyphen(ws)| - 1])
    decreases |ws|
  {
    assert IsWord(ws[0]);
    if |ws| > 1 {
      assert forall i :: 0 <= i < |ws| - 1 ==> ws[1..][i] == ws[i + 1];
      JoinHyphenEdges(ws[1..]);
    }
  }

  /** Associativity of `+` on strings, regrouped as the word proofs need it. */
  lemma Regroup(a: string, b: string, c: string, d: string)
    ensures a + (b + (c + d)) == (a + b + c) + d
  {
  }

  /** The run replacement copies a leading stretch of `[a-z0-9]` characters unchanged. */
  lemma {:induction false} ReplaceRunsCopiesWord(t: string, k: nat)
    requires k <= |t|
    requires forall i :: 0 <= i < k ==> IsAlnum(t[i])
    ensures ReplaceRuns(t) == t[..k] + ReplaceRuns(t[k..])
    decreases k
  {
    if k == 0 {
      assert t[..0] == [] && t[0..] == t;
    } else {
      assert IsAlnum(t[0]);
      assert forall i :: 0 <= i < k - 1 ==> t[1..][i] == t[i + 1];
      ReplaceRunsCopiesWord(t[1..], k - 1);
      assert t[1..][k - 1..] == t[k..];
      assert t[..k] == [t[0]] + t[1..][..k - 1];
      assert ReplaceRuns(t) == [t[0]] + ReplaceRuns(t[1..]);
      Regroup([t[0]], t[1..][..k - 1], ReplaceRuns(t[k..]), []);
    }
  }

  /**
   * From a word's first character on, the run replacement is the words joined
   * by `-`, followed by one `-` when `t` ends outside `[a-z0-9]`.
   */
  lemma {:induction false} ReplaceRunsFromWord(t: string)
    requires t != [] && IsAlnum(t[0])
    ensures Words(t) != []
    ensures ReplaceRuns(t) == JoinHyphen(Words(t)) + (if IsAlnum(t[|t| - 1]) then "" else "-")
    decreases |t|
  {
    var k := LeadingWordLength(t);
    LeadingWordLengthIsGreedyMatch(t);
    var w := t[..k];
    var rest := t[k..];
    ReplaceRunsCopiesWord(t, k);
    assert Words(t) == [w] + Words(rest);
    var sfx: string := if IsAlnum(t[|t| - 1]) then "" else "-";
    if rest == [] {
      assert t[|t| - 1] == t[k - 1];
      assert sfx == "";
      assert JoinHyphen([w]) == w;
      assert ReplaceRuns(t) == w + [];
    } else {
      assert rest[0] == t[k];
      var j := LeadingRunLength(rest);
      var rest2 := rest[j..];
      LeadingRunLengthIsGreedyMatch(rest);
      assert ReplaceRuns(rest) == "-" + ReplaceRuns(rest2);
      assert Words(rest) == Words(rest2);
      if rest2 == [] {
        assert t[|t| - 1] == rest[j - 1];
        assert sfx == "-";
        assert JoinHyphen([w]) == w;
        assert ReplaceRuns(t) == w + ("-" + []);
      } else {
        assert rest2[0] == rest[j];
        ReplaceRunsFromWord(rest2);
        var ws := Words(rest2);
        assert t[|t| - 1] == rest2[|rest2| - 1];
        assert ReplaceRuns(rest2) == JoinHyphen(ws) + sfx;
        assert ([w] + ws)[1..] == ws;
        assert JoinHyphen([w] + ws) == w + "-" + JoinHyphen(ws);
        assert ReplaceRuns(t) == w + ("-" + (JoinHyphen(ws) + sfx));
        Regroup(w, "-", JoinHyphen(ws), sfx);
      }
    }
  }

  /** Joined words, possibly followed by one `-`, lose only that `-` to the edge replacement. */
  lemma TrimJoined(j: string, sfx: string)
    requires j != [] && IsAlnum(j[0]) && IsAlnum(j[|j| - 1])
    requires sfx == "" || sfx == "-"
    ensures DropLeadingHyphen(j + sfx) == j + sfx
    ensures DropTrailingHyphen(j + sfx) == j
  {
    assert (j + sfx)[0] == j[0];
    if sfx == "" {
      assert j + sfx == j;
    } else {
      assert (j + sfx)[..|j|] == j;
    }
  }

  /** Trimming the run replacement's edge hyphens leaves exactly the words joined by `-`. */
  lemma TrimmedRunsAreJoinedWords(t: string)
    ensures TrimHyphens(ReplaceRuns(t)) == JoinHyphen(Words(t))
  {
    if t != [] {
      var rest := if IsAlnum(t[0]) then t else t[LeadingRunLength(t)..];
      assert Words(t) == Words(rest);
      assert DropLeadingHyphen(ReplaceRuns(t)) == DropLeadingHyphen(ReplaceRuns(rest)) by {
        if !IsAlnum(t[0]) {
          assert ReplaceRuns(t) == "-" + ReplaceRuns(rest);
          if rest != [] {
            LeadingRunLengthIsGreedyMatch(t);
            assert rest[0] == t[LeadingRunLength(t)];
            ReplaceRunsHead(rest);
          }
        }
      }
      if rest != [] {
        LeadingRunLengthIsGreedyMatch(t);
        assert IsAlnum(rest[0]) by {
          if !IsAlnum(t[0]) {
            assert rest[0] == t[LeadingRunLength(t)];
          }
        }
        ReplaceRunsFromWord(rest);
        WordsAreWords(rest);
        JoinHyphenEdges(Words(rest));
        TrimJoined(JoinHyphen(Words(rest)), if IsAlnum(rest[|rest| - 1]) then "" else "-");
      }
    }
  }

  // ---------------------------------------------------------------------------
  // Properties of the whole chain
  // ---------------------------------------------------------------------------

  /** The chain always yields a slug: only `[a-z0-9-]`, no `--`, no `-` at either end. */
  lemma SlugifyIsSlug(s: string)
    ensures IsSlug(Slugify(s))
  {
    var low := LowerAll(s);
    ReplaceRunsSlugChars(low);
    TrimShape(ReplaceRuns(low));
  }

  /** Removing the hyphens from the slug gives exactly the `[a-z0-9]` characters of the lowercased term, in order. */
  lemma SlugifyKeepsAlnums(s: string)
    ensures RemoveHyphens(Slugify(s)) == Alnums(LowerAll(s))
  {
    var low := LowerAll(s);
    ReplaceRunsSlugChars(low);
    ReplaceRunsKeepsAlnums(low);
    TrimShape(ReplaceRuns(low));
  }

  /** The slug is empty exactly when the term holds no ASCII letter or digit. */
  lemma SlugifyEmptyIff(s: string)
    ensures Slugify(s) != "" <==> HasAsciiAlnum(s)
  {
    var r := Slugify(s);
    var low := LowerAll(s);
    SlugifyIsSlug(s);
    SlugifyKeepsAlnums(s);
    RemoveHyphensEmpty(r);
    AlnumsEmpty(low);
    if r != "" {
      assert r[0] != '-';
    }
    assert forall i :: 0 <= i < |s| ==> (IsAlnum(low[i]) <==> IsAsciiAlnum(s[i]));
    assert (forall i :: 0 <= i < |low| ==> !IsAlnum(low[i])) <==>
           (forall i :: 0 <= i < |s| ==> !IsAsciiAlnum(s[i]));
  }

  /** Each run of the term becomes at most one character of the slug. */
  lemma SlugifyNoLonger(s: string)
    ensures |Slugify(s)| <= |s|
  {
    var low := LowerAll(s);
    ReplaceRunsSlugChars(low);
    ReplaceRunsNoLonger(low);
    TrimShape(ReplaceRuns(low));
  }

  /** A string that already is a slug is its own slug. */
  lemma SlugifyFixesSlugs(t: string)
    requires IsSlug(t)
    ensures Slugify(t) == t
  {
    assert LowerAll(t) == t;
    ReplaceRunsFixesSlugChars(t);
    assert DropLeadingHyphen(t) == t;
  }

  /** Slugifying twice is the same as slugifying once. */
  lemma SlugifyIdempotent(s: string)
    ensures Slugify(Slugify(s)) == Slugify(s)
  {
    SlugifyIsSlug(s);
    SlugifyFixesSlugs(Slugify(s));
  }

  /**
   * The slug is the lowercased term's maximal `[a-z0-9]` runs, in order, with
   * one `-` between neighbours and nothing else.
   */
  lemma SlugifyIsJoinedWords(s: string)
    ensures Slugify(s) == JoinHyphen(Words(LowerAll(s)))
  {
    TrimmedRunsAreJoinedWords(LowerAll(s));
  }

  /** A worked case: `"A b!"` becomes `"a-b"`: the space becomes one `-` and the trailing `!` is trimmed away. */
  lemma ShortTermExample()
    ensures Slugify("A b!") == "a-b"
  {
    assert LowerAll("A b!") == "a b!";
    assert ReplaceRuns("b!") == "b-" by {
      assert "b!"[1..] == "!";
    }
    assert ReplaceRuns(" b!") == "-b-" by {
      assert LeadingRunLength(" b!") == 1;
      assert " b!"[1..] == "b!";
    }
    assert ReplaceRuns("a b!") == "a-b-" by {
      assert "a b!"[1..] == " b!";
    }
  }
}
