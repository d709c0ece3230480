/**
 * The page locator shared by the keyword search (extract_pdf/script.js) and
 * the record splitter (extract_pdf/split.js): the text of a page, the two
 * kinds of pattern the handlers test against it, and the scan that stops at
 * the first matching page.
 */
module Locator {
  import opened Wrappers
  import opened Text

  /** One page as the PDF text service delivers it: its text items, in order. */
  type Page = seq<string>

  /** A document as its pages; page number p (1-based) is doc[p - 1]. */
  type Document = seq<Page>

  /** `textContent.items.map(item => item.str).join(' ')`. */
  function PageText(p: Page): string {
    JoinWith(p, ' ')
  }

  datatype Pattern =
      /** An already normalised keyword, found by case-sensitive containment
          in the page's normalised text. */
    | Literal(key: string)
      /** Lower-case tokens separated by optional whitespace, found in the
          page's normalised, lower-cased text. */
    | Tokens(tokens: seq<string>)

  /** Non-empty tokens without whitespace: the only tokens the handlers build. */
  predicate WellFormedTokens(tokens: seq<string>) {
    forall i :: 0 <= i < |tokens| ==> tokens[i] != [] && forall k :: 0 <= k < |tokens[i]| ==> !IsSpace(tokens[i][k])
  }

  /** The pattern `t0\s*t1\s*...` matches a prefix of `t` when every gap
      between tokens consumes the whole whitespace run in front of it. */
  predicate MatchesAt(tokens: seq<string>, t: string)
    decreases |tokens|
  {
    tokens == [] || (IsPrefix(tokens[0], t) && MatchesAt(tokens[1..], DropSpaces(t[|tokens[0]|..])))
  }

  /** What the regular expression `t0\s*t1\s*...` means: some run of
      whitespace, possibly empty, separates consecutive tokens. */
  ghost predicate RegexMatchesAt(tokens: seq<string>, t: string)
    decreases |tokens|
  {
    tokens == [] ||
    (IsPrefix(tokens[0], t) &&
      (|tokens| == 1 ||
       exists k: nat | |tokens[0]| <= k <= |t| :: AllSpace(t[|tokens[0]|..k]) && RegexMatchesAt(tokens[1..], t[k..])))
  }

  lemma WellFormedRest(tokens: seq<string>)
    requires WellFormedTokens(tokens) && tokens != []
    ensures WellFormedTokens(tokens[1..])
  {
    forall i | 0 <= i < |tokens[1..]| ensures tokens[1..][i] == tokens[i + 1] { }
  }

  /** Where the greedy matcher resumes after the first token: position `k0`,
      reached over whitespace only, with `t[k0..]` the rest after the run. */
  lemma GreedyGap(t: string, n: nat) returns (k0: nat)
    requires n <= |t|
    ensures n <= k0 <= |t| && AllSpace(t[n..k0]) && t[k0..] == DropSpaces(t[n..])
  {
    var u := t[n..];
    var d := DropSpaces(u);
    k0 := n + (|u| - |d|);
    assert t[n..k0] == u[..|u| - |d|];
  }

  lemma {:induction false} GreedyImpliesRegex(tokens: seq<string>, t: string)
    requires WellFormedTokens(tokens)
    requires MatchesAt(tokens, t)
    ensures RegexMatchesAt(tokens, t)
    decreases |tokens|
  {
    if |tokens| > 1 {
      WellFormedRest(tokens);
      var k0 := GreedyGap(t, |tokens[0]|);
      GreedyImpliesRegex(tokens[1..], t[k0..]);
    }
  }

  /** A well-formed token at the front of `t` means `t` does not start with whitespace. */
  lemma TokenStartsNonSpace(tok: string, t: string)
    requires tok != [] && !IsSpace(tok[0])
    requires IsPrefix(tok, t)
    ensures t != [] && !IsSpace(t[0])
  {
    assert t[..|tok|][0] == t[0];
  }

  /** Skipping an all-whitespace gap that ends at a non-space character
      lands exactly where DropSpaces does. */
  lemma SkipGap(t: string, n: nat, k: nat)
    requires n <= k <= |t|
    requires AllSpace(t[n..k])
    requires t[k..] != [] && !IsSpace(t[k..][0])
    ensures DropSpaces(t[n..]) == t[k..]
  {
    assert t[n..] == t[n..k] + t[k..];
    DropSpacesPrefix(t[n..k], t[k..]);
  }

  lemma {:induction false} RegexImpliesGreedy(tokens: seq<string>, t: string)
    requires WellFormedTokens(tokens)
    requires RegexMatchesAt(tokens, t)
    ensures MatchesAt(tokens, t)
    decreases |tokens|
  {
    if |tokens| > 1 {
      var rest := tokens[1..];
      var n := |tokens[0]|;
      assert IsPrefix(tokens[0], t);
      WellFormedRest(tokens);
      var k: nat :| n <= k <= |t| && AllSpace(t[n..k]) && RegexMatchesAt(rest, t[k..]);
      RegexImpliesGreedy(rest, t[k..]);
      assert MatchesAt(rest, t[k..]);
      TokenStartsNonSpace(rest[0], t[k..]);
      SkipGap(t, n, k);
      assert MatchesAt(rest, DropSpaces(t[n..]));
    }
  }

  /** For well-formed tokens the backtracking of `\s*` never helps: skipping
      the whole whitespace run matches exactly when the regular expression does. */
  lemma GreedyMatchesRegex(tokens: seq<string>, t: string)
    requires WellFormedTokens(tokens)
    ensures MatchesAt(tokens, t) <==> RegexMatchesAt(tokens, t)
  {
    if MatchesAt(tokens, t) { GreedyImpliesRegex(tokens, t); }
    if RegexMatchesAt(tokens, t) { RegexImpliesGreedy(tokens, t); }
  }

  /** `regex.test(text)`: the pattern matches at some position of the text. */
  predicate MatchesSomewhere(tokens: seq<string>, t: string) {
    exists i: nat | i <= |t| :: MatchesAt(tokens, t[i..])
  }

  /** Whether a page satisfies a pattern, after the page text has been
      normalised (and, for token patterns, lower-cased) as the handlers do. */
  predicate PageMatches(p: Page, pat: Pattern) {
    match pat
    case Literal(key) => Contains(NormalizeSpaces(PageText(p)), key)
    case Tokens(tokens) => MatchesSomewhere(tokens, Lower(NormalizeSpaces(PageText(p))))
  }

  /** Page number `q` (1-based) exists and its page matches. */
  predicate Hit(doc: Document, pat: Pattern, q: int) {
    1 <= q <= |doc| && PageMatches(doc[q - 1], pat)
  }

  /** The first page number at or after `from` whose page matches, if any. */
  function FirstMatchFrom(doc: Document, pat: Pattern, from: nat): (r: Option<nat>)
    requires from >= 1
    ensures r.Some? ==> from <= r.value <= |doc|
    decreases |doc| + 1 - from
  {
    if from > |doc| then None
    else if Hit(doc, pat, from) then Some(from)
    else FirstMatchFrom(doc, pat, from + 1)
  }

  /** The located page is the smallest page number at or after `from` that
      matches; no page is reported when none matches. */
  lemma FirstMatchSpec(doc: Document, pat: Pattern, from: nat)
    requires from >= 1
    ensures var r := FirstMatchFrom(doc, pat, from);
      && (r.Some? ==> from <= r.value <= |doc| && Hit(doc, pat, r.value))
      && (forall q :: from <= q && (r.Some? ==> q < r.value) ==> !Hit(doc, pat, q))
  {
    FirstMatchHits(doc, pat, from);
    FirstMatchMissesBefore(doc, pat, from);
  }

  /** The reported page matches. */
  lemma {:induction false} FirstMatchHits(doc: Document, pat: Pattern, from: nat)
    requires from >= 1
    ensures var r := FirstMatchFrom(doc, pat, from); r.Some? ==> Hit(doc, pat, r.value)
    decreases |doc| + 1 - from
  {
    if from <= |doc| && !Hit(doc, pat, from) {
      FirstMatchHits(doc, pat, from + 1);
    }
  }

  /** No page between `from` and the reported one matches (none at all when
      nothing is reported). */
  lemma {:induction false} FirstMatchMissesBefore(doc: Document, pat: Pattern, from: nat)
    requires from >= 1
    ensures var r := FirstMatchFrom(doc, pat, from);
      forall q :: from <= q && (r.Some? ==> q < r.value) ==> !Hit(doc, pat, q)
    decreases |doc| + 1 - from
  {
    if from <= |doc| && !Hit(doc, pat, from) {
      FirstMatchMissesBefore(doc, pat, from + 1);
    }
  }

  /** The handlers' page loop: scan pages `from`, `from + 1`, ... and stop at
      the first one that matches. */
  method ScanFrom(doc: Document, pat: Pattern, from: nat) returns (r: Option<nat>)
    requires from >= 1
    ensures r.Some? ==> from <= r.value <= |doc| && Hit(doc, pat, r.value)
    ensures forall q :: from <= q && (r.Some? ==> q < r.value) ==> !Hit(doc, pat, q)
    ensures r == FirstMatchFrom(doc, pat, from)
  {
    var pageNum := from;
    var found := false;
    r := None;
    while pageNum <= |doc| && !found
      invariant from <= pageNum
      invariant !found ==> r == None && FirstMatchFrom(doc, pat, pageNum) == FirstMatchFrom(doc, pat, from)
      invariant found ==> r == FirstMatchFrom(doc, pat, from)
      decreases |doc| + 1 - pageNum
    {
      if Hit(doc, pat, pageNum) {
        found := true;
        r := Some(pageNum);
      }
      pageNum := pageNum + 1;
    }
    FirstMatchSpec(doc, pat, from);
  }
}
