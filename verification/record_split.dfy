/**
 * The record splitter of extract_pdf/split.js. For every value of the value
 * list, the first page whose text matches `key\s*:\s*value` starts a record;
 * the record runs up to the page before the next page that matches `key\s*:`
 * (or to the last page), and its pages are appended to one output document.
 *
 * The output document is represented by the 0-based indices of the pages it
 * received, in order. Copying a page can fail; `copyOk(v, p)` says whether
 * copying page index `p` for value number `v` succeeds.
 */
module RecordSplit {
  import opened Wrappers
  import opened Text
  import opened Locator

  /** Each word lower-cased. */
  function LowerAll(ws: seq<string>): (r: seq<string>)
    ensures |r| == |ws|
    ensures forall i :: 0 <= i < |ws| ==> r[i] == Lower(ws[i])
  {
    if ws == [] then [] else [Lower(ws[0])] + LowerAll(ws[1..])
  }

  /** The tokens of `key\s*:\s*value` once every whitespace run has become
      `\s*` and the pattern has been lower-cased: the key's words, a colon,
      the value's words. */
  function ValueTokens(key: string, value: string): seq<string> {
    LowerAll(Words(key)) + [":"] + LowerAll(Words(value))
  }

  /** The tokens of the record boundary `key\s*:`. */
  function KeyTokens(key: string): seq<string> {
    LowerAll(Words(key)) + [":"]
  }

  lemma LowerKeepsNonSpace(w: string)
    requires forall k :: 0 <= k < |w| ==> !IsSpace(w[k])
    ensures forall k :: 0 <= k < |Lower(w)| ==> !IsSpace(Lower(w)[k])
  {
    forall k | 0 <= k < |w|
      ensures !IsSpace(Lower(w)[k])
    {
      assert Lower(w)[k] == LowerChar(w[k]);
    }
  }

  lemma LowerWordsWellFormed(s: string)
    ensures WellFormedTokens(LowerAll(Words(s)))
  {
    var ws := Words(s);
    WordsAreWords(s);
    forall i | 0 <= i < |ws|
      ensures LowerAll(ws)[i] != [] && forall k :: 0 <= k < |LowerAll(ws)[i]| ==> !IsSpace(LowerAll(ws)[i][k])
    {
      LowerKeepsNonSpace(ws[i]);
    }
  }

  /** Both patterns consist of non-empty tokens without whitespace, so their
      greedy reading agrees with the regular expression. */
  lemma TokensWellFormed(key: string, value: string)
    ensures WellFormedTokens(ValueTokens(key, value))
    ensures WellFormedTokens(KeyTokens(key))
  {
    LowerWordsWellFormed(key);
    LowerWordsWellFormed(value);
  }

  /** The first page (1-based) that starts the record of `value`. */
  function StartPage(doc: Document, key: string, value: string): (r: Option<nat>)
    ensures r.Some? ==> 1 <= r.value <= |doc|
  {
    FirstMatchFrom(doc, Tokens(ValueTokens(key, value)), 1)
  }

  /** The last page of a record starting at `start`: the page before the next
      page holding `key:`, or the last page of the document. */
  function EndPage(doc: Document, key: string, start: nat): (r: nat)
    requires start >= 1
    ensures start <= |doc| ==> start <= r <= |doc|
  {
    match FirstMatchFrom(doc, Tokens(KeyTokens(key)), start + 1)
    case Some(q) => q - 1
    case None => |doc|
  }

  /** On a page's normalised, lower-cased text `t`, the value pattern
      matches exactly when the regular expression `key\s*:\s*value`
      (whitespace runs read as `\s*`) matches somewhere in `t`. */
  lemma StartPatternIsRegex(key: string, value: string, t: string)
    ensures MatchesSomewhere(ValueTokens(key, value), t) <==>
      exists i: nat | i <= |t| :: RegexMatchesAt(ValueTokens(key, value), t[i..])
  {
    var tokens := ValueTokens(key, value);
    TokensWellFormed(key, value);
    forall i: nat | i <= |t|
      ensures MatchesAt(tokens, t[i..]) <==> RegexMatchesAt(tokens, t[i..])
    {
      GreedyMatchesRegex(tokens, t[i..]);
    }
  }

  /** The same for the record boundary `key\s*:`. */
  lemma EndPatternIsRegex(key: string, t: string)
    ensures MatchesSomewhere(KeyTokens(key), t) <==>
      exists i: nat | i <= |t| :: RegexMatchesAt(KeyTokens(key), t[i..])
  {
    var tokens := KeyTokens(key);
    TokensWellFormed(key, "");
    forall i: nat | i <= |t|
      ensures MatchesAt(tokens, t[i..]) <==> RegexMatchesAt(tokens, t[i..])
    {
      GreedyMatchesRegex(tokens, t[i..]);
    }
  }

  /** A record starts on the first page that matches the value. */
  lemma StartPageFirst(doc: Document, key: string, value: string)
    ensures var r := StartPage(doc, key, value);
      && (r.Some? ==> Hit(doc, Tokens(ValueTokens(key, value)), r.value))
      && (forall q :: 1 <= q && (r.Some? ==> q < r.value) ==> !Hit(doc, Tokens(ValueTokens(key, value)), q))
  {
    FirstMatchSpec(doc, Tokens(ValueTokens(key, value)), 1);
  }

  /** A record ends before the next `key:` page after its start:
      start <= end <= number of pages, no page after the start up to the end
      holds the key, and the page after the end, if any, does. */
  lemma EndPageBoundary(doc: Document, key: string, s: nat)
    requires 1 <= s <= |doc|
    ensures var e := EndPage(doc, key, s);
      && s <= e <= |doc|
      && (forall q :: s < q <= e ==> !Hit(doc, Tokens(KeyTokens(key)), q))
      && (e < |doc| ==> Hit(doc, Tokens(KeyTokens(key)), e + 1))
  {
    var pat := Tokens(KeyTokens(key));
    FirstMatchSpec(doc, pat, s + 1);
    match FirstMatchFrom(doc, pat, s + 1) {
      case None =>
      case Some(q) =>
        var e := EndPage(doc, key, s);
        assert e == q - 1;
        assert Hit(doc, pat, q);
        assert Hit(doc, pat, e + 1);
    }
  }

  /** The pages actually copied for one record, and whether all of them were. */
  datatype Copy = Copy(pages: seq<nat>, complete: bool)

  /** Copying pages `first`..`last` (1-based) for value number `v` in turn;
      the first failure ends the record. */
  function CopyRange(v: nat, first: nat, last: nat, copyOk: (nat, nat) -> bool): Copy
    requires first >= 1
    decreases last + 1 - first
  {
    if first > last then Copy([], true)
    else if !copyOk(v, first - 1) then Copy([], false)
    else
      var rest := CopyRange(v, first + 1, last, copyOk);
      Copy([first - 1] + rest.pages, rest.complete)
  }

  /** The copied pages are the leading pages of the range, in order; the copy
      is complete exactly when every page of the range copies, and then it
      holds the whole range; otherwise it stops at the first page that fails. */
  lemma {:induction false} CopyRangeSpec(v: nat, first: nat, last: nat, copyOk: (nat, nat) -> bool)
    requires first >= 1
    ensures var c := CopyRange(v, first, last, copyOk);
      && |c.pages| <= (if first <= last then last + 1 - first else 0)
      && (forall j :: 0 <= j < |c.pages| ==> c.pages[j] == first - 1 + j)
      && (forall j :: 0 <= j < |c.pages| ==> copyOk(v, c.pages[j]))
      && (c.complete <==> forall p :: first - 1 <= p < last ==> copyOk(v, p))
      && (c.complete ==> |c.pages| == if first <= last then last + 1 - first else 0)
      && (!c.complete ==> first + |c.pages| <= last && !copyOk(v, first - 1 + |c.pages|))
    decreases last + 1 - first
  {
    if first <= last && copyOk(v, first - 1) {
      CopyRangeSpec(v, first + 1, last, copyOk);
      var rest := CopyRange(v, first + 1, last, copyOk);
      var c := CopyRange(v, first, last, copyOk);
      assert c.pages == [first - 1] + rest.pages;
      if c.complete {
        forall p | first - 1 <= p < last ensures copyOk(v, p) {
          if p > first - 1 { assert first <= p < last; }
        }
      }
    }
  }

  /** What the handler has produced after some of the values. */
  datatype Progress = Progress(pages: seq<nat>, notFound: seq<string>, errors: seq<string>)

  /** One more value, number `v`: not found, or its record copied (and an
      error reported when a copy fails). */
  function Process(doc: Document, key: string, value: string, v: nat,
                   copyOk: (nat, nat) -> bool, acc: Progress): Progress
  {
    match StartPage(doc, key, value)
    case None => acc.(notFound := acc.notFound + [value])
    case Some(s) =>
      var c := CopyRange(v, s, EndPage(doc, key, s), copyOk);
      Progress(acc.pages + c.pages, acc.notFound, acc.errors + if c.complete then [] else [value])
  }

  /** The result of processing `values` in order, value number `v` being
      `values[v]`. */
  function Run(doc: Document, key: string, values: seq<string>, copyOk: (nat, nat) -> bool): Progress {
    if values == [] then Progress([], [], [])
    else
      var n := |values| - 1;
      Process(doc, key, values[n], n, copyOk, Run(doc, key, values[..n], copyOk))
  }

  lemma RunStep(doc: Document, key: string, values: seq<string>, copyOk: (nat, nat) -> bool, i: nat)
    requires i < |values|
    ensures Run(doc, key, values[..i + 1], copyOk) == Process(doc, key, values[i], i, copyOk, Run(doc, key, values[..i], copyOk))
  {
    var vs := values[..i + 1];
    assert vs[..|vs| - 1] == values[..i];
  }

  datatype SplitOutcome =
      /** No file, a blank key or a blank value list: the alert, and nothing else. */
    | MissingInput
    | Done(pages: seq<nat>, notFoundValues: seq<string>, errors: seq<string>)

  /** The start and end page of one value's record, as the two page loops
      find them. */
  method FindRange(doc: Document, key: string, value: string) returns (start: Option<nat>, end: nat)
    ensures start == StartPage(doc, key, value)
    ensures start.Some? ==> end == EndPage(doc, key, start.value)
  {
    end := 0;
    start := ScanFrom(doc, Tokens(ValueTokens(key, value)), 1);
    if start.Some? {
      end := |doc|;
      var boundary := ScanFrom(doc, Tokens(KeyTokens(key)), start.value + 1);
      if boundary.Some? {
        end := boundary.value - 1;
      }
    }
  }

  /** The copy loop: append pages `first`..`last` one by one, stopping at the
      first page that fails to copy. */
  method CopyPages(v: nat, first: nat, last: nat, copyOk: (nat, nat) -> bool, doc: seq<nat>)
    returns (newDoc: seq<nat>, complete: bool)
    requires first >= 1
    ensures newDoc == doc + CopyRange(v, first, last, copyOk).pages
    ensures complete == CopyRange(v, first, last, copyOk).complete
  {
    newDoc := doc;
    complete := true;
    var extractPageNum := first;
    while extractPageNum <= last && complete
      invariant first <= extractPageNum
      invariant complete ==>
        newDoc + CopyRange(v, extractPageNum, last, copyOk).pages == doc + CopyRange(v, first, last, copyOk).pages
        && CopyRange(v, extractPageNum, last, copyOk).complete == CopyRange(v, first, last, copyOk).complete
      invariant !complete ==>
        newDoc == doc + CopyRange(v, first, last, copyOk).pages && !CopyRange(v, first, last, copyOk).complete
      decreases last + 1 - extractPageNum, complete
    {
      if copyOk(v, extractPageNum - 1) {
        newDoc := newDoc + [extractPageNum - 1];
        extractPageNum := extractPageNum + 1;
      } else {
        complete := false;
      }
    }
  }

  /** The body of the loop over the values (the `try` block): find the
      record of value number `v` and copy it, or list the value as missing. */
  method SplitOne(doc: Document, key: string, value: string, v: nat,
                  copyOk: (nat, nat) -> bool, acc: Progress) returns (next: Progress)
    ensures next == Process(doc, key, value, v, copyOk, acc)
  {
    var startPageNum, endPageNum := FindRange(doc, key, value);
    if startPageNum.Some? {
      var newPdfDoc, complete := CopyPages(v, startPageNum.value, endPageNum, copyOk, acc.pages);
      next := Progress(newPdfDoc, acc.notFound, if complete then acc.errors else acc.errors + [value]);
    } else {
      next := acc.(notFound := acc.notFound + [value]);
    }
  }

  /** The loop over the values. */
  method SplitAll(doc: Document, key: string, values: seq<string>, copyOk: (nat, nat) -> bool)
    returns (p: Progress)
    ensures p == Run(doc, key, values, copyOk)
  {
    p := Progress([], [], []);
    var i := 0;
    while i < |values|
      invariant i <= |values|
      invariant p == Run(doc, key, values[..i], copyOk)
    {
      RunStep(doc, key, values, copyOk, i);
      p := SplitOne(doc, key, values[i], i, copyOk, p);
      i := i + 1;
    }
    assert values[..i] == values;
  }

  /** No character that a JavaScript regular expression treats specially:
      for such text the pattern the page builds means literal words
      separated by optional whitespace. */
  predicate NoRegexMeta(s: string) {
    forall i :: 0 <= i < |s| ==> s[i] !in "\\^$.|?*+()[]{}"
  }

  /** The split button's click handler. */
  method SplitStatements(hasFile: bool, keyInput: string, valuesInput: string, doc: Document,
                         copyOk: (nat, nat) -> bool) returns (r: SplitOutcome)
    requires NoRegexMeta(keyInput) && NoRegexMeta(valuesInput)
    ensures r.MissingInput? <==> !hasFile || Trim(keyInput) == [] || Trim(valuesInput) == []
    ensures r.Done? ==>
      var p := Run(doc, Trim(keyInput), NonBlankLines(valuesInput), copyOk);
      r == Done(p.pages, p.notFound, p.errors)
  {
    if !hasFile || Trim(keyInput) == [] || Trim(valuesInput) == [] {
      return MissingInput;
    }
    var filterKey := Trim(keyInput);
    var values := NonBlankLines(valuesInput);
    var p := SplitAll(doc, filterKey, values, copyOk);
    r := Done(p.pages, p.notFound, p.errors);
  }

  /** The values for which no page matches, in input order. */
  function Unmatched(doc: Document, key: string, values: seq<string>): seq<string> {
    if values == [] then []
    else
      var n := |values| - 1;
      Unmatched(doc, key, values[..n]) + if StartPage(doc, key, values[n]).None? then [values[n]] else []
  }

  /** The reported missing values are exactly the unmatched ones, in input
      order, whichever copies fail. */
  lemma {:induction false} NotFoundExact(doc: Document, key: string, values: seq<string>, copyOk: (nat, nat) -> bool)
    ensures Run(doc, key, values, copyOk).notFound == Unmatched(doc, key, values)
  {
    if values != [] {
      NotFoundExact(doc, key, values[..|values| - 1], copyOk);
    }
  }

  /** A value is unmatched exactly when it is in the list and no page
      matches it. */
  lemma {:induction false} UnmatchedMembers(doc: Document, key: string, values: seq<string>)
    ensures forall x :: x in Unmatched(doc, key, values) <==> x in values && StartPage(doc, key, x).None?
  {
    if values != [] {
      var n := |values| - 1;
      UnmatchedMembers(doc, key, values[..n]);
      assert values == values[..n] + [values[n]];
    }
  }

  /** Only a value whose record was found can be reported as an error. */
  lemma {:induction false} ErrorsAreFound(doc: Document, key: string, values: seq<string>, copyOk: (nat, nat) -> bool)
    ensures forall x :: x in Run(doc, key, values, copyOk).errors ==> x in values && StartPage(doc, key, x).Some?
  {
    if values != [] {
      var n := |values| - 1;
      ErrorsAreFound(doc, key, values[..n], copyOk);
      assert values == values[..n] + [values[n]];
    }
  }

  /** Value number `v` is found and some page of its record fails to
      copy. */
  predicate CopyFails(doc: Document, key: string, value: string, v: nat, copyOk: (nat, nat) -> bool) {
    match StartPage(doc, key, value)
    case None => false
    case Some(s) => exists p: nat :: s - 1 <= p < EndPage(doc, key, s) && !copyOk(v, p)
  }

  /** The values whose record hits a copy fault, in input order. */
  function Faulty(doc: Document, key: string, values: seq<string>, copyOk: (nat, nat) -> bool): seq<string> {
    if values == [] then []
    else
      var n := |values| - 1;
      Faulty(doc, key, values[..n], copyOk) + if CopyFails(doc, key, values[n], n, copyOk) then [values[n]] else []
  }

  /** The reported errors are exactly the found values whose record hits a
      copy fault, in input order: the `catch` reports each of them once. */
  lemma {:induction false} ErrorsExact(doc: Document, key: string, values: seq<string>, copyOk: (nat, nat) -> bool)
    ensures Run(doc, key, values, copyOk).errors == Faulty(doc, key, values, copyOk)
  {
    if values != [] {
      var n := |values| - 1;
      ErrorsExact(doc, key, values[..n], copyOk);
      match StartPage(doc, key, values[n])
      case None =>
      case Some(s) =>
        CopyRangeSpec(n, s, EndPage(doc, key, s), copyOk);
    }
  }

  /** A found value whose record has a page that fails to copy is reported
      as an error. */
  lemma {:induction false} FaultReported(doc: Document, key: string, values: seq<string>, copyOk: (nat, nat) -> bool, i: nat, p: nat)
    requires i < |values| && StartPage(doc, key, values[i]).Some?
    requires var s := StartPage(doc, key, values[i]).value;
      s - 1 <= p < EndPage(doc, key, s) && !copyOk(i, p)
    ensures values[i] in Run(doc, key, values, copyOk).errors
  {
    ErrorsExact(doc, key, values, copyOk);
    FaultyHas(doc, key, values, copyOk, i);
  }

  lemma {:induction false} FaultyHas(doc: Document, key: string, values: seq<string>, copyOk: (nat, nat) -> bool, i: nat)
    requires i < |values| && CopyFails(doc, key, values[i], i, copyOk)
    ensures values[i] in Faulty(doc, key, values, copyOk)
  {
    var n := |values| - 1;
    if i < n {
      assert values[..n][i] == values[i];
      FaultyHas(doc, key, values[..n], copyOk, i);
    }
  }

  /** The 0-based pages of a value's record, start to end, or none when the
      value is not found. */
  function RecordPages(doc: Document, key: string, value: string): seq<nat> {
    match StartPage(doc, key, value)
    case None => []
    case Some(s) => Span(s, EndPage(doc, key, s))
  }

  /** The 0-based indices of pages `first`..`last` (1-based). */
  function Span(first: nat, last: nat): (r: seq<nat>)
    requires 1 <= first <= last + 1
  {
    seq(last + 1 - first, j requires 0 <= j => first - 1 + j)
  }

  /** Pages `first`..`last` in order are exactly their span. */
  lemma IsSpan(pages: seq<nat>, first: nat, last: nat)
    requires 1 <= first <= last + 1
    requires |pages| == last + 1 - first
    requires forall j :: 0 <= j < |pages| ==> pages[j] == first - 1 + j
    ensures pages == Span(first, last)
  {
  }

  /** The records of all values, in the order of the value list. */
  function AllRecords(doc: Document, key: string, values: seq<string>): seq<nat> {
    if values == [] then []
    else
      var n := |values| - 1;
      AllRecords(doc, key, values[..n]) + RecordPages(doc, key, values[n])
  }

  /** When every copy of value number `v` succeeds, its whole record is
      copied. */
  lemma FaultFreeRecord(doc: Document, key: string, value: string, v: nat, copyOk: (nat, nat) -> bool)
    requires StartPage(doc, key, value).Some?
    requires forall p: nat :: copyOk(v, p)
    ensures var s := StartPage(doc, key, value).value;
      var c := CopyRange(v, s, EndPage(doc, key, s), copyOk);
      c.complete && c.pages == RecordPages(doc, key, value)
  {
    var s := StartPage(doc, key, value).value;
    var e := EndPage(doc, key, s);
    CopyRangeSpec(v, s, e, copyOk);
    var c := CopyRange(v, s, e, copyOk);
    assert c.complete;
    IsSpan(c.pages, s, e);
  }

  /** When every copy succeeds, the output holds every found value's whole
      record, in the order of the value list (a value listed twice is copied
      twice), and no error is reported. */
  lemma {:induction false} FaultFreeRun(doc: Document, key: string, values: seq<string>, copyOk: (nat, nat) -> bool)
    requires forall v: nat, p: nat :: copyOk(v, p)
    ensures Run(doc, key, values, copyOk).pages == AllRecords(doc, key, values)
    ensures Run(doc, key, values, copyOk).errors == []
  {
    if values != [] {
      var n := |values| - 1;
      FaultFreeRun(doc, key, values[..n], copyOk);
      if StartPage(doc, key, values[n]).Some? {
        FaultFreeRecord(doc, key, values[n], n, copyOk);
      }
    }
  }

  /** Every copied page is a page of the document. */
  lemma {:induction false} PagesInDocument(doc: Document, key: string, values: seq<string>, copyOk: (nat, nat) -> bool)
    ensures forall j :: 0 <= j < |Run(doc, key, values, copyOk).pages| ==> Run(doc, key, values, copyOk).pages[j] < |doc|
  {
    if values != [] {
      var n := |values| - 1;
      PagesInDocument(doc, key, values[..n], copyOk);
      match StartPage(doc, key, values[n]) {
        case None =>
        case Some(s) =>
          CopyRangeSpec(n, s, EndPage(doc, key, s), copyOk);
      }
    }
  }

  /** Processing more values only appends: what was copied, reported
      missing or reported as an error for the earlier values stays as it
      was, so a failing value does not undo or stop the others. */
  lemma {:induction false} RunExtends(doc: Document, key: string, values: seq<string>, more: seq<string>,
                                      copyOk: (nat, nat) -> bool)
    ensures var a, b := Run(doc, key, values, copyOk), Run(doc, key, values + more, copyOk);
      a.pages <= b.pages && a.notFound <= b.notFound && a.errors <= b.errors
  {
    if more == [] {
      assert values + more == values;
    } else {
      var m := |more| - 1;
      RunExtends(doc, key, values, more[..m], copyOk);
      var all := values + more;
      assert all[..|all| - 1] == values + more[..m];
    }
  }

  /** Lower-casing keeps a word a word. */
  lemma LowerWord(w: string)
    requires IsWord(w)
    ensures IsWord(Lower(w))
  {
    LowerKeepsNonSpace(w);
  }

  /** For a one-word key and a one-word value, the record pattern is the
      lower-cased key, a colon and the lower-cased value. */
  lemma OneWordTokens(key: string, value: string)
    requires IsWord(key) && IsWord(value)
    ensures ValueTokens(key, value) == [Lower(key), ":", Lower(value)]
    ensures KeyTokens(key) == [Lower(key), ":"]
  {
    WordsOfWord(key);
    WordsOfWord(value);
    assert LowerAll([key]) == [Lower(key)];
    assert LowerAll([value]) == [Lower(value)];
  }

  /** The first token, a whitespace run, then text the remaining tokens
      match. */
  lemma MatchesAtStep(tokens: seq<string>, gap: string, rest: string)
    requires tokens != []
    requires AllSpace(gap)
    requires rest == [] || !IsSpace(rest[0])
    requires MatchesAt(tokens[1..], rest)
    ensures MatchesAt(tokens, tokens[0] + gap + rest)
  {
    var t := tokens[0] + gap + rest;
    assert t[..|tokens[0]|] == tokens[0];
    assert t[|tokens[0]|..] == gap + rest;
    DropSpacesPrefix(gap, rest);
  }

  /** Three tokens separated by whitespace runs match. */
  lemma ThreeTokens(a: string, b: string, c: string, gap1: string, gap2: string)
    requires IsWord(b) && IsWord(c)
    requires AllSpace(gap1) && AllSpace(gap2)
    ensures MatchesAt([a, b, c], a + gap1 + (b + gap2 + c))
  {
    var tokens := [a, b, c];
    assert MatchesAt(tokens[2..], c) by {
      assert c[..|c|] == c;
    }
    assert tokens[1..][1..] == tokens[2..];
    MatchesAtStep(tokens[1..], gap2, c);
    MatchesAtStep(tokens, gap1, b + gap2 + c);
  }

  /** Whitespace on either side of the colon, or none, is tolerated: the
      lower-cased text `key<gap>:<gap>value` matches the record pattern of a
      one-word key and value. */
  lemma SpacingTolerated(key: string, value: string, gap1: string, gap2: string)
    requires IsWord(key) && IsWord(value)
    requires AllSpace(gap1) && AllSpace(gap2)
    ensures MatchesAt(ValueTokens(key, value), Lower(key) + gap1 + (":" + gap2 + Lower(value)))
  {
    OneWordTokens(key, value);
    LowerWord(value);
    assert IsWord(":");
    ThreeTokens(Lower(key), ":", Lower(value), gap1, gap2);
  }
}
