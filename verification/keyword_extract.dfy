/**
 * The keyword search of extract_pdf/script.js. Every non-blank line of the
 * keyword box is looked up in the document. The first page whose normalised
 * text contains the normalised keyword is extracted on its own and stored in
 * the archive under a file name derived from the keyword. Keywords without a
 * page are counted and listed.
 *
 * An extracted one-page PDF is represented by the 0-based index of the page
 * it was copied from.
 */
module KeywordExtract {
  import opened Wrappers
  import opened Text
  import opened Locator

  /** The characters `/[a-z0-9]/i` accepts: ASCII letters and digits. */
  predicate IsAsciiAlnum(c: char) {
    'a' <= c <= 'z' || 'A' <= c <= 'Z' || '0' <= c <= '9'
  }

  /** `s.replace(/[^a-z0-9]/gi, '_')`. */
  function Sanitize(s: string): (r: string)
    ensures |r| == |s|
    ensures forall i :: 0 <= i < |r| ==> IsAsciiAlnum(r[i]) || r[i] == '_'
    ensures forall i :: 0 <= i < |s| && IsAsciiAlnum(s[i]) ==> r[i] == s[i]
    ensures forall i :: 0 <= i < |s| && !IsAsciiAlnum(s[i]) ==> r[i] == '_'
  {
    seq(|s|, i requires 0 <= i < |s| => if IsAsciiAlnum(s[i]) then s[i] else '_')
  }

  /** The archive entry name of a keyword: its normalised form, sanitised,
      with `.pdf` appended. */
  function FileName(keyword: string): string {
    Sanitize(NormalizeSpaces(keyword)) + ".pdf"
  }

  /** The file name is as long as the normalised keyword plus ".pdf"; every
      character before the suffix is an ASCII letter or digit kept in place
      (case preserved) or `_` standing for anything else. */
  lemma FileNameShape(keyword: string)
    ensures var r, k := FileName(keyword), NormalizeSpaces(keyword);
      && |r| == |k| + 4
      && r[|k|..] == ".pdf"
      && (forall i :: 0 <= i < |k| && IsAsciiAlnum(k[i]) ==> r[i] == k[i])
      && (forall i :: 0 <= i < |k| && !IsAsciiAlnum(k[i]) ==> r[i] == '_')
  {
  }

  /** The page number (1-based) where a keyword is found, if any. */
  function Locate(doc: Document, keyword: string): Option<nat> {
    FirstMatchFrom(doc, Literal(NormalizeSpaces(keyword)), 1)
  }

  /** The keywords that were not found, in input order. */
  function Missing(doc: Document, keywords: seq<string>): seq<string> {
    if keywords == [] then []
    else
      var last := keywords[|keywords| - 1];
      Missing(doc, keywords[..|keywords| - 1]) + (if Locate(doc, last).None? then [last] else [])
  }

  /** The archive after storing every found keyword's page in turn; a later
      keyword with the same file name overwrites an earlier one. */
  function Archive(doc: Document, keywords: seq<string>): map<string, nat> {
    if keywords == [] then map[]
    else
      var last := keywords[|keywords| - 1];
      var earlier := Archive(doc, keywords[..|keywords| - 1]);
      match Locate(doc, last)
      case None => earlier
      case Some(p) => earlier[FileName(last) := p - 1]
  }

  datatype SearchOutcome =
      /** No file chosen, or a blank keyword box: the alert, and nothing else. */
    | MissingInput
    | Searched(foundCount: nat, notFoundCount: nat, notFoundKeywords: seq<string>,
               archive: map<string, nat>, offerZip: bool)

  /** One more keyword: the equations the handler's loop follows. */
  lemma ExtendByOne(doc: Document, keywords: seq<string>, i: nat)
    requires i < |keywords|
    ensures Missing(doc, keywords[..i + 1]) ==
      Missing(doc, keywords[..i]) + (if Locate(doc, keywords[i]).None? then [keywords[i]] else [])
    ensures Archive(doc, keywords[..i + 1]) ==
      if Locate(doc, keywords[i]).None? then Archive(doc, keywords[..i])
      else Archive(doc, keywords[..i])[FileName(keywords[i]) := Locate(doc, keywords[i]).value - 1]
  {
    var ks := keywords[..i + 1];
    assert ks[..|ks| - 1] == keywords[..i];
    assert ks[|ks| - 1] == keywords[i];
  }

  /** The page loop for one keyword: normalise it and scan from page 1. */
  method FindKeyword(doc: Document, keyword: string) returns (pageNum: Option<nat>)
    ensures pageNum == Locate(doc, keyword)
    ensures pageNum.Some? ==> 1 <= pageNum.value <= |doc|
  {
    var normalizedKeyword := NormalizeSpaces(keyword);
    pageNum := ScanFrom(doc, Literal(normalizedKeyword), 1);
  }

  /** The loop over the keywords: look each one up, count it, and either
      archive its page or list it as missing. */
  method SearchAll(doc: Document, keywords: seq<string>)
    returns (foundCount: nat, notFoundCount: nat, notFoundKeywords: seq<string>, zip: map<string, nat>)
    ensures foundCount + notFoundCount == |keywords|
    ensures notFoundCount == |notFoundKeywords|
    ensures notFoundKeywords == Missing(doc, keywords)
    ensures zip == Archive(doc, keywords)
  {
    foundCount, notFoundCount := 0, 0;
    notFoundKeywords, zip := [], map[];
    var i := 0;
    while i < |keywords|
      invariant i <= |keywords|
      invariant foundCount + notFoundCount == i
      invariant notFoundCount == |notFoundKeywords|
      invariant notFoundKeywords == Missing(doc, keywords[..i])
      invariant zip == Archive(doc, keywords[..i])
    {
      var keyword := keywords[i];
      var pageNum := FindKeyword(doc, keyword);
      ExtendByOne(doc, keywords, i);
      if pageNum.Some? {
        foundCount := foundCount + 1;
        var copiedPage := pageNum.value - 1;
        zip := zip[FileName(keyword) := copiedPage];
      } else {
        notFoundCount := notFoundCount + 1;
        notFoundKeywords := notFoundKeywords + [keyword];
      }
      i := i + 1;
    }
    assert keywords[..i] == keywords;
  }

  /** The search button's click handler. */
  method SearchKeywords(hasFile: bool, keywordsInput: string, doc: Document) returns (r: SearchOutcome)
    ensures r.MissingInput? <==> !hasFile || Trim(keywordsInput) == []
    ensures r.Searched? ==>
      var keywords := NonBlankLines(keywordsInput);
      && r.foundCount + r.notFoundCount == |keywords|
      && r.notFoundCount == |r.notFoundKeywords|
      && r.notFoundKeywords == Missing(doc, keywords)
      && r.archive == Archive(doc, keywords)
      && r.offerZip == (r.foundCount > 0)
  {
    if !hasFile || Trim(keywordsInput) == [] {
      return MissingInput;
    }
    var keywords := NonBlankLines(keywordsInput);
    var foundCount, notFoundCount, notFoundKeywords, zip := SearchAll(doc, keywords);
    r := Searched(foundCount, notFoundCount, notFoundKeywords, zip, foundCount > 0);
  }

  /** A keyword is listed as not found exactly when no page contains it. */
  lemma {:induction false} MissingExact(doc: Document, keywords: seq<string>)
    ensures forall x :: x in Missing(doc, keywords) <==> x in keywords && Locate(doc, x).None?
  {
    if keywords != [] {
      var init := keywords[..|keywords| - 1];
      MissingExact(doc, init);
      assert keywords == init + [keywords[|keywords| - 1]];
    }
  }

  /** Keyword number `i` was found and its file name is `name`. */
  predicate Produces(doc: Document, keywords: seq<string>, i: int, name: string) {
    0 <= i < |keywords| && Locate(doc, keywords[i]).Some? && FileName(keywords[i]) == name
  }

  /** The archive holds a name exactly when some found keyword produced it. */
  lemma ArchiveKeys(doc: Document, keywords: seq<string>, name: string)
    ensures name in Archive(doc, keywords) <==> exists i :: Produces(doc, keywords, i, name)
  {
    if name in Archive(doc, keywords) {
      var i := ArchiveSound(doc, keywords, name);
    }
    if exists i :: Produces(doc, keywords, i, name) {
      var i :| Produces(doc, keywords, i, name);
      ArchiveComplete(doc, keywords, name, i);
    }
  }

  /** Every name in the archive was produced by a found keyword. */
  lemma {:induction false} ArchiveSound(doc: Document, keywords: seq<string>, name: string) returns (i: nat)
    requires name in Archive(doc, keywords)
    ensures Produces(doc, keywords, i, name)
  {
    var n := |keywords| - 1;
    var init := keywords[..n];
    ExtendByOne(doc, keywords, n);
    assert keywords[..n + 1] == keywords;
    if name in Archive(doc, init) && !Produces(doc, keywords, n, name) {
      i := ArchiveSound(doc, init, name);
      assert keywords[i] == init[i];
    } else {
      i := n;
    }
  }

  /** Every name a found keyword produces is in the archive. */
  lemma {:induction false} ArchiveComplete(doc: Document, keywords: seq<string>, name: string, i: nat)
    requires Produces(doc, keywords, i, name)
    ensures name in Archive(doc, keywords)
  {
    var n := |keywords| - 1;
    var init := keywords[..n];
    ExtendByOne(doc, keywords, n);
    assert keywords[..n + 1] == keywords;
    if i < n {
      assert keywords[i] == init[i];
      ArchiveComplete(doc, init, name, i);
    }
  }

  /** Last write wins: a name maps to the page of the last found keyword
      that produced it. */
  lemma {:induction false} ArchiveLastWins(doc: Document, keywords: seq<string>, i: nat)
    requires i < |keywords| && Locate(doc, keywords[i]).Some?
    requires forall j :: i < j < |keywords| && Locate(doc, keywords[j]).Some? ==> FileName(keywords[j]) != FileName(keywords[i])
    ensures FileName(keywords[i]) in Archive(doc, keywords)
    ensures Archive(doc, keywords)[FileName(keywords[i])] == Locate(doc, keywords[i]).value - 1
  {
    var init := keywords[..|keywords| - 1];
    if i < |init| {
      assert init[i] == keywords[i];
      forall j | i < j < |init| && Locate(doc, init[j]).Some?
        ensures FileName(init[j]) != FileName(init[i])
      {
        assert init[j] == keywords[j];
      }
      ArchiveLastWins(doc, init, i);
    }
  }

  /** Every archived page index is a page of the document. */
  lemma {:induction false} ArchivePagesInDocument(doc: Document, keywords: seq<string>)
    ensures forall name :: name in Archive(doc, keywords) ==> Archive(doc, keywords)[name] < |doc|
  {
    if keywords != [] {
      ArchivePagesInDocument(doc, keywords[..|keywords| - 1]);
    }
  }

  /** The archive is offered exactly when some keyword was found, and then it
      is not empty. */
  lemma {:induction false} ZipOfferedIffArchiveNonEmpty(doc: Document, keywords: seq<string>)
    ensures |Missing(doc, keywords)| < |keywords| <==> Archive(doc, keywords) != map[]
  {
    if keywords != [] {
      var init := keywords[..|keywords| - 1];
      ZipOfferedIffArchiveNonEmpty(doc, init);
      MissingBound(doc, init);
      ExtendByOne(doc, keywords, |init|);
      assert keywords[..|init| + 1] == keywords;
      var last := keywords[|init|];
      if Locate(doc, last).Some? {
        assert FileName(last) in Archive(doc, keywords);
      }
    }
  }

  lemma {:induction false} MissingBound(doc: Document, keywords: seq<string>)
    ensures |Missing(doc, keywords)| <= |keywords|
  {
    if keywords != [] {
      MissingBound(doc, keywords[..|keywords| - 1]);
    }
  }

  /** The three-page document of the scenario below. */
  function InvoiceDoc(): Document {
    [["Sum"], ["ID-7", "ok"], ["end"]]
  }

  /** "ID-7" has no whitespace, so normalising keeps it. */
  lemma KeyIsNormal()
    ensures NormalizeSpaces("ID-7") == "ID-7"
  {
    var key := "ID-7";
    assert SingleSpaced(key) by {
      assert forall i :: 0 <= i < |key| ==> !IsSpace(key[i]);
    }
    NormalizeFixpoint(key);
  }

  /** Page 1 reads "Sum", too short to hold the keyword. */
  lemma FirstPageMisses()
    ensures !Hit(InvoiceDoc(), Literal("ID-7"), 1)
  {
    assert PageText(InvoiceDoc()[0]) == "Sum";
    assert |NormalizeSpaces("Sum")| <= 3;
  }

  /** Page 2 reads "ID-7 ok", which starts with the keyword. */
  lemma SecondPageHits()
    ensures Hit(InvoiceDoc(), Literal("ID-7"), 2)
  {
    var doc := InvoiceDoc();
    assert doc[1][1..] == ["ok"];
    var text := "ID-7 ok";
    assert PageText(doc[1]) == text;
    assert SingleSpaced(text) by {
      assert forall i :: 0 <= i < |text| && i != 4 ==> !IsSpace(text[i]);
    }
    NormalizeFixpoint(text);
    assert OccursAt(text, "ID-7", 0);
  }

  /** In the scenario, "ID-7" is first found on page 2. */
  lemma InvoiceLocated()
    ensures Locate(InvoiceDoc(), "ID-7") == Some(2)
  {
    KeyIsNormal();
    FirstPageMisses();
    SecondPageHits();
  }

  /** The archive name of "ID-7": the hyphen becomes an underscore. */
  lemma InvoiceFileName()
    ensures FileName("ID-7") == "ID_7.pdf"
  {
    KeyIsNormal();
    assert Sanitize("ID-7") == "ID_7";
  }

  /** A three-page document whose second page reads "ID-7 ok": nothing is
      missing and page index 1 is archived as "ID_7.pdf" (case kept). */
  lemma InvoiceScenario()
    ensures Missing(InvoiceDoc(), ["ID-7"]) == []
    ensures Archive(InvoiceDoc(), ["ID-7"]) == map["ID_7.pdf" := 1]
  {
    var key := "ID-7";
    InvoiceLocated();
    InvoiceFileName();
    assert [key][..0] == [];
  }
}
