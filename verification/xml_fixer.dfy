/**
 * The XML fixer page: a bounded repair loop that parses the text and, while
 * the parser reports an error, removes the character the diagnostic names
 * (its first occurrence) or, failing that, every disallowed control
 * character in one sweep, logging each removal. It gives up after 10 parse
 * attempts, on a sweep that removes nothing, or when the log grows past 100
 * entries. The XML parser is an oracle: whether a text parses, and the
 * character code its error message names, if any.
 */
module XmlFixer {
  import opened Wrappers
  import opened Text
  import opened InvalidChars

  const MaxAttempts: nat := 10
  const MaxLogEntries: nat := 100
  const BatchContext: string := "Batch removal of all control characters"

  /** The parser as an oracle: whether a text parses without a
      `parsererror`, and the number after "Char value" in its error message,
      when there is one. */
  datatype Parser = Parser(parses: string -> bool, diagCharCode: string -> Option<nat>)

  /** One line of the fix log. `position` is -1 when the character does not
      occur, as `indexOf` reports. */
  datatype FixEntry = FixEntry(attempt: nat, invalidChar: char, charCode: nat, hexCode: string, position: int, context: string)

  /** Why the repair gave up. */
  datatype Failure = CouldNotIdentify | CouldNotFix | TooManyFixes | AttemptsExhausted

  function Max(a: int, b: int): int { if a >= b then a else b }
  function Min(a: int, b: int): int { if a <= b then a else b }

  /** `String.fromCharCode(code)`: the code is taken modulo 2^16; a
      surrogate code unit is not a character of the model. */
  function CharOfCode(code: nat): (r: Option<char>)
    ensures r.Some? ==> r.value as int == code % 0x1_0000
    ensures r.None? <==> 0xD800 <= code % 0x1_0000 < 0xE000
  {
    var u := code % 0x1_0000;
    if 0xD800 <= u < 0xE000 then None else Some(u as char)
  }

  /** `s.indexOf(c)`. */
  function IndexOf(s: string, c: char): (r: int)
    ensures r == -1 <==> c !in s
    ensures r >= 0 ==> r < |s| && s[r] == c && c !in s[..r]
  {
    if c in s then FirstIndex(s, c) else -1
  }

  /** Up to 20 characters either side of `position`. */
  function Context(s: string, position: nat): string
    requires position <= |s|
  {
    s[Max(0, position - 20)..Min(|s|, position + 20)]
  }

  /** `"0x" + code.toString(16).toUpperCase()`, without padding. */
  function HexCode(code: nat): string {
    "0x" + HexDigits(code)
  }

  /** The log entries of a sweep over `text`: one per distinct disallowed
      character, in order of first occurrence. */
  function SweepEntries(text: string, attempt: nat): (r: seq<FixEntry>)
    ensures |r| == |Distinct(Detect(text))|
  {
    var unique := Distinct(Detect(text));
    seq(|unique|, k requires 0 <= k < |unique| =>
      FixEntry(attempt, unique[k], unique[k] as nat, HexCode(unique[k] as nat), IndexOf(text, unique[k]), BatchContext))
  }

  /** Each sweep entry names a disallowed character of the text and the
      position of its first occurrence. */
  lemma SweepEntryFacts(text: string, attempt: nat, k: nat)
    requires k < |SweepEntries(text, attempt)|
    ensures var e := SweepEntries(text, attempt)[k];
      && IsInvalid(e.invalidChar) && e.attempt == attempt && e.charCode == e.invalidChar as int
      && 0 <= e.position < |text| && text[e.position] == e.invalidChar && e.invalidChar !in text[..e.position]
  {
    var unique := Distinct(Detect(text));
    DistinctSpec(Detect(text));
    DetectMembers(text);
    assert unique[k] in unique;
  }

  /** A sweep logs each character at most once. */
  lemma SweepEntriesDistinct(text: string, attempt: nat, k: nat, l: nat)
    requires k < l < |SweepEntries(text, attempt)|
    ensures SweepEntries(text, attempt)[k].invalidChar != SweepEntries(text, attempt)[l].invalidChar
  {
    DistinctSpec(Detect(text));
  }

  /** A sweep logs every disallowed character of the text. */
  lemma SweepEntriesCover(text: string, attempt: nat, i: nat)
    requires i < |text| && IsInvalid(text[i])
    ensures exists k :: 0 <= k < |SweepEntries(text, attempt)| && SweepEntries(text, attempt)[k].invalidChar == text[i]
  {
    var unique := Distinct(Detect(text));
    DistinctSpec(Detect(text));
    DetectMembers(text);
    assert text[i] in unique;
    var k :| 0 <= k < |unique| && unique[k] == text[i];
    assert SweepEntries(text, attempt)[k].invalidChar == text[i];
  }

  /** A sweep logs at most 32 entries. */
  lemma SweepEntriesBound(text: string, attempt: nat)
    ensures |SweepEntries(text, attempt)| <= 32
  {
    var unique := Distinct(Detect(text));
    DistinctSpec(Detect(text));
    DetectMembers(text);
    DistinctInvalidBound(unique);
  }

  /** The fix log, which the helper below appends to in place. */
  class FixLog {
    var entries: seq<FixEntry>

    constructor ()
      ensures entries == []
    {
      entries := [];
    }

    method Push(e: FixEntry)
      modifies this
      ensures entries == old(entries) + [e]
    {
      entries := entries + [e];
    }
  }

  /** Removes every disallowed character in one pass and logs each distinct
      one once; text and log are unchanged when there is none. */
  method RemoveAllInvalidCharacters(text: string, fixLog: FixLog, attempt: nat) returns (r: string)
    modifies fixLog
    ensures r == Strip(text)
    ensures fixLog.entries == old(fixLog.entries) + SweepEntries(text, attempt)
  {
    var matches := Detect(text);
    if matches == [] {
      DetectEmptyIffClean(text);
      StripChangesIffDirty(text);
      return text;
    }
    var uniqueChars := Distinct(matches);
    ghost var expected := SweepEntries(text, attempt);
    for k := 0 to |uniqueChars|
      invariant fixLog.entries == old(fixLog.entries) + expected[..k]
    {
      var c := uniqueChars[k];
      var charCode := c as nat;
      fixLog.Push(FixEntry(attempt, c, charCode, HexCode(charCode), IndexOf(text, c), BatchContext));
      assert expected[..k + 1] == expected[..k] + [expected[k]];
    }
    assert expected[..|uniqueChars|] == expected;
    r := Strip(text);
  }

  /** The text without its character at `position`. */
  function RemoveAt(s: string, position: nat): (r: string)
    requires position < |s|
    ensures |r| == |s| - 1
  {
    s[..position] + s[position + 1..]
  }

  /** Removal at a position takes away one occurrence of that character
      and nothing else. */
  lemma RemoveAtMultiset(s: string, position: nat)
    requires position < |s|
    ensures multiset(RemoveAt(s, position)) + multiset{s[position]} == multiset(s)
  {
    assert s == s[..position] + [s[position]] + s[position + 1..];
  }

  /** Removing one character keeps the others in order. */
  lemma {:induction false} RemoveAtSubsequence(s: string, position: nat)
    requires position < |s|
    ensures IsSubsequence(RemoveAt(s, position), s)
    decreases position
  {
    if position == 0 {
      SubsequenceRefl(s[1..]);
      assert RemoveAt(s, 0) == s[1..];
    } else {
      RemoveAtSubsequence(s[1..], position - 1);
      var r := RemoveAt(s, position);
      assert r[0] == s[0] && r[1..] == RemoveAt(s[1..], position - 1);
    }
  }

  /** What one failed parse leads to: the repaired text and its new log
      entries, or the reason to give up. */
  datatype StepResult = Removed(text: string, entries: seq<FixEntry>) | Stuck(failure: Failure)

  /** The single-character removal for a diagnosed character that occurs. */
  function RemoveDiagnosed(text: string, code: nat, c: char, attempt: nat): StepResult
    requires c in text
  {
    var position := FirstIndex(text, c);
    Removed(RemoveAt(text, position), [FixEntry(attempt, c, code, HexCode(code), position, Context(text, position))])
  }

  /** A sweep, and the given failure when it removes nothing. */
  function Sweep(text: string, attempt: nat, failure: Failure): StepResult {
    var swept := Strip(text);
    if |swept| == |text| then Stuck(failure) else Removed(swept, SweepEntries(text, attempt))
  }

  /** The repair made after a failed parse on attempt number `attempt`. */
  function Repair(p: Parser, text: string, attempt: nat): StepResult {
    match p.diagCharCode(text)
    case Some(code) =>
      var c := CharOfCode(code);
      if c.Some? && c.value in text then RemoveDiagnosed(text, code, c.value, attempt)
      else Sweep(text, attempt, CouldNotIdentify)
    case None => Sweep(text, attempt, CouldNotFix)
  }

  /** How the loop ends: a parse that succeeded on attempt `attempts`, the
      attempts used up, or an error thrown. */
  datatype LoopEnd = Parsed(text: string, log: seq<FixEntry>, attempts: nat) | Exhausted | Threw(failure: Failure)

  /** The repair loop from `count` attempts made, with the current text and
      log. */
  function RunLoop(p: Parser, text: string, log: seq<FixEntry>, count: nat): LoopEnd
    requires count <= MaxAttempts
    decreases MaxAttempts - count
  {
    if count == MaxAttempts then Exhausted
    else
      var attempt := count + 1;
      if p.parses(text) then Parsed(text, log, attempt)
      else
        match Repair(p, text, attempt)
        case Stuck(f) => Threw(f)
        case Removed(next, entries) =>
          if |log + entries| > MaxLogEntries then Threw(TooManyFixes)
          else RunLoop(p, next, log + entries, attempt)
  }

  /** `name.replace('.xml', '_fixed.xml')`: only the first occurrence. */
  function FixedFileName(name: string): string {
    match FindFirst(name, ".xml", 0)
    case None => name
    case Some(i) => name[..i] + "_fixed.xml" + name[i + 4..]
  }

  /** What the page shows: no file chosen, the repaired XML with its log,
      attempt count and download name, or the error. */
  datatype RepairOutcome = NoFile | Fixed(xml: string, log: seq<FixEntry>, attempts: nat, fileName: string) | Failed(failure: Failure)

  /** The outcome of the loop: a parse on the 10th attempt still counts as
      running out of attempts. */
  function Outcome(p: Parser, input: string, name: string): RepairOutcome {
    match RunLoop(p, input, [], 0)
    case Parsed(text, log, attempts) =>
      if attempts >= MaxAttempts then Failed(AttemptsExhausted)
      else Fixed(text, log, attempts, FixedFileName(name))
    case Exhausted => Failed(AttemptsExhausted)
    case Threw(f) => Failed(f)
  }

  /** One repair after a failed parse, logging into `fixLog`. */
  method RepairOnce(p: Parser, xmlText: string, fixLog: FixLog, attemptCount: nat) returns (res: StepResult)
    modifies fixLog
    ensures res == Repair(p, xmlText, attemptCount)
    ensures res.Removed? ==> fixLog.entries == old(fixLog.entries) + res.entries
    ensures res.Stuck? ==> fixLog.entries == old(fixLog.entries)
  {
    var charCodeMatch := p.diagCharCode(xmlText);
    if charCodeMatch.Some? {
      var charCode := charCodeMatch.value;
      var charToRemove := CharOfCode(charCode);
      if charToRemove.Some? && charToRemove.value in xmlText {
        var c := charToRemove.value;
        var position := FirstIndex(xmlText, c);
        var entry := FixEntry(attemptCount, c, charCode, HexCode(charCode), position, Context(xmlText, position));
        fixLog.Push(entry);
        return Removed(RemoveAt(xmlText, position), [entry]);
      }
      var beforeLength := |xmlText|;
      var swept := RemoveAllInvalidCharacters(xmlText, fixLog, attemptCount);
      if |swept| == beforeLength {
        CleanSweepLogsNothing(xmlText, attemptCount);
        return Stuck(CouldNotIdentify);
      }
      return Removed(swept, SweepEntries(xmlText, attemptCount));
    }
    var beforeLength := |xmlText|;
    var swept := RemoveAllInvalidCharacters(xmlText, fixLog, attemptCount);
    if |swept| == beforeLength {
      CleanSweepLogsNothing(xmlText, attemptCount);
      return Stuck(CouldNotFix);
    }
    res := Removed(swept, SweepEntries(xmlText, attemptCount));
  }

  /** A sweep that removes nothing logs nothing. */
  lemma CleanSweepLogsNothing(text: string, attempt: nat)
    requires |Strip(text)| == |text|
    ensures SweepEntries(text, attempt) == []
  {
    StripChangesIffDirty(text);
    DetectEmptyIffClean(text);
  }

  /** The parse-and-repair loop: a break on a successful parse, an error
      thrown by a step, or the attempts used up. */
  method RepairLoop(p: Parser, input: string) returns (end: LoopEnd)
    ensures end == RunLoop(p, input, [], 0)
  {
    var xmlText := input;
    var fixLog := new FixLog();
    var attemptCount := 0;
    while attemptCount < MaxAttempts
      invariant attemptCount <= MaxAttempts
      invariant RunLoop(p, xmlText, fixLog.entries, attemptCount) == RunLoop(p, input, [], 0)
      decreases MaxAttempts - attemptCount
    {
      attemptCount := attemptCount + 1;
      if p.parses(xmlText) {
        return Parsed(xmlText, fixLog.entries, attemptCount);
      }
      var res := RepairOnce(p, xmlText, fixLog, attemptCount);
      if res.Stuck? {
        return Threw(res.failure);
      }
      xmlText := res.text;
      if |fixLog.entries| > MaxLogEntries {
        return Threw(TooManyFixes);
      }
    }
    end := Exhausted;
  }

  /** The click handler of the fixer page, up to the result display: a
      parse on the last attempt still falls through to the attempts check. */
  method HandleXmlFixer(hasFile: bool, p: Parser, input: string, name: string) returns (r: RepairOutcome)
    ensures r == (if hasFile then Outcome(p, input, name) else NoFile)
  {
    if !hasFile {
      return NoFile;
    }
    var originalFileName := FixedFileName(name);
    var end := RepairLoop(p, input);
    match end
    case Threw(f) => r := Failed(f);
    case Exhausted => r := Failed(AttemptsExhausted);
    case Parsed(lastValidXml, fixLog, attemptCount) =>
      if attemptCount >= MaxAttempts {
        r := Failed(AttemptsExhausted);
      } else {
        r := Fixed(lastValidXml, fixLog, attemptCount, originalFileName);
      }
  }

  /** Removing one character of a clean text leaves it clean. */
  lemma RemoveAtKeepsClean(s: string, position: nat)
    requires position < |s| && Clean(s)
    ensures Clean(RemoveAt(s, position))
  {
    var r := RemoveAt(s, position);
    forall i | 0 <= i < |r| ensures !IsInvalid(r[i]) {
      if i < position { assert r[i] == s[i]; } else { assert r[i] == s[i + 1]; }
    }
  }

  /** A diagnosed character that occurs is removed at its first occurrence
      only, with one log entry that records that position. */
  lemma RemoveDiagnosedExact(p: Parser, text: string, attempt: nat, code: nat, c: char)
    requires p.diagCharCode(text) == Some(code) && CharOfCode(code) == Some(c) && c in text
    ensures Repair(p, text, attempt).Removed?
    ensures var r := Repair(p, text, attempt);
      exists pos :: 0 <= pos < |text| && text[pos] == c && c !in text[..pos]
        && r.text == text[..pos] + text[pos + 1..]
        && |r.entries| == 1 && r.entries[0].position == pos
        && r.entries[0].invalidChar == c && r.entries[0].charCode == code && r.entries[0].attempt == attempt
  {
    var pos := FirstIndex(text, c);
    assert Repair(p, text, attempt) == RemoveDiagnosed(text, code, c, attempt);
  }

  /** Without a usable diagnosis the step is a sweep: it gives up exactly
      when the text holds no disallowed character, and otherwise leaves a
      clean text and logs the sweep. */
  lemma SweepStep(p: Parser, text: string, attempt: nat)
    requires match p.diagCharCode(text)
      case Some(code) => CharOfCode(code).None? || CharOfCode(code).value !in text
      case None => true
    ensures Repair(p, text, attempt).Stuck? <==> Clean(text)
    ensures Repair(p, text, attempt).Stuck? ==>
      Repair(p, text, attempt).failure == (if p.diagCharCode(text).Some? then CouldNotIdentify else CouldNotFix)
    ensures Repair(p, text, attempt).Removed? ==>
      Repair(p, text, attempt).text == Strip(text) && Clean(Repair(p, text, attempt).text)
      && Repair(p, text, attempt).entries == SweepEntries(text, attempt)
  {
    StripChangesIffDirty(text);
    StripIsClean(text);
  }

  /** Every step that does not give up makes the text strictly shorter and
      only removes characters, keeping the rest in order. */
  lemma RepairShrinks(p: Parser, text: string, attempt: nat)
    ensures Repair(p, text, attempt).Removed? ==>
      |Repair(p, text, attempt).text| < |text|
      && multiset(Repair(p, text, attempt).text) <= multiset(text)
      && IsSubsequence(Repair(p, text, attempt).text, text)
      && Repair(p, text, attempt).entries != []
  {
    match p.diagCharCode(text)
    case Some(code) =>
      var c := CharOfCode(code);
      if c.Some? && c.value in text {
        RemoveDiagnosedShrinks(text, code, c.value, attempt);
      } else {
        SweepShrinks(text, attempt, CouldNotIdentify);
      }
    case None =>
      SweepShrinks(text, attempt, CouldNotFix);
  }

  /** A single removal takes away exactly one occurrence of the diagnosed
      character and logs one entry naming it. */
  lemma RemoveDiagnosedShrinks(text: string, code: nat, c: char, attempt: nat)
    requires c in text
    ensures var r := RemoveDiagnosed(text, code, c, attempt);
      && r.Removed? && |r.text| == |text| - 1
      && multiset(r.text) + multiset{c} == multiset(text)
      && IsSubsequence(r.text, text)
      && |r.entries| == 1 && r.entries[0].invalidChar == c
  {
    RemoveAtMultiset(text, FirstIndex(text, c));
    RemoveAtSubsequence(text, FirstIndex(text, c));
  }

  /** A sweep that does not give up removed at least one character and
      logged it. */
  lemma SweepShrinks(text: string, attempt: nat, failure: Failure)
    ensures var r := Sweep(text, attempt, failure);
      r.Removed? ==>
        && |r.text| < |text| && multiset(r.text) <= multiset(text)
        && IsSubsequence(r.text, text) && r.entries != []
  {
    StripSubsequence(text);
    DetectStripPartition(text);
    StripChangesIffDirty(text);
    if Sweep(text, attempt, failure).Removed? {
      DetectEmptyIffClean(text);
      DistinctSpec(Detect(text));
      assert Detect(text)[0] in Distinct(Detect(text));
    }
  }

  /** 32 when the text holds a disallowed character, else 0: what a later
      sweep may still add to the log. */
  function Dirt(text: string): nat {
    if Clean(text) then 0 else 32
  }

  /** A step adds at most one entry beyond what it takes from the text's
      remaining dirt. */
  lemma RepairLogGrowth(p: Parser, text: string, attempt: nat)
    ensures Repair(p, text, attempt).Removed? ==>
      |Repair(p, text, attempt).entries| + Dirt(Repair(p, text, attempt).text) <= 1 + Dirt(text)
  {
    var r := Repair(p, text, attempt);
    if r.Removed? {
      match p.diagCharCode(text)
      case Some(code) =>
        var c := CharOfCode(code);
        if c.Some? && c.value in text {
          if Clean(text) {
            RemoveAtKeepsClean(text, FirstIndex(text, c.value));
          }
        } else {
          SweepBound(text, attempt);
        }
      case None =>
        SweepBound(text, attempt);
    }
  }

  lemma SweepBound(text: string, attempt: nat)
    ensures Sweep(text, attempt, CouldNotFix).Removed? ==> Dirt(Strip(text)) == 0 && Dirt(text) == 32
    ensures |SweepEntries(text, attempt)| <= 32
  {
    StripIsClean(text);
    StripChangesIffDirty(text);
    SweepEntriesBound(text, attempt);
  }

  /** A failed parse followed by a removal within the log limit moves to
      the next attempt. */
  lemma LoopStep(p: Parser, text: string, log: seq<FixEntry>, count: nat)
    requires count < MaxAttempts && !p.parses(text)
    requires Repair(p, text, count + 1).Removed?
    requires |log + Repair(p, text, count + 1).entries| <= MaxLogEntries
    ensures RunLoop(p, text, log, count)
      == RunLoop(p, Repair(p, text, count + 1).text, log + Repair(p, text, count + 1).entries, count + 1)
  {
  }

  /** A failed parse followed by a step that gives up ends the loop with
      that failure. */
  lemma LoopStuck(p: Parser, text: string, log: seq<FixEntry>, count: nat)
    requires count < MaxAttempts && !p.parses(text)
    requires Repair(p, text, count + 1).Stuck?
    ensures RunLoop(p, text, log, count) == Threw(Repair(p, text, count + 1).failure)
  {
  }

  /** What the loop guarantees from any state whose log is within the dirt
      budget: a successful parse is of a text that parses, reached by
      removals only, on a later attempt no beyond the 10th; the log never
      passes 100 entries. */
  lemma {:induction false} LoopFacts(p: Parser, text: string, log: seq<FixEntry>, count: nat)
    requires count <= MaxAttempts
    requires |log| + Dirt(text) <= count + 32
    ensures var e := RunLoop(p, text, log, count);
      && (e.Parsed? ==> p.parses(e.text) && count < e.attempts <= MaxAttempts)
      && (e.Parsed? ==> multiset(e.text) <= multiset(text) && IsSubsequence(e.text, text))
      && e != Threw(TooManyFixes)
    decreases MaxAttempts - count
  {
    var e := RunLoop(p, text, log, count);
    if count == MaxAttempts {
      assert e == Exhausted;
    } else if p.parses(text) {
      assert e == Parsed(text, log, count + 1);
      SubsequenceRefl(text);
    } else {
      var attempt := count + 1;
      var r := Repair(p, text, attempt);
      if r.Removed? {
        RepairShrinks(p, text, attempt);
        RepairLogGrowth(p, text, attempt);
        var log' := log + r.entries;
        assert |log'| + Dirt(r.text) <= attempt + 32;
        LoopStep(p, text, log, count);
        LoopFacts(p, r.text, log', attempt);
        var e' := RunLoop(p, r.text, log', attempt);
        assert e == e';
        if e'.Parsed? {
          assert multiset(e'.text) <= multiset(r.text) <= multiset(text);
          SubsequenceTrans(e'.text, r.text, text);
        }
      } else {
        LoopStuck(p, text, log, count);
      }
    }
  }

  /** Fail-closed: a reported fix is a text that parses, obtained from the
      input by removing characters, on one of the first nine attempts. */
  lemma FixedParses(p: Parser, input: string, name: string)
    ensures var o := Outcome(p, input, name);
      o.Fixed? ==>
        && p.parses(o.xml) && 1 <= o.attempts < MaxAttempts
        && multiset(o.xml) <= multiset(input) && IsSubsequence(o.xml, input)
        && o.fileName == FixedFileName(name)
  {
    LoopFacts(p, input, [], 0);
  }

  /** The "too many fixes" failure cannot happen: there are at most ten
      repair steps, each single removal logs one entry, and only one sweep
      can log anything (at most 32 entries), since it leaves a clean text. */
  lemma NeverTooManyFixes(p: Parser, input: string, name: string)
    ensures Outcome(p, input, name) != Failed(TooManyFixes)
  {
    LoopFacts(p, input, [], 0);
  }

  /** Input that parses is returned as it is, on the first attempt, with an
      empty log. */
  lemma ParsingInputUnchanged(p: Parser, input: string, name: string)
    requires p.parses(input)
    ensures Outcome(p, input, name) == Fixed(input, [], 1, FixedFileName(name))
  {
  }

  /** The control character 0x01. */
  const Soh: char := 1 as char

  /** `k` copies of the control character 0x01. */
  function Controls(k: nat): (r: string)
    ensures |r| == k && forall i :: 0 <= i < k ==> r[i] == Soh
  {
    if k == 0 then [] else [Soh] + Controls(k - 1)
  }

  /** A parser that accepts only the empty text and always names 0x01. */
  function EmptyOnly(): Parser {
    Parser((s: string) => s == [], (s: string) => Some(1))
  }

  /** With `k` control characters left and `count + k` attempts below 10, the
      loop removes one per attempt and parses on attempt `count + k + 1`. */
  lemma {:induction false} ControlsParseLate(k: nat, log: seq<FixEntry>, count: nat)
    requires count + k < MaxAttempts
    requires |log| + k <= MaxLogEntries
    ensures RunLoop(EmptyOnly(), Controls(k), log, count).Parsed?
    ensures RunLoop(EmptyOnly(), Controls(k), log, count).attempts == count + k + 1
    decreases k
  {
    if k > 0 {
      var p := EmptyOnly();
      var text := Controls(k);
      assert !p.parses(text);
      assert CharOfCode(1) == Some(Soh);
      assert text[0] == Soh;
      assert FirstIndex(text, Soh) == 0;
      var r := Repair(p, text, count + 1);
      assert r == RemoveDiagnosed(text, 1, Soh, count + 1);
      assert r.text == Controls(k - 1);
      ControlsParseLate(k - 1, log + r.entries, count + 1);
    }
  }

  /** A parse that succeeds on the 10th attempt is still reported as running
      out of attempts: nine control characters, each removed on its own
      attempt, leave a text that parses on attempt 10. */
  lemma TenthAttemptReportedAsFailure(name: string)
    ensures RunLoop(EmptyOnly(), Controls(9), [], 0).Parsed?
    ensures RunLoop(EmptyOnly(), Controls(9), [], 0).attempts == MaxAttempts
    ensures EmptyOnly().parses(RunLoop(EmptyOnly(), Controls(9), [], 0).text)
    ensures Outcome(EmptyOnly(), Controls(9), name) == Failed(AttemptsExhausted)
  {
    ControlsParseLate(9, [], 0);
    LoopFacts(EmptyOnly(), Controls(9), [], 0);
  }

  /** The download name is unchanged exactly when it holds no ".xml". */
  lemma FixedNameUnchanged(name: string)
    ensures FixedFileName(name) == name <==> !Contains(name, ".xml")
  {
    match FindFirst(name, ".xml", 0)
    case None =>
    case Some(i) =>
      assert |FixedFileName(name)| == |name| + 6;
  }

  /** Two occurrences of ".xml" never overlap. */
  lemma XmlNoSelfOverlap(s: string, i: nat, j: nat)
    requires OccursAt(s, ".xml", i) && OccursAt(s, ".xml", j) && i < j
    ensures i + 4 <= j
  {
    XmlLetters(s, i);
    XmlLetters(s, j);
  }

  lemma XmlLetters(s: string, i: nat)
    requires OccursAt(s, ".xml", i)
    ensures s[i] == '.' && s[i + 1] == 'x' && s[i + 2] == 'm' && s[i + 3] == 'l'
  {
    assert s[i..i + 4] == ".xml";
    assert s[i..i + 4][0] == s[i] && s[i..i + 4][1] == s[i + 1];
    assert s[i..i + 4][2] == s[i + 2] && s[i..i + 4][3] == s[i + 3];
  }

  /** A name ending in its only ".xml" gets "_fixed.xml" in its place. */
  lemma FixedNameOfXml(base: string)
    requires !Contains(base, ".xml")
    ensures FixedFileName(base + ".xml") == base + "_fixed.xml"
  {
    var name := base + ".xml";
    assert OccursAt(name, ".xml", |base|);
    match FindFirst(name, ".xml", 0)
    case None =>
    case Some(i) =>
      if i < |base| {
        XmlNoSelfOverlap(name, i, |base|);
        assert name[i..i + 4] == base[i..i + 4];
        assert OccursAt(base, ".xml", i);
      }
      assert i == |base|;
      assert name[..i] == base;
  }
}
