/**
 * The control characters that Excel refuses, as the XML pages test for them
 * with the pattern `/[\x00-\x08\x0B\x0C\x0E-\x1F]/g`: finding them
 * (`str.match`), removing them (`str.replace(pattern, '')`), keeping the
 * distinct ones (`[...new Set(matches)]`) and naming a character code in
 * upper-case hexadecimal (`code.toString(16).toUpperCase()`, optionally
 * padded to two digits).
 */
module InvalidChars {
  import opened Text

  /** A character of the disallowed set: 0x00-0x08, 0x0B, 0x0C, 0x0E-0x1F. */
  predicate IsInvalid(c: char) {
    var n := c as int;
    (0 <= n <= 8) || n == 0x0B || n == 0x0C || (0x0E <= n <= 0x1F)
  }

  /** No character of `s` is disallowed. */
  predicate Clean(s: string) {
    forall i :: 0 <= i < |s| ==> !IsInvalid(s[i])
  }

  /** `str.match(pattern) || []`: every disallowed character, in order. */
  function Detect(s: string): (r: string)
    ensures |r| <= |s|
    ensures forall i :: 0 <= i < |r| ==> IsInvalid(r[i])
  {
    if s == [] then []
    else (if IsInvalid(s[0]) then [s[0]] else []) + Detect(s[1..])
  }

  /** `str.replace(pattern, '')`: every other character, in order. */
  function Strip(s: string): (r: string)
    ensures |r| <= |s|
  {
    if s == [] then []
    else (if IsInvalid(s[0]) then [] else [s[0]]) + Strip(s[1..])
  }

  /** The sweep only deletes characters: what is left keeps its order. */
  lemma {:induction false} StripSubsequence(s: string)
    ensures IsSubsequence(Strip(s), s)
  {
    if s != [] {
      StripSubsequence(s[1..]);
      var r := Strip(s);
      if IsInvalid(s[0]) {
        assert r == Strip(s[1..]);
      } else {
        assert r[0] == s[0] && r[1..] == Strip(s[1..]);
      }
    }
  }

  /** Detection distributes over concatenation, so it reports occurrences in
      text order. */
  lemma {:induction false} DetectAppend(a: string, b: string)
    ensures Detect(a + b) == Detect(a) + Detect(b)
  {
    if a != [] {
      assert (a + b)[1..] == a[1..] + b;
      DetectAppend(a[1..], b);
    } else {
      assert a + b == b;
    }
  }

  /** Removal distributes over concatenation, so the kept characters stay in
      order. */
  lemma {:induction false} StripAppend(a: string, b: string)
    ensures Strip(a + b) == Strip(a) + Strip(b)
  {
    if a != [] {
      assert (a + b)[1..] == a[1..] + b;
      StripAppend(a[1..], b);
    } else {
      assert a + b == b;
    }
  }

  /** Detection finds nothing exactly when the text is clean. */
  lemma {:induction false} DetectEmptyIffClean(s: string)
    ensures Detect(s) == [] <==> Clean(s)
  {
    if s != [] {
      DetectEmptyIffClean(s[1..]);
      if Clean(s[1..]) && !IsInvalid(s[0]) {
        forall i | 0 <= i < |s| ensures !IsInvalid(s[i]) {
          if i > 0 { assert s[i] == s[1..][i - 1]; }
        }
      }
      if Clean(s) {
        forall i | 0 <= i < |s[1..]| ensures !IsInvalid(s[1..][i]) {
          assert s[1..][i] == s[i + 1];
        }
      }
    }
  }

  /** The detected and the kept characters split the text: every
      occurrence is in exactly one of them. */
  lemma {:induction false} DetectStripPartition(s: string)
    ensures multiset(Detect(s)) + multiset(Strip(s)) == multiset(s)
  {
    if s != [] {
      DetectStripPartition(s[1..]);
      var detected: string := if IsInvalid(s[0]) then [s[0]] else [];
      var kept: string := if IsInvalid(s[0]) then [] else [s[0]];
      assert Detect(s) == detected + Detect(s[1..]);
      assert Strip(s) == kept + Strip(s[1..]);
      assert multiset(detected) + multiset(kept) == multiset{s[0]};
      HeadTailMultiset(s);
    }
  }

  /** A text's characters are its first one and the rest. */
  lemma HeadTailMultiset(s: string)
    requires s != []
    ensures multiset(s) == multiset{s[0]} + multiset(s[1..])
  {
    assert s == [s[0]] + s[1..];
  }

  /** Every disallowed occurrence is detected and none survives removal;
      every other character survives and none is detected. */
  lemma DetectCounts(s: string, c: char)
    ensures IsInvalid(c) ==> multiset(Detect(s))[c] == multiset(s)[c] && multiset(Strip(s))[c] == 0
    ensures !IsInvalid(c) ==> multiset(Strip(s))[c] == multiset(s)[c] && multiset(Detect(s))[c] == 0
  {
    DetectStripPartition(s);
    StripIsClean(s);
    if IsInvalid(c) {
      assert c !in Strip(s);
    } else {
      assert c !in Detect(s);
    }
  }

  /** Nothing disallowed survives removal. */
  lemma {:induction false} StripIsClean(s: string)
    ensures Clean(Strip(s))
  {
    if s != [] {
      StripIsClean(s[1..]);
      if !IsInvalid(s[0]) {
        CleanCons(s[0], Strip(s[1..]));
      }
    }
  }

  /** An allowed character in front of a clean text keeps it clean. */
  lemma CleanCons(c: char, t: string)
    requires !IsInvalid(c) && Clean(t)
    ensures Clean([c] + t)
  {
    forall i | 0 <= i < |[c] + t| ensures !IsInvalid(([c] + t)[i]) {
      if i > 0 { assert ([c] + t)[i] == t[i - 1]; }
    }
  }

  /** A character is detected exactly when it is disallowed and occurs in
      the text. */
  lemma DetectMembers(s: string)
    ensures forall c :: c in Detect(s) <==> IsInvalid(c) && c in s
  {
    forall c ensures c in Detect(s) <==> IsInvalid(c) && c in s {
      DetectCounts(s, c);
      assert c in Detect(s) <==> c in multiset(Detect(s));
      assert c in s <==> c in multiset(s);
    }
  }

  /** Removal changes a text exactly when it holds a disallowed character. */
  lemma {:induction false} StripChangesIffDirty(s: string)
    ensures Strip(s) == s <==> Clean(s)
    ensures |Strip(s)| == |s| <==> Clean(s)
  {
    if s != [] {
      StripChangesIffDirty(s[1..]);
      if Clean(s) {
        assert Clean(s[1..]) by {
          forall i | 0 <= i < |s[1..]| ensures !IsInvalid(s[1..][i]) {
            assert s[1..][i] == s[i + 1];
          }
        }
      } else if !IsInvalid(s[0]) {
        assert !Clean(s[1..]) by {
          var i :| 0 <= i < |s| && IsInvalid(s[i]);
          assert s[1..][i - 1] == s[i];
        }
      }
    }
  }

  /** The distinct elements of `xs`, each at its first occurrence
      (`[...new Set(xs)]`). */
  function Distinct(xs: seq<char>): (r: seq<char>)
    ensures |r| <= |xs|
  {
    if xs == [] then []
    else
      var d := Distinct(xs[..|xs| - 1]);
      if xs[|xs| - 1] in d then d else d + [xs[|xs| - 1]]
  }

  predicate NoDuplicates(xs: seq<char>) {
    forall i, j :: 0 <= i < j < |xs| ==> xs[i] != xs[j]
  }

  /** The distinct elements are those of `xs`, each once. */
  lemma {:induction false} DistinctSpec(xs: seq<char>)
    ensures NoDuplicates(Distinct(xs))
    ensures forall x :: x in Distinct(xs) <==> x in xs
  {
    if xs != [] {
      var init := xs[..|xs| - 1];
      DistinctSpec(init);
      assert xs == init + [xs[|xs| - 1]];
    }
  }

  /** The distinct elements keep the order of first occurrence: a value
      comes before another exactly when its first occurrence does. */
  lemma {:induction false} DistinctFirstOrder(xs: seq<char>, i: nat, j: nat)
    requires i < j < |Distinct(xs)|
    ensures exists p, q ::
      && 0 <= p < q < |xs|
      && xs[p] == Distinct(xs)[i] && Distinct(xs)[i] !in xs[..p]
      && xs[q] == Distinct(xs)[j] && Distinct(xs)[j] !in xs[..q]
  {
    var init := xs[..|xs| - 1];
    var d := Distinct(init);
    DistinctSpec(init);
    if j < |d| {
      DistinctFirstOrder(init, i, j);
      var p, q :| 0 <= p < q < |init| && init[p] == d[i] && init[q] == d[j] && d[i] !in init[..p] && d[j] !in init[..q];
      assert init[..p] == xs[..p] && init[..q] == xs[..q];
    } else {
      var last := |xs| - 1;
      assert Distinct(xs)[j] == xs[last] && xs[last] !in d;
      assert xs[last] !in init;
      assert xs[..last] == init;
      var p := FirstIndex(init, d[i]);
      assert init[..p] == xs[..p];
    }
  }

  /** A list of distinct disallowed characters has at most 32 elements, as
      all of them have codes below 32. */
  lemma DistinctInvalidBound(xs: seq<char>)
    requires NoDuplicates(xs)
    requires forall i :: 0 <= i < |xs| ==> IsInvalid(xs[i])
    ensures |xs| <= 32
  {
    CharsCard(xs);
    var chars := CharsOf(xs);
    var range := CharsBelow(32);
    RangeCard(32);
    assert chars <= range;
    assert range == chars + (range - chars);
  }

  /** The set of the elements of `xs`. */
  function CharsOf(xs: seq<char>): (r: set<char>)
    ensures forall c :: c in r <==> c in xs
  {
    if xs == [] then {}
    else
      assert xs == xs[..|xs| - 1] + [xs[|xs| - 1]];
      CharsOf(xs[..|xs| - 1]) + {xs[|xs| - 1]}
  }

  /** A list without duplicates has as many elements as its set. */
  lemma {:induction false} CharsCard(xs: seq<char>)
    requires NoDuplicates(xs)
    ensures |CharsOf(xs)| == |xs|
  {
    if xs != [] {
      var init := xs[..|xs| - 1];
      assert NoDuplicates(init) by {
        forall i, j | 0 <= i < j < |init| ensures init[i] != init[j] {
          assert init[i] == xs[i] && init[j] == xs[j];
        }
      }
      CharsCard(init);
      assert xs[|xs| - 1] !in init by {
        forall i | 0 <= i < |init| ensures init[i] != xs[|xs| - 1] {
          assert init[i] == xs[i];
        }
      }
    }
  }

  /** The characters with codes from 0 to `b - 1`. */
  function CharsBelow(b: nat): (r: set<char>)
    requires b <= 0xD800
    ensures forall c :: c in r <==> c as int < b
  {
    if b == 0 then {} else CharsBelow(b - 1) + {(b - 1) as char}
  }

  lemma {:induction false} RangeCard(b: nat)
    requires b <= 0xD800
    ensures |CharsBelow(b)| == b
  {
    if b > 0 {
      RangeCard(b - 1);
      assert (b - 1) as char !in CharsBelow(b - 1);
    }
  }

  /** A digit value as an upper-case hexadecimal character. */
  function HexChar(d: nat): (c: char)
    requires d < 16
  {
    "0123456789ABCDEF"[d]
  }

  /** The value of an upper-case hexadecimal digit, or 0 for anything else. */
  function DigitValue(c: char): nat {
    if '0' <= c <= '9' then c as int - '0' as int
    else if 'A' <= c <= 'F' then c as int - 'A' as int + 10
    else 0
  }

  /** `n.toString(16).toUpperCase()`. */
  function HexDigits(n: nat): (r: string)
    ensures r != []
    decreases n
  {
    if n < 16 then [HexChar(n)] else HexDigits(n / 16) + [HexChar(n % 16)]
  }

  /** The value of a string of hexadecimal digits. */
  function HexValue(s: string): nat {
    if s == [] then 0 else HexValue(s[..|s| - 1]) * 16 + DigitValue(s[|s| - 1])
  }

  lemma HexCharValue(d: nat)
    requires d < 16
    ensures DigitValue(HexChar(d)) == d
  {
  }

  /** Reading back the hexadecimal form of `n` gives `n`. */
  lemma {:induction false} HexRoundTrip(n: nat)
    ensures HexValue(HexDigits(n)) == n
    decreases n
  {
    if n < 16 {
      HexCharValue(n);
      assert [HexChar(n)][..0] == [];
    } else {
      var s := HexDigits(n);
      HexRoundTrip(n / 16);
      HexCharValue(n % 16);
      assert s[..|s| - 1] == HexDigits(n / 16);
    }
  }

  /** The hexadecimal form uses only upper-case digits and has no leading
      zero (unless it is "0"). */
  lemma {:induction false} HexDigitsShape(n: nat)
    ensures forall i :: 0 <= i < |HexDigits(n)| ==> HexDigits(n)[i] in "0123456789ABCDEF"
    ensures n > 0 ==> HexDigits(n)[0] != '0'
    ensures n < 256 ==> |HexDigits(n)| <= 2
    decreases n
  {
    if n >= 16 {
      HexDigitsShape(n / 16);
      assert HexDigits(n)[0] == HexDigits(n / 16)[0];
    }
  }

  /** `s.padStart(2, '0')`. */
  function PadTwo(s: string): (r: string)
    ensures |s| < 2 ==> |r| == 2
    ensures |s| >= 2 ==> r == s
    decreases 2 - |s|
  {
    if |s| >= 2 then s else PadTwo(['0'] + s)
  }

  /** Padding puts only zeros in front of the text. */
  lemma {:induction false} PadTwoShape(s: string)
    ensures var r := PadTwo(s);
      |r| >= |s| && r[|r| - |s|..] == s && forall i :: 0 <= i < |r| - |s| ==> r[i] == '0'
    decreases 2 - |s|
  {
    if |s| < 2 {
      PadTwoShape(['0'] + s);
      var r := PadTwo(s);
      assert r[|r| - |s|..] == (['0'] + s)[1..];
    }
  }

  /** The report label of a disallowed character: `0x` and two upper-case
      hexadecimal digits. */
  function Label(c: char): string {
    "0x" + PadTwo(HexDigits(c as int))
  }

  /** A leading zero does not change a hexadecimal value. */
  lemma {:induction false} LeadingZero(s: string)
    ensures HexValue(['0'] + s) == HexValue(s)
  {
    if s != [] {
      var t := ['0'] + s;
      assert t[..|t| - 1] == ['0'] + s[..|s| - 1];
      LeadingZero(s[..|s| - 1]);
    } else {
      assert (['0'] + s)[..0] == [];
    }
  }

  /** Padding keeps the value. */
  lemma {:induction false} PadTwoValue(s: string)
    ensures HexValue(PadTwo(s)) == HexValue(s)
    decreases 2 - |s|
  {
    if |s| < 2 {
      LeadingZero(s);
      PadTwoValue(['0'] + s);
    }
  }

  /** Every label of a disallowed character is four characters long, starts
      with "0x" and reads back as the character's code. */
  lemma LabelShape(c: char)
    requires IsInvalid(c)
    ensures |Label(c)| == 4 && Label(c)[..2] == "0x"
    ensures forall i :: 2 <= i < 4 ==> Label(c)[i] in "0123456789ABCDEF"
    ensures HexValue(Label(c)[2..]) == c as int
  {
    var digits := HexDigits(c as int);
    HexDigitsShape(c as int);
    HexRoundTrip(c as int);
    PadTwoValue(digits);
    PadTwoShape(digits);
    var padded := PadTwo(digits);
    assert Label(c)[2..] == padded;
    forall i | 0 <= i < |padded| ensures padded[i] in "0123456789ABCDEF" {
      if i >= |padded| - |digits| {
        assert padded[i] == padded[|padded| - |digits|..][i - (|padded| - |digits|)];
      }
    }
  }

  /** The labels of a list of characters, in order. */
  function Labels(cs: string): (r: seq<string>)
    ensures |r| == |cs|
    ensures forall i :: 0 <= i < |cs| ==> r[i] == Label(cs[i])
  {
    if cs == [] then [] else [Label(cs[0])] + Labels(cs[1..])
  }
}
