/**
 * String helpers shared by every page handler: JavaScript's whitespace class,
 * the whitespace-run normaliser, `trim`, `split`/`join` on one character,
 * the list of non-blank input lines, ASCII lower-casing and searching.
 * Strings are sequences of Unicode scalar values.
 */
module Text {
  import opened Wrappers

  /** JavaScript's `\s` class: WhiteSpace and LineTerminator. `trim` strips
      exactly these characters. */
  predicate IsSpace(c: char) {
    var n := c as int;
    (9 <= n <= 13) || n == 0x20 || n == 0xA0 || n == 0x1680
    || (0x2000 <= n <= 0x200A) || n == 0x2028 || n == 0x2029
    || n == 0x202F || n == 0x205F || n == 0x3000 || n == 0xFEFF
  }

  predicate AllSpace(s: string) {
    forall i :: 0 <= i < |s| ==> IsSpace(s[i])
  }

  /** Drops the leading whitespace of `s` (JavaScript's `trimStart`). */
  function DropSpaces(s: string): (r: string)
    ensures |r| <= |s| && r == s[|s| - |r|..]
    ensures AllSpace(s[..|s| - |r|])
    ensures r == [] || !IsSpace(r[0])
  {
    if s != [] && IsSpace(s[0]) then
      var r := DropSpaces(s[1..]);
      DropSpacesStep(s, r);
      r
    else s
  }

  /** What DropSpaces promises of the tail carries over to the whole string
      when the head is whitespace. */
  lemma DropSpacesStep(s: string, r: string)
    requires s != [] && IsSpace(s[0])
    requires |r| <= |s[1..]| && r == s[1..][|s[1..]| - |r|..]
    requires AllSpace(s[1..][..|s[1..]| - |r|])
    ensures r == s[|s| - |r|..] && AllSpace(s[..|s| - |r|])
  {
    var k := |s| - |r|;
    forall i | 0 <= i < k ensures IsSpace(s[..k][i]) {
      if i > 0 {
        assert s[..k][i] == s[1..][..k - 1][i - 1];
      }
    }
  }

  /** Leading whitespace in front of a string that starts with a non-space is
      exactly what DropSpaces removes. */
  lemma {:induction false} DropSpacesPrefix(a: string, b: string)
    requires AllSpace(a)
    requires b == [] || !IsSpace(b[0])
    ensures DropSpaces(a + b) == b
  {
    if a != [] {
      assert (a + b)[1..] == a[1..] + b;
      DropSpacesPrefix(a[1..], b);
    }
  }

  /** Drops the trailing whitespace of `s` (JavaScript's `trimEnd`). */
  function DropTrailingSpaces(s: string): (r: string)
    ensures |r| <= |s| && r == s[..|r|]
    ensures AllSpace(s[|r|..])
    ensures r == [] || !IsSpace(r[|r| - 1])
  {
    if s != [] && IsSpace(s[|s| - 1]) then
      var t := s[..|s| - 1];
      var r := DropTrailingSpaces(t);
      AllSpaceSnoc(s, |r|);
      r
    else s
  }

  /** A whitespace run followed by one more whitespace character. */
  lemma AllSpaceSnoc(s: string, k: nat)
    requires k < |s| && IsSpace(s[|s| - 1])
    requires AllSpace(s[..|s| - 1][k..])
    ensures AllSpace(s[k..])
  {
    forall i | 0 <= i < |s[k..]| ensures IsSpace(s[k..][i]) {
      if i < |s[k..]| - 1 {
        assert s[k..][i] == s[..|s| - 1][k..][i];
      }
    }
  }

  /** JavaScript's `String.prototype.trim`. */
  function Trim(s: string): (r: string)
    ensures r == [] <==> AllSpace(s)
    ensures r != [] ==> !IsSpace(r[0]) && !IsSpace(r[|r| - 1])
  {
    var t := DropSpaces(s);
    var r := DropTrailingSpaces(t);
    assert r == [] ==> t == [] && s[..|s| - |t|] == s;
    r
  }

  /** The trimmed string is the middle of `s`: only whitespace lies before
      and after it. */
  lemma TrimDecompose(s: string) returns (a: nat, b: nat)
    ensures a <= b <= |s| && Trim(s) == s[a..b]
    ensures AllSpace(s[..a]) && AllSpace(s[b..])
  {
    var t := DropSpaces(s);
    var r := DropTrailingSpaces(t);
    a := |s| - |t|;
    b := a + |r|;
    SuffixSlices(s, a, |r|);
  }

  /** Trimming a non-blank string padded with whitespace on both sides
      gives that string back. */
  lemma TrimPadded(a: string, t: string, b: string)
    requires AllSpace(a) && AllSpace(b) && Trimmed(t)
    ensures Trim(a + t + b) == t
  {
    var s := a + t + b;
    assert s == a + (t + b);
    DropSpacesPrefix(a, t + b);
    assert DropSpaces(s) == t + b;
    DropTrailingSuffix(t, b);
    assert Trim(s) == DropTrailingSpaces(DropSpaces(s));
  }

  /** Trailing whitespace after a string that ends with a non-space is
      exactly what DropTrailingSpaces removes. */
  lemma {:induction false} DropTrailingSuffix(t: string, b: string)
    requires AllSpace(b)
    requires t == [] || !IsSpace(t[|t| - 1])
    ensures DropTrailingSpaces(t + b) == t
  {
    if b == [] {
      assert t + b == t;
    } else {
      var u := t + b;
      assert u[..|u| - 1] == t + b[..|b| - 1];
      assert IsSpace(b[|b| - 1]);
      DropTrailingSuffix(t, b[..|b| - 1]);
    }
  }

  /** Slicing a suffix is slicing the whole. */
  lemma SuffixSlices(s: string, a: nat, n: nat)
    requires a + n <= |s|
    ensures s[a..][..n] == s[a..a + n] && s[a..][n..] == s[a + n..]
  {
  }

  /** The non-space characters of `s`, in order. */
  function NonSpaces(s: string): (r: string)
  {
    if s == [] then [] else (if IsSpace(s[0]) then [] else [s[0]]) + NonSpaces(s[1..])
  }

  /** The non-space characters of a string with one more character in
      front. */
  lemma NonSpacesCons(c: char, t: string)
    ensures NonSpaces([c] + t) == (if IsSpace(c) then [] else [c]) + NonSpaces(t)
  {
    assert ([c] + t)[1..] == t;
  }

  /** Dropping leading whitespace keeps every non-space character. */
  lemma {:induction false} NonSpacesDropSpaces(t: string)
    ensures NonSpaces(DropSpaces(t)) == NonSpaces(t)
  {
    if t != [] && IsSpace(t[0]) {
      NonSpacesDropSpaces(t[1..]);
    }
  }

  /** Every whitespace character is a plain space and none is followed by
      another whitespace character. */
  predicate SingleSpaced(t: string) {
    forall i :: 0 <= i < |t| && IsSpace(t[i]) ==> t[i] == ' ' && (i + 1 == |t| || !IsSpace(t[i + 1]))
  }

  /** Putting one character in front of a single-spaced string keeps it
      single-spaced when that character is a space only if it is ' ' and the
      string does not start with whitespace. */
  lemma SingleSpacedCons(c: char, t: string)
    requires SingleSpaced(t)
    requires IsSpace(c) ==> c == ' ' && (t == [] || !IsSpace(t[0]))
    ensures SingleSpaced([c] + t)
  {
    var u := [c] + t;
    forall i | 0 <= i < |u| && IsSpace(u[i])
      ensures u[i] == ' ' && (i + 1 == |u| || !IsSpace(u[i + 1]))
    {
      if i > 0 {
        assert u[i] == t[i - 1];
        if i + 1 < |u| { assert u[i + 1] == t[i]; }
      }
    }
  }

  /** `str.replace(/\s+/g, ' ')`. */
  function NormalizeSpaces(s: string): (r: string)
    ensures r == [] <==> s == []
    ensures r != [] ==> (IsSpace(r[0]) <==> IsSpace(s[0]))
    ensures |r| <= |s|
    decreases |s|
  {
    if s == [] then []
    else if IsSpace(s[0]) then [' '] + NormalizeSpaces(DropSpaces(s[1..]))
    else [s[0]] + NormalizeSpaces(s[1..])
  }

  /** normalizeSpaces leaves no whitespace but single plain spaces. */
  lemma {:induction false} NormalizeSingleSpaced(s: string)
    ensures SingleSpaced(NormalizeSpaces(s))
    decreases |s|
  {
    if s != [] {
      if IsSpace(s[0]) {
        var rest := DropSpaces(s[1..]);
        NormalizeSingleSpaced(rest);
        SingleSpacedCons(' ', NormalizeSpaces(rest));
      } else {
        NormalizeSingleSpaced(s[1..]);
        SingleSpacedCons(s[0], NormalizeSpaces(s[1..]));
      }
    }
  }

  /** normalizeSpaces keeps every non-space character, in order. */
  lemma {:induction false} NormalizeKeepsNonSpaces(s: string)
    ensures NonSpaces(NormalizeSpaces(s)) == NonSpaces(s)
    decreases |s|
  {
    if s != [] {
      if IsSpace(s[0]) {
        var rest := DropSpaces(s[1..]);
        NormalizeKeepsNonSpaces(rest);
        NonSpacesDropSpaces(s[1..]);
        NonSpacesCons(' ', NormalizeSpaces(rest));
      } else {
        NormalizeKeepsNonSpaces(s[1..]);
        NonSpacesCons(s[0], NormalizeSpaces(s[1..]));
      }
    }
  }

  /** A string that is already single-spaced is left unchanged. */
  lemma {:induction false} NormalizeFixpoint(t: string)
    requires SingleSpaced(t)
    ensures NormalizeSpaces(t) == t
    decreases |t|
  {
    if t != [] {
      assert SingleSpaced(t[1..]) by {
        forall i | 0 <= i < |t[1..]| && IsSpace(t[1..][i])
          ensures t[1..][i] == ' ' && (i + 1 == |t[1..]| || !IsSpace(t[1..][i + 1]))
        {
          assert t[i + 1] == t[1..][i];
        }
      }
      if IsSpace(t[0]) {
        assert DropSpaces(t[1..]) == t[1..];
      }
      NormalizeFixpoint(t[1..]);
    }
  }

  /** normalizeSpaces is idempotent, and a string is a fixed point of it
      exactly when it is single-spaced. */
  lemma NormalizeIdempotent(s: string)
    ensures NormalizeSpaces(NormalizeSpaces(s)) == NormalizeSpaces(s)
    ensures NormalizeSpaces(s) == s <==> SingleSpaced(s)
  {
    NormalizeSingleSpaced(s);
    NormalizeFixpoint(NormalizeSpaces(s));
    if SingleSpaced(s) {
      NormalizeFixpoint(s);
    }
  }

  /** The maximal non-space runs of `s`, in order. */
  function Words(s: string): seq<string> {
    WordsFrom(s, [])
  }

  /** The words of `s` when the word `cur` has been read just before it. */
  function WordsFrom(s: string, cur: string): seq<string> {
    if s == [] then (if cur == [] then [] else [cur])
    else if IsSpace(s[0]) then (if cur == [] then [] else [cur]) + WordsFrom(s[1..], [])
    else WordsFrom(s[1..], cur + [s[0]])
  }

  /** A word is a non-empty string without whitespace. */
  predicate IsWord(w: string) {
    w != [] && forall k :: 0 <= k < |w| ==> !IsSpace(w[k])
  }

  lemma {:induction false} WordsFromAreWords(s: string, cur: string)
    requires cur == [] || IsWord(cur)
    ensures forall i :: 0 <= i < |WordsFrom(s, cur)| ==> IsWord(WordsFrom(s, cur)[i])
    decreases |s|
  {
    if s != [] {
      if IsSpace(s[0]) {
        WordsFromAreWords(s[1..], []);
      } else {
        WordsFromAreWords(s[1..], cur + [s[0]]);
      }
    }
  }

  lemma {:induction false} WordsFromWord(w: string, cur: string)
    requires IsWord(cur + w)
    ensures WordsFrom(w, cur) == [cur + w]
    decreases |w|
  {
    if w != [] {
      assert (cur + w)[|cur|] == w[0];
      assert cur + [w[0]] + w[1..] == cur + w;
      WordsFromWord(w[1..], cur + [w[0]]);
    } else {
      assert cur + w == cur;
    }
  }

  /** A string that is a single word has itself as its only word. */
  lemma WordsOfWord(w: string)
    requires IsWord(w)
    ensures Words(w) == [w]
  {
    assert [] + w == w;
    WordsFromWord(w, []);
  }

  /** Every word is non-empty and free of whitespace. */
  lemma WordsAreWords(s: string)
    ensures forall i :: 0 <= i < |Words(s)| ==> IsWord(Words(s)[i])
  {
    WordsFromAreWords(s, []);
  }

  /** Leading whitespace starts no word. */
  lemma {:induction false} WordsFromDropSpaces(t: string)
    ensures WordsFrom(DropSpaces(t), []) == WordsFrom(t, [])
  {
    if t != [] && IsSpace(t[0]) {
      WordsFromDropSpaces(t[1..]);
    }
  }

  /** Reading a normalised string yields the same words as reading the
      original, whatever word was read just before it. */
  lemma {:induction false} NormalizeWordsFrom(s: string, cur: string)
    ensures WordsFrom(NormalizeSpaces(s), cur) == WordsFrom(s, cur)
    decreases |s|
  {
    if s != [] {
      var r := NormalizeSpaces(s);
      if IsSpace(s[0]) {
        var rest := DropSpaces(s[1..]);
        assert r[1..] == NormalizeSpaces(rest);
        NormalizeWordsFrom(rest, []);
        WordsFromDropSpaces(s[1..]);
      } else {
        assert r[1..] == NormalizeSpaces(s[1..]);
        NormalizeWordsFrom(s[1..], cur + [s[0]]);
      }
    }
  }

  /** normalizeSpaces turns each whitespace run into one space: the words
      between the runs are kept, none is merged, split or lost. */
  lemma NormalizeKeepsWords(s: string)
    ensures Words(NormalizeSpaces(s)) == Words(s)
  {
    NormalizeWordsFrom(s, []);
  }

  /** normalizeSpaces ends with a space exactly when the input ends with
      whitespace. */
  lemma {:induction false} NormalizeKeepsEnd(s: string)
    ensures var r := NormalizeSpaces(s);
      r != [] ==> (IsSpace(r[|r| - 1]) <==> IsSpace(s[|s| - 1]))
    decreases |s|
  {
    if s != [] {
      var r := NormalizeSpaces(s);
      if IsSpace(s[0]) {
        var rest := DropSpaces(s[1..]);
        if rest == [] {
          assert AllSpace(s[1..]);
          if |s| > 1 { assert s[|s| - 1] == s[1..][|s| - 2]; }
        } else {
          NormalizeKeepsEnd(rest);
          assert rest[|rest| - 1] == s[|s| - 1];
        }
      } else if |s| > 1 {
        NormalizeKeepsEnd(s[1..]);
      }
    }
  }

  /** `parts.join(sep)` for a one-character separator. */
  function JoinWith(parts: seq<string>, sep: char): string
  {
    if |parts| == 0 then []
    else if |parts| == 1 then parts[0]
    else parts[0] + [sep] + JoinWith(parts[1..], sep)
  }

  /** `s.split(sep)` for a one-character separator: always at least one piece,
      no piece holds the separator, and joining the pieces gives `s` back. */
  function Split(s: string, sep: char): (r: seq<string>)
    ensures |r| >= 1
    ensures forall i :: 0 <= i < |r| ==> sep !in r[i]
    ensures JoinWith(r, sep) == s
  {
    if s == [] then [[]]
    else
      var rest := Split(s[1..], sep);
      if s[0] == sep then
        assert s == [sep] + s[1..];
        [[]] + rest
      else
        var r := [[s[0]] + rest[0]] + rest[1..];
        assert s == [s[0]] + s[1..];
        assert JoinWith(r, sep) == [s[0]] + JoinWith(rest, sep) by {
          if |rest| > 1 {
            assert r[1..] == rest[1..];
          }
        }
        r
  }

  lemma {:induction false} SplitNoSeparator(x: string, sep: char)
    requires sep !in x
    ensures Split(x, sep) == [x]
  {
    if x != [] {
      SplitNoSeparator(x[1..], sep);
    }
  }

  lemma {:induction false} SplitAtSeparator(x: string, sep: char, y: string)
    requires sep !in x
    ensures Split(x + [sep] + y, sep) == [x] + Split(y, sep)
  {
    if x == [] {
      assert ([sep] + y)[1..] == y;
    } else {
      var whole := x + [sep] + y;
      assert whole[0] == x[0] && x[0] != sep;
      assert whole[1..] == x[1..] + [sep] + y;
      SplitAtSeparator(x[1..], sep, y);
      var rest := Split(whole[1..], sep);
      assert rest == [x[1..]] + Split(y, sep);
      assert Split(whole, sep) == [[x[0]] + rest[0]] + rest[1..];
      assert [x[0]] + x[1..] == x;
    }
  }

  /** Splitting the join of separator-free pieces gives the pieces back. */
  lemma {:induction false} SplitJoin(parts: seq<string>, sep: char)
    requires |parts| >= 1
    requires forall i :: 0 <= i < |parts| ==> sep !in parts[i]
    ensures Split(JoinWith(parts, sep), sep) == parts
  {
    if |parts| == 1 {
      SplitNoSeparator(parts[0], sep);
    } else {
      assert sep !in parts[0];
      assert forall i :: 0 <= i < |parts[1..]| ==> sep !in parts[1..][i] by {
        forall i | 0 <= i < |parts[1..]| ensures sep !in parts[1..][i] {
          assert parts[1..][i] == parts[i + 1];
        }
      }
      SplitJoin(parts[1..], sep);
      assert JoinWith(parts, sep) == parts[0] + [sep] + JoinWith(parts[1..], sep);
      SplitAtSeparator(parts[0], sep, JoinWith(parts[1..], sep));
      assert parts == [parts[0]] + parts[1..];
    }
  }

  /** Non-empty, and neither starts nor ends with whitespace. */
  predicate Trimmed(t: string) {
    t != [] && !IsSpace(t[0]) && !IsSpace(t[|t| - 1])
  }

  /** The trimmed, non-empty pieces, in order. */
  function KeepNonBlank(parts: seq<string>): (r: seq<string>)
    ensures |r| <= |parts|
    ensures forall i :: 0 <= i < |r| ==> Trimmed(r[i])
  {
    if parts == [] then []
    else
      var t := Trim(parts[0]);
      var rest := KeepNonBlank(parts[1..]);
      if t == [] then rest else TrimmedCons(t, rest); [t] + rest
  }

  /** A trimmed piece in front of trimmed pieces. */
  lemma TrimmedCons(t: string, rest: seq<string>)
    requires Trimmed(t)
    requires forall i :: 0 <= i < |rest| ==> Trimmed(rest[i])
    ensures forall i :: 0 <= i < |[t] + rest| ==> Trimmed(([t] + rest)[i])
  {
    forall i | 0 <= i < |[t] + rest| ensures Trimmed(([t] + rest)[i]) {
      if i > 0 { assert ([t] + rest)[i] == rest[i - 1]; }
    }
  }

  /** The trimmed text of every part, in order. */
  function Trims(parts: seq<string>): (r: seq<string>)
    ensures |r| == |parts|
    ensures forall i :: 0 <= i < |parts| ==> r[i] == Trim(parts[i])
  {
    seq(|parts|, i requires 0 <= i < |parts| => Trim(parts[i]))
  }

  /** `r` lists the items of `ts` at the strictly increasing positions
      `idx`, and every non-empty item of `ts` has its position in `idx`. */
  predicate KeptAt(ts: seq<string>, r: seq<string>, idx: seq<nat>) {
    && |idx| == |r|
    && (forall k :: 0 <= k < |idx| ==> idx[k] < |ts| && r[k] == ts[idx[k]])
    && (forall k, l :: 0 <= k < l < |idx| ==> idx[k] < idx[l])
    && (forall i :: 0 <= i < |ts| && ts[i] != [] ==> i in idx)
  }

  /** The kept items are the non-blank trimmed parts, in input order. */
  lemma {:induction false} KeepNonBlankIndices(parts: seq<string>) returns (idx: seq<nat>)
    ensures KeptAt(Trims(parts), KeepNonBlank(parts), idx)
  {
    if parts == [] {
      idx := [];
    } else {
      var tail := parts[1..];
      var ts := Trims(parts);
      var rest := KeepNonBlankIndices(tail);
      assert ts[1..] == Trims(tail);
      var r := KeepNonBlank(tail);
      ShiftValues(ts, r, rest);
      ShiftCovers(ts, r, rest);
      if Trim(parts[0]) == [] {
        idx := Shift(rest);
      } else {
        assert KeepNonBlank(parts) == [ts[0]] + r;
        idx := [0] + Shift(rest);
        ConsValues(ts, r, Shift(rest));
        ConsCovers(ts, Shift(rest));
      }
    }
  }

  /** Every position moved one place on. */
  function Shift(rest: seq<nat>): (r: seq<nat>)
    ensures |r| == |rest|
    ensures forall k :: 0 <= k < |rest| ==> r[k] == rest[k] + 1
  {
    seq(|rest|, k requires 0 <= k < |rest| => rest[k] + 1)
  }

  /** Positions of items of the tail, moved one place on, are positions
      of the same items in the whole list, still increasing. */
  lemma ShiftValues(ts: seq<string>, r: seq<string>, rest: seq<nat>)
    requires ts != [] && KeptAt(ts[1..], r, rest)
    ensures |Shift(rest)| == |r|
    ensures forall k :: 0 <= k < |r| ==> 1 <= Shift(rest)[k] < |ts| && r[k] == ts[Shift(rest)[k]]
    ensures forall k, l :: 0 <= k < l < |r| ==> Shift(rest)[k] < Shift(rest)[l]
  {
    forall k | 0 <= k < |r| ensures r[k] == ts[Shift(rest)[k]] {
      assert ts[1..][rest[k]] == ts[rest[k] + 1];
    }
  }

  /** The moved positions cover every non-empty item after the first. */
  lemma ShiftCovers(ts: seq<string>, r: seq<string>, rest: seq<nat>)
    requires ts != [] && KeptAt(ts[1..], r, rest)
    ensures forall i :: 1 <= i < |ts| && ts[i] != [] ==> i in Shift(rest)
  {
    var shifted := Shift(rest);
    forall i | 1 <= i < |ts| && ts[i] != [] ensures i in shifted {
      assert ts[1..][i - 1] == ts[i];
      var k :| 0 <= k < |rest| && rest[k] == i - 1;
      assert shifted[k] == i;
    }
  }

  /** A non-empty first item goes in front, at position 0. */
  lemma ConsValues(ts: seq<string>, r: seq<string>, shifted: seq<nat>)
    requires ts != [] && |shifted| == |r|
    requires forall k :: 0 <= k < |r| ==> 1 <= shifted[k] < |ts| && r[k] == ts[shifted[k]]
    requires forall k, l :: 0 <= k < l < |r| ==> shifted[k] < shifted[l]
    ensures forall k :: 0 <= k < |r| + 1 ==> ([0] + shifted)[k] < |ts| && ([ts[0]] + r)[k] == ts[([0] + shifted)[k]]
    ensures forall k, l :: 0 <= k < l < |r| + 1 ==> ([0] + shifted)[k] < ([0] + shifted)[l]
  {
    var idx := [0] + shifted;
    var r' := [ts[0]] + r;
    forall k | 1 <= k < |idx| ensures idx[k] < |ts| && r'[k] == ts[idx[k]] {
      assert r'[k] == r[k - 1] && idx[k] == shifted[k - 1];
    }
    forall k, l | 0 <= k < l < |idx| ensures idx[k] < idx[l] {
      assert idx[l] == shifted[l - 1];
      if k > 0 { assert idx[k] == shifted[k - 1]; }
    }
  }

  /** With position 0 in front, every non-empty item is covered. */
  lemma ConsCovers(ts: seq<string>, shifted: seq<nat>)
    requires forall i :: 1 <= i < |ts| && ts[i] != [] ==> i in shifted
    ensures forall i :: 0 <= i < |ts| && ts[i] != [] ==> i in [0] + shifted
  {
    forall i | 0 <= i < |ts| && ts[i] != [] ensures i in [0] + shifted {
      if i > 0 {
        var k :| 0 <= k < |shifted| && shifted[k] == i;
        assert ([0] + shifted)[k + 1] == i;
      }
    }
  }

  /** A string is kept exactly when it is the non-blank trimmed text of
      some part. */
  lemma KeepNonBlankMembers(parts: seq<string>)
    ensures forall x :: x in KeepNonBlank(parts) <==> exists i :: 0 <= i < |parts| && x == Trim(parts[i]) && x != []
  {
    var r := KeepNonBlank(parts);
    var idx := KeepNonBlankIndices(parts);
    forall x ensures x in r <==> exists i :: 0 <= i < |parts| && x == Trim(parts[i]) && x != [] {
      if x in r {
        var k :| 0 <= k < |r| && r[k] == x;
        assert Trimmed(r[k]);
        assert 0 <= idx[k] < |parts| && x == Trims(parts)[idx[k]] && x != [];
      }
      if exists i :: 0 <= i < |parts| && x == Trim(parts[i]) && x != [] {
        var i :| 0 <= i < |parts| && x == Trim(parts[i]) && x != [];
        assert Trims(parts)[i] == x;
        var k :| 0 <= k < |idx| && idx[k] == i;
        assert r[k] == x;
      }
    }
  }

  /** `input.split('\n').map(x => x.trim()).filter(x => x)`. */
  function NonBlankLines(input: string): seq<string>
  {
    KeepNonBlank(Split(input, '\n'))
  }

  lemma {:induction false} AllSpaceJoin(parts: seq<string>)
    ensures AllSpace(JoinWith(parts, '\n')) <==> forall i :: 0 <= i < |parts| ==> AllSpace(parts[i])
  {
    if |parts| > 1 {
      AllSpaceJoin(parts[1..]);
      var j := JoinWith(parts[1..], '\n');
      var whole := JoinWith(parts, '\n');
      assert whole == parts[0] + ['\n'] + j;
      assert (forall i :: 0 <= i < |parts| ==> AllSpace(parts[i]))
         <==> AllSpace(parts[0]) && forall i :: 0 <= i < |parts[1..]| ==> AllSpace(parts[1..][i]) by {
        forall i | 0 <= i < |parts[1..]| ensures parts[1..][i] == parts[i + 1] { }
      }
      assert AllSpace(whole) <==> AllSpace(parts[0]) && AllSpace(j) by {
        assert forall k :: 0 <= k < |parts[0]| ==> whole[k] == parts[0][k];
        assert forall k :: 0 <= k < |j| ==> whole[|parts[0]| + 1 + k] == j[k];
        assert IsSpace(whole[|parts[0]|]);
        if AllSpace(parts[0]) && AllSpace(j) {
          forall k | 0 <= k < |whole| ensures IsSpace(whole[k]) {
            if k > |parts[0]| { assert whole[k] == j[k - |parts[0]| - 1]; }
          }
        }
      }
    }
  }

  lemma {:induction false} KeepNonBlankEmpty(parts: seq<string>)
    ensures KeepNonBlank(parts) == [] <==> forall i :: 0 <= i < |parts| ==> AllSpace(parts[i])
  {
    if parts != [] {
      KeepNonBlankEmpty(parts[1..]);
      if forall i :: 0 <= i < |parts[1..]| ==> AllSpace(parts[1..][i]) {
        if AllSpace(parts[0]) {
          forall i | 0 <= i < |parts| ensures AllSpace(parts[i]) {
            if i > 0 { assert parts[i] == parts[1..][i - 1]; }
          }
        }
      } else {
        var i :| 0 <= i < |parts[1..]| && !AllSpace(parts[1..][i]);
        assert parts[1..][i] == parts[i + 1];
      }
    }
  }

  /** The handlers' "blank input" check agrees with "no lines survive":
      a trimmed input is empty exactly when no non-blank line remains. */
  lemma BlankInputHasNoLines(input: string)
    ensures Trim(input) == [] <==> NonBlankLines(input) == []
  {
    var parts := Split(input, '\n');
    AllSpaceJoin(parts);
    KeepNonBlankEmpty(parts);
  }

  /** ASCII lower-casing of one character. */
  function LowerChar(c: char): (r: char)
    ensures IsSpace(r) <==> IsSpace(c)
    ensures 'A' <= c <= 'Z' ==> r as int == c as int + 32
    ensures !('A' <= c <= 'Z') ==> r == c
  {
    if 'A' <= c <= 'Z' then (c as int + 32) as char else c
  }

  function Lower(s: string): (r: string)
    ensures |r| == |s|
    ensures forall i :: 0 <= i < |s| ==> r[i] == LowerChar(s[i])
  {
    seq(|s|, i requires 0 <= i < |s| => LowerChar(s[i]))
  }

  predicate IsPrefix(p: string, s: string) {
    |p| <= |s| && s[..|p|] == p
  }

  /** `p` occurs in `s` starting at position `i`. */
  predicate OccursAt(s: string, p: string, i: nat) {
    i + |p| <= |s| && s[i..i + |p|] == p
  }

  /** `s.includes(p)`. */
  predicate Contains(s: string, p: string) {
    exists i: nat | i <= |s| :: OccursAt(s, p, i)
  }

  /** `s.indexOf(c)` for a character known to occur in `s`. */
  function FirstIndex(s: string, c: char): (r: nat)
    requires c in s
    ensures r < |s| && s[r] == c && c !in s[..r]
  {
    if s[0] == c then 0 else
      assert s == [s[0]] + s[1..];
      1 + FirstIndex(s[1..], c)
  }

  /** `s.indexOf(p)` as an option: the first position where `p` occurs. */
  function FindFirst(s: string, p: string, from: nat): (r: Option<nat>)
    requires from <= |s|
    ensures r.Some? ==> from <= r.value && OccursAt(s, p, r.value)
    ensures forall k: nat :: from <= k && (r.Some? ==> k < r.value) ==> !OccursAt(s, p, k)
    decreases |s| - from
  {
    if from + |p| > |s| then None
    else if OccursAt(s, p, from) then Some(from)
    else
      assert |p| > 0;
      FindFirst(s, p, from + 1)
  }

  /** `a` is `b` with some of its characters deleted; the rest keep their
      order. */
  predicate IsSubsequence(a: string, b: string)
    decreases |b|
  {
    if b == [] then a == []
    else (a != [] && a[0] == b[0] && IsSubsequence(a[1..], b[1..])) || IsSubsequence(a, b[1..])
  }

  lemma {:induction false} SubsequenceRefl(s: string)
    ensures IsSubsequence(s, s)
  {
    if s != [] {
      SubsequenceRefl(s[1..]);
    }
  }

  /** Deleting characters twice is deleting characters. */
  lemma {:induction false} SubsequenceTrans(a: string, b: string, c: string)
    requires IsSubsequence(a, b) && IsSubsequence(b, c)
    ensures IsSubsequence(a, c)
    decreases |c|
  {
    if c != [] {
      if b != [] && b[0] == c[0] && IsSubsequence(b[1..], c[1..]) {
        if a != [] && a[0] == b[0] && IsSubsequence(a[1..], b[1..]) {
          SubsequenceTrans(a[1..], b[1..], c[1..]);
        } else {
          SubsequenceTrans(a, b[1..], c[1..]);
        }
      } else {
        SubsequenceTrans(a, b, c[1..]);
      }
    }
  }

  /** The decimal digits of `n`, as `String(n)` prints them. */
  function Decimal(n: nat): (r: string)
    ensures r != []
    ensures forall i :: 0 <= i < |r| ==> '0' <= r[i] <= '9'
  {
    if n < 10 then [('0' as int + n) as char]
    else Decimal(n / 10) + [('0' as int + n % 10) as char]
  }
}
