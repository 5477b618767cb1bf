/**
 * The parts of Python's `str` behaviour the program relies on: whitespace as
 * `str.isspace` and `\s` see it, `split()` without arguments, `strip()`,
 * `lower()` (on ASCII letters), `in` on strings, `replace(pat, "")` and `join`.
 */
module Text {

  /** Python's `str.isspace`, which is also what `\s`, `split()` and `strip()` use on `str`. */
  predicate IsSpace(c: char) {
    c == ' ' || ('\t' <= c <= '\r') || ('\U{1c}' <= c <= '\U{1f}') || c == '\U{85}' || c == '\U{a0}'
    || c == '\U{1680}' || ('\U{2000}' <= c <= '\U{200a}') || c == '\U{2028}' || c == '\U{2029}'
    || c == '\U{202f}' || c == '\U{205f}' || c == '\U{3000}'
  }

  predicate IsNonSpace(c: char) { !IsSpace(c) }

  predicate IsAsciiUpper(c: char) { 'A' <= c <= 'Z' }
  predicate IsAsciiLower(c: char) { 'a' <= c <= 'z' }
  predicate IsAsciiLetter(c: char) { IsAsciiUpper(c) || IsAsciiLower(c) }
  predicate IsDigit(c: char) { '0' <= c <= '9' }
  predicate IsAsciiAlnum(c: char) { IsAsciiLetter(c) || IsDigit(c) }

  /** `c.lower()` on ASCII letters; every other character is left as it is. */
  function LowerChar(c: char): (d: char)
    ensures IsAsciiUpper(c) ==> IsAsciiLower(d) && d as int == c as int + 32
    ensures !IsAsciiUpper(c) ==> d == c
  {
    if IsAsciiUpper(c) then (c as int - 'A' as int + 'a' as int) as char else c
  }

  /** `s.lower()`, position by position. */
  function Lower(s: string): (r: string)
    ensures |r| == |s|
    ensures forall i :: 0 <= i < |s| ==> r[i] == LowerChar(s[i])
  {
    seq(|s|, i requires 0 <= i < |s| => LowerChar(s[i]))
  }

  /** `s[i:].startswith(lit)`. */
  predicate StartsAt(s: string, i: nat, lit: string) {
    i + |lit| <= |s| && s[i..i + |lit|] == lit
  }

  /** Python's `pat in s`. */
  predicate Occurs(pat: string, s: string)
    decreases |s|
  {
    StartsAt(s, 0, pat) || (s != [] && Occurs(pat, s[1..]))
  }

  /** A string containing `pat` contains every character of `pat`. */
  lemma {:induction false} OccursChars(pat: string, s: string, c: char)
    requires Occurs(pat, s) && c in pat
    ensures c in s
    decreases |s|
  {
    if StartsAt(s, 0, pat) {
      var k :| 0 <= k < |pat| && pat[k] == c;
      assert s[k] == c;
    } else {
      OccursChars(pat, s[1..], c);
    }
  }

  /** `pat in s` holds when `pat` stands at position `i` of `s`. */
  lemma {:induction false} OccursAt(pat: string, s: string, i: nat)
    requires StartsAt(s, i, pat)
    ensures Occurs(pat, s)
    decreases i
  {
    if i > 0 {
      assert s[1..][i - 1..i - 1 + |pat|] == s[i..i + |pat|];
      OccursAt(pat, s[1..], i - 1);
    }
  }

  /** The end of the longest run of characters of class `inClass` that starts at `i`. */
  function RunEnd(s: string, i: nat, inClass: char -> bool): (j: nat)
    requires i <= |s|
    ensures i <= j <= |s|
    ensures forall k :: i <= k < j ==> inClass(s[k])
    ensures j == |s| || !inClass(s[j])
    decreases |s| - i
  {
    if i < |s| && inClass(s[i]) then RunEnd(s, i + 1, inClass) else i
  }

  /** `s.lstrip()`. */
  function StripStart(s: string): (r: string)
    ensures |r| <= |s| && r == s[|s| - |r|..]
    ensures forall k :: 0 <= k < |s| - |r| ==> IsSpace(s[k])
    ensures r == [] || !IsSpace(r[0])
  {
    if s != [] && IsSpace(s[0]) then
      var r := StripStart(s[1..]);
      assert forall k :: 1 <= k < |s| - |r| ==> s[k] == s[1..][k - 1];
      r
    else s
  }

  /** `s.rstrip()`. */
  function StripEnd(s: string): (r: string)
    ensures |r| <= |s| && r == s[..|r|]
    ensures forall k :: |r| <= k < |s| ==> IsSpace(s[k])
    ensures r == [] || !IsSpace(r[|r| - 1])
  {
    if s != [] && IsSpace(s[|s| - 1]) then
      var r := StripEnd(s[..|s| - 1]);
      assert forall k :: |r| <= k < |s| - 1 ==> s[k] == s[..|s| - 1][k];
      r
    else s
  }

  /** `s.strip()`: no whitespace at either end, and only whitespace was removed. */
  function Strip(s: string): (r: string)
    ensures r == [] || (!IsSpace(r[0]) && !IsSpace(r[|r| - 1]))
    ensures forall k :: 0 <= k < |r| ==> r[k] in s
    ensures exists a, b :: 0 <= a <= b <= |s| && r == s[a..b] && AllSpace(s, 0, a) && AllSpace(s, b, |s|)
  {
    var t := StripStart(s);
    var r := StripEnd(t);
    StripSlice(s, t, r);
    r
  }

  /** Whitespace cut from the front of `s` giving `t`, then from the back of `t` giving `r`, leaves a slice of `s`. */
  lemma StripSlice(s: string, t: string, r: string)
    requires |t| <= |s| && t == s[|s| - |t|..] && AllSpace(s, 0, |s| - |t|)
    requires |r| <= |t| && r == t[..|r|] && AllSpace(t, |r|, |t|)
    ensures forall k :: 0 <= k < |r| ==> r[k] in s
    ensures exists a, b :: 0 <= a <= b <= |s| && r == s[a..b] && AllSpace(s, 0, a) && AllSpace(s, b, |s|)
  {
    var a := |s| - |t|;
    assert forall k :: 0 <= k < |r| ==> r[k] == s[a + k];
    assert r == s[a..a + |r|];
    assert forall k :: a + |r| <= k < |s| ==> s[k] == t[k - a];
  }

  /** Every character of `s[lo:hi]` is whitespace. */
  predicate AllSpace(s: string, lo: nat, hi: nat)
    requires lo <= hi <= |s|
  {
    forall k :: lo <= k < hi ==> IsSpace(s[k])
  }

  /** Stripping keeps every property that all characters of the input have. */
  lemma StripKeeps(s: string, inClass: char -> bool)
    requires forall k :: 0 <= k < |s| ==> inClass(s[k])
    ensures forall k :: 0 <= k < |Strip(s)| ==> inClass(Strip(s)[k])
  {
    var r := Strip(s);
    forall k | 0 <= k < |r| ensures inClass(r[k]) {
      assert r[k] in s;
    }
  }

  /** Lowercasing neither makes nor removes whitespace, so a stripped string stays stripped. */
  lemma LowerTrimmed(s: string)
    requires s == [] || (!IsSpace(s[0]) && !IsSpace(s[|s| - 1]))
    ensures Lower(s) == [] || (!IsSpace(Lower(s)[0]) && !IsSpace(Lower(s)[|s| - 1]))
  {
  }

  /** Stripping a string that has no whitespace at its ends gives it back. */
  lemma StripTrimmed(s: string)
    requires s == [] || (!IsSpace(s[0]) && !IsSpace(s[|s| - 1]))
    ensures Strip(s) == s
  {
  }

  /** Lowercasing a string without uppercase letters gives it back. */
  lemma {:induction false} LowerFixes(s: string)
    requires forall k :: 0 <= k < |s| ==> !IsAsciiUpper(s[k])
    ensures Lower(s) == s
  {
  }

  /** The characters of a slice are characters of the string, with every property those positions have. */
  lemma {:induction false} SliceKeeps(s: string, lo: nat, hi: nat, inClass: char -> bool)
    requires lo <= hi <= |s|
    requires forall k :: lo <= k < hi ==> inClass(s[k])
    ensures forall m :: 0 <= m < hi - lo ==> inClass(s[lo..hi][m]) && s[lo..hi][m] in s
  {
    forall m | 0 <= m < hi - lo ensures inClass(s[lo..hi][m]) && s[lo..hi][m] in s {
      assert s[lo..hi][m] == s[lo + m];
    }
  }

  /** A word of `split()`: non-empty and free of whitespace. */
  predicate IsWord(w: string) {
    |w| > 0 && forall k :: 0 <= k < |w| ==> !IsSpace(w[k])
  }

  /**
   * `s.split()` with no separator: the maximal runs of non-whitespace characters, in order.
   * The words hold every non-whitespace character of `s`, in order, and nothing else.
   */
  function Words(s: string): (ws: seq<string>)
    ensures forall k :: 0 <= k < |ws| ==> IsWord(ws[k])
    ensures Concat(ws) == NonSpaceChars(s)
    decreases |s|
  {
    var a := RunEnd(s, 0, IsSpace);
    if a == |s| then
      NonSpaceOfSpaces(s, a);
      []
    else
      var b := RunEnd(s, a, IsNonSpace);
      var rest := Words(s[b..]);
      NonSpaceOfWordThenRest(s, a, b, rest);
      WordsCons(s[a..b], rest);
      [s[a..b]] + rest
  }

  /** A word in front of a list of words is a list of words. */
  lemma WordsCons(w: string, rest: seq<string>)
    requires IsWord(w) && forall k :: 0 <= k < |rest| ==> IsWord(rest[k])
    ensures forall k :: 0 <= k < |[w] + rest| ==> IsWord(([w] + rest)[k])
  {
    forall k | 0 <= k < |[w] + rest| ensures IsWord(([w] + rest)[k]) {
      if k > 0 {
        assert ([w] + rest)[k] == rest[k - 1];
      }
    }
  }

  lemma NonSpaceOfSpaces(s: string, a: nat)
    requires a == |s| && forall k :: 0 <= k < a ==> IsSpace(s[k])
    ensures NonSpaceChars(s) == []
  {
    assert s[0..] == s;
    NonSpaceSkip(s, 0, a);
    assert s[a..] == [];
  }

  /** Leading whitespace up to `a`, a word up to `b`, then words holding the rest's characters. */
  lemma NonSpaceOfWordThenRest(s: string, a: nat, b: nat, rest: seq<string>)
    requires a <= b <= |s|
    requires forall k :: 0 <= k < a ==> IsSpace(s[k])
    requires forall k :: a <= k < b ==> !IsSpace(s[k])
    requires Concat(rest) == NonSpaceChars(s[b..])
    ensures Concat([s[a..b]] + rest) == NonSpaceChars(s)
  {
    assert s[0..] == s;
    NonSpaceSkip(s, 0, a);
    NonSpaceKeep(s, a, b);
    ConcatCons(s[a..b], rest);
  }

  /** The words of a list run together: `"".join(ws)`. */
  function Concat(ws: seq<string>): string {
    if ws == [] then [] else ws[0] + Concat(ws[1..])
  }

  lemma ConcatCons(w: string, ws: seq<string>)
    ensures Concat([w] + ws) == w + Concat(ws)
  {
    assert ([w] + ws)[1..] == ws;
  }

  /** The non-whitespace characters of `s`, in order. */
  function NonSpaceChars(s: string): string {
    if s == [] then [] else (if IsSpace(s[0]) then [] else [s[0]]) + NonSpaceChars(s[1..])
  }

  /** Whitespace from `i` to `j` adds nothing to the non-whitespace characters. */
  lemma {:induction false} NonSpaceSkip(s: string, i: nat, j: nat)
    requires i <= j <= |s|
    requires forall k :: i <= k < j ==> IsSpace(s[k])
    ensures NonSpaceChars(s[i..]) == NonSpaceChars(s[j..])
    decreases j - i
  {
    if i < j {
      assert s[i..][1..] == s[i + 1..];
      NonSpaceSkip(s, i + 1, j);
    }
  }

  /** A run of non-whitespace from `i` to `j` is kept whole. */
  lemma {:induction false} NonSpaceKeep(s: string, i: nat, j: nat)
    requires i <= j <= |s|
    requires forall k :: i <= k < j ==> !IsSpace(s[k])
    ensures NonSpaceChars(s[i..]) == s[i..j] + NonSpaceChars(s[j..])
    decreases j - i
  {
    if i < j {
      assert s[i..][1..] == s[i + 1..];
      NonSpaceKeep(s, i + 1, j);
      assert s[i..j] == [s[i]] + s[i + 1..j];
    } else {
      assert s[i..j] == [];
    }
  }

  /** `sep.join(parts)`. */
  function Join(parts: seq<string>, sep: string): (r: string)
    ensures parts == [] ==> r == []
    ensures |parts| == 1 ==> r == parts[0]
    ensures parts != [] ==> |r| >= |parts[0]| && r[..|parts[0]|] == parts[0]
  {
    if parts == [] then []
    else if |parts| == 1 then parts[0]
    else parts[0] + sep + Join(parts[1..], sep)
  }

  /** `s.replace(pat, "")` for a non-empty `pat`: occurrences are removed left to right, without overlap. */
  function RemoveAll(s: string, pat: string): (r: string)
    requires pat != []
    ensures |r| <= |s|
    ensures Occurs(pat, s) ==> |r| <= |s| - |pat|
    ensures !Occurs(pat, s) ==> r == s
    ensures forall k :: 0 <= k < |r| ==> r[k] in s
    decreases |s|
  {
    if s == [] then []
    else if StartsAt(s, 0, pat) then RemoveAll(s[|pat|..], pat)
    else [s[0]] + RemoveAll(s[1..], pat)
  }

  /**
   * Removal goes left to right: the text before the first occurrence is kept, the occurrence
   * is dropped, and removal goes on after it.
   */
  lemma RemoveFirst(a: string, pat: string, b: string)
    requires pat != []
    requires forall k :: 0 <= k < |a| ==> !StartsAt(a + pat + b, k, pat)
    ensures RemoveAll(a + pat + b, pat) == a + RemoveAll(b, pat)
  {
    var s := a + pat + b;
    assert StartsAt(s, |a|, pat) by { assert s[|a|..|a| + |pat|] == pat; }
    RemoveFrom(s, pat, 0, |a|);
    assert s[0..] == s && s[0..|a|] == a && s[|a| + |pat|..] == b;
  }

  /** The same over positions: from `i`, the first occurrence at `j` is dropped and removal resumes after it. */
  lemma {:induction false} RemoveFrom(s: string, pat: string, i: nat, j: nat)
    requires pat != [] && i <= j && StartsAt(s, j, pat)
    requires forall k :: i <= k < j ==> !StartsAt(s, k, pat)
    ensures RemoveAll(s[i..], pat) == s[i..j] + RemoveAll(s[j + |pat|..], pat)
    decreases j - i
  {
    if i == j {
      RemoveHere(s, pat, j);
      assert s[i..j] == [];
    } else {
      var rest := RemoveAll(s[j + |pat|..], pat);
      RemoveNotHere(s, pat, i);
      RemoveFrom(s, pat, i + 1, j);
      SliceCons(s, i, j);
      ConsAssoc(s[i], s[i + 1..j], rest);
    }
  }

  lemma ConsAssoc(c: char, x: string, y: string)
    ensures [c] + (x + y) == ([c] + x) + y
  {
  }

  /** An occurrence at `j` is dropped whole. */
  lemma RemoveHere(s: string, pat: string, j: nat)
    requires pat != [] && StartsAt(s, j, pat)
    ensures RemoveAll(s[j..], pat) == RemoveAll(s[j + |pat|..], pat)
  {
    StartsAtSuffix(s, j, pat);
    assert s[j..][|pat|..] == s[j + |pat|..];
  }

  /** A character where no occurrence starts is kept. */
  lemma RemoveNotHere(s: string, pat: string, i: nat)
    requires pat != [] && i < |s| && !StartsAt(s, i, pat)
    ensures RemoveAll(s[i..], pat) == [s[i]] + RemoveAll(s[i + 1..], pat)
  {
    StartsAtSuffix(s, i, pat);
    assert s[i..][1..] == s[i + 1..];
  }

  lemma SliceCons(s: string, i: nat, j: nat)
    requires i < j <= |s|
    ensures s[i..j] == [s[i]] + s[i + 1..j]
  {
  }

  lemma DropCons(s: string, i: nat)
    requires i < |s|
    ensures s[i..] == [s[i]] + s[i + 1..]
  {
  }

  /** `s[i:].startswith(pat)` is `pat` standing at `i`. */
  lemma StartsAtSuffix(s: string, i: nat, pat: string)
    requires i <= |s|
    ensures StartsAt(s[i..], 0, pat) <==> StartsAt(s, i, pat)
  {
    if i + |pat| <= |s| {
      assert s[i..][0..|pat|] == s[i..i + |pat|];
    }
  }


  /** `s[:n]`. */
  function Prefix<T>(s: seq<T>, n: nat): (r: seq<T>)
    ensures |r| == if n < |s| then n else |s|
    ensures r == s[..|r|]
  {
    if n < |s| then s[..n] else s
  }

  /** `RunEnd` is the end of the run: any `j` that closes a run of the class from `i` is it. */
  lemma {:induction false} RunEndAt(s: string, i: nat, j: nat, inClass: char -> bool)
    requires i <= j <= |s|
    requires forall k :: i <= k < j ==> inClass(s[k])
    requires j == |s| || !inClass(s[j])
    ensures RunEnd(s, i, inClass) == j
    decreases j - i
  {
    if i < j {
      RunEndAt(s, i + 1, j, inClass);
    }
  }

  /** Leading whitespace does not change `split()`. */
  lemma {:induction false} WordsAfterSpace(c: char, t: string)
    requires IsSpace(c)
    ensures Words([c] + t) == Words(t)
  {
    var s := [c] + t;
    var a := RunEnd(t, 0, IsSpace);
    RunEndAt(s, 1, a + 1, IsSpace);
    RunEndAt(s, 0, a + 1, IsSpace);
    if a < |t| {
      FirstWordAfterSpace(c, t, a);
    }
  }

  /** Past the leading whitespace, `[c] + t` and `t` have the same first word and the same rest. */
  lemma {:induction false} FirstWordAfterSpace(c: char, t: string, a: nat)
    requires IsSpace(c) && a < |t| && a == RunEnd(t, 0, IsSpace)
    requires RunEnd([c] + t, 0, IsSpace) == a + 1
    ensures Words([c] + t) == Words(t)
  {
    var s := [c] + t;
    var b := RunEnd(t, a, IsNonSpace);
    RunEndAt(s, a + 1, b + 1, IsNonSpace);
    assert s[a + 1..b + 1] == t[a..b];
    assert s[b + 1..] == t[b..];
  }

  /** A single word splits into itself. */
  lemma {:induction false} WordsOfWord(w: string)
    requires IsWord(w)
    ensures Words(w) == [w]
  {
    RunEndAt(w, 0, 0, IsSpace);
    RunEndAt(w, 0, |w|, IsNonSpace);
    assert w[0..|w|] == w;
    assert w[|w|..] == [];
  }

  /** A word, a whitespace character and a rest split into the word and the words of the rest. */
  lemma {:induction false} WordThenRest(w: string, c: char, rest: string)
    requires IsWord(w) && IsSpace(c)
    ensures Words(w + [c] + rest) == [w] + Words(rest)
  {
    var s := w + [c] + rest;
    RunEndAt(s, 0, 0, IsSpace);
    RunEndAt(s, 0, |w|, IsNonSpace);
    assert s[0..|w|] == w;
    assert s[|w|..] == [c] + rest;
    WordsAfterSpace(c, rest);
  }

  /** `" ".join(ws).split() == ws` when every element is a word. */
  lemma {:induction false} WordsOfJoin(ws: seq<string>)
    requires forall k :: 0 <= k < |ws| ==> IsWord(ws[k])
    ensures Words(Join(ws, " ")) == ws
    decreases |ws|
  {
    if |ws| == 1 {
      WordsOfWord(ws[0]);
    } else if |ws| > 1 {
      assert ws[0] + " " + Join(ws[1..], " ") == ws[0] + [' '] + Join(ws[1..], " ");
      WordThenRest(ws[0], ' ', Join(ws[1..], " "));
      WordsOfJoin(ws[1..]);
    }
  }

  /** Every element of `ws` lowercased. */
  function LowerEach(ws: seq<string>): (r: seq<string>)
    ensures |r| == |ws| && forall k :: 0 <= k < |ws| ==> r[k] == Lower(ws[k])
  {
    if ws == [] then [] else [Lower(ws[0])] + LowerEach(ws[1..])
  }

  lemma LowerConcat(a: string, b: string)
    ensures Lower(a + b) == Lower(a) + Lower(b)
  {
  }

  /** Lowercasing a space-joined list lowercases each element. */
  lemma {:induction false} LowerJoin(ws: seq<string>)
    ensures Lower(Join(ws, " ")) == Join(LowerEach(ws), " ")
    decreases |ws|
  {
    if |ws| > 1 {
      LowerJoin(ws[1..]);
      LowerConcat(ws[0], " ");
      LowerConcat(ws[0] + " ", Join(ws[1..], " "));
      assert LowerEach(ws)[1..] == LowerEach(ws[1..]);
    }
  }
}
