/**
 * Text utilities of the prompt search: `clean_text` and `extract_tech_stack`.
 */
module PromptText {
  import opened Text

  /** The characters `[a-zA-Z0-9\s]` that `clean_text` keeps. */
  predicate IsKept(c: char) { IsAsciiAlnum(c) || IsSpace(c) }

  /** The characters a cleaned text is made of. */
  predicate IsCleanChar(c: char) { IsAsciiLower(c) || IsDigit(c) || IsSpace(c) }

  /** `re.sub(r"[^a-zA-Z0-9\s]", "", text)`. */
  function KeepKept(s: string): (r: string)
    ensures forall i :: 0 <= i < |r| ==> IsKept(r[i])
    ensures forall i :: 0 <= i < |r| ==> r[i] in s
    ensures (forall i :: 0 <= i < |s| ==> IsKept(s[i])) ==> r == s
    ensures forall c {:trigger multiset(r)[c]} :: IsKept(c) ==> multiset(r)[c] == multiset(s)[c]
  {
    if s == [] then []
    else
      assert s == [s[0]] + s[1..];
      (if IsKept(s[0]) then [s[0]] else []) + KeepKept(s[1..])
  }

  /** Removal works character by character: the kept characters of `a + b` are those of `a`, then those of `b`. */
  lemma {:induction false} KeepKeptConcat(a: string, b: string)
    ensures KeepKept(a + b) == KeepKept(a) + KeepKept(b)
    decreases |a|
  {
    if a == [] {
      assert a + b == b;
    } else {
      assert (a + b)[1..] == a[1..] + b;
      KeepKeptConcat(a[1..], b);
    }
  }

  /** A single character is kept or dropped as `IsKept` says. */
  lemma KeepKeptChar(c: char)
    ensures KeepKept([c]) == if IsKept(c) then [c] else []
  {
    assert [c][1..] == [];
  }

  /** `clean_text(text)`: only lowercase ASCII letters, digits and whitespace, and no whitespace at either end. */
  function CleanText(text: string): (r: string)
    ensures forall i :: 0 <= i < |r| ==> IsCleanChar(r[i])
    ensures r == [] || (!IsSpace(r[0]) && !IsSpace(r[|r| - 1]))
  {
    var stripped := Strip(KeepKept(text));
    StripKeeps(KeepKept(text), IsKept);
    LowerTrimmed(stripped);
    Lower(stripped)
  }

  /** A text that already has the shape of a cleaned text is left as it is. */
  lemma {:induction false} CleanFixesClean(text: string)
    requires forall i :: 0 <= i < |text| ==> IsCleanChar(text[i])
    requires text == [] || (!IsSpace(text[0]) && !IsSpace(text[|text| - 1]))
    ensures CleanText(text) == text
  {
    CleanCharsKept(text);
    assert KeepKept(text) == text;
    StripTrimmed(text);
    LowerFixes(text);
  }

  /** A clean character is one `clean_text` keeps, and it is not an uppercase letter. */
  lemma CleanCharsKept(text: string)
    requires forall i :: 0 <= i < |text| ==> IsCleanChar(text[i])
    ensures forall k :: 0 <= k < |text| ==> IsKept(text[k]) && !IsAsciiUpper(text[k])
  {
  }

  /** Cleaning twice is cleaning once. */
  lemma CleanIdempotent(text: string)
    ensures CleanText(CleanText(text)) == CleanText(text)
  {
    CleanFixesClean(CleanText(text));
  }

  /** `tech_keywords`, in the order of the source. */
  const TechKeywords: seq<string> := [
    "python", "java", "c++", "c#", "javascript", "typescript", "react", "angular", "vue",
    "node.js", "flask", "django", "sql", "mysql", "postgresql", "mongodb", "aws", "azure",
    "gcp", "docker", "kubernetes", "tensorflow", "pytorch", "pandas", "numpy", "matplotlib"]

  /** The same vocabulary in Python's string order (by code point; '#' comes before '+'). */
  const SortedTechKeywords: seq<string> := [
    "angular", "aws", "azure", "c#", "c++", "django", "docker", "flask", "gcp", "java",
    "javascript", "kubernetes", "matplotlib", "mongodb", "mysql", "node.js", "numpy", "pandas",
    "postgresql", "python", "pytorch", "react", "sql", "tensorflow", "typescript", "vue"]

  /** Python's `a < b` on strings. */
  predicate LexLess(a: string, b: string) {
    if a == [] then b != []
    else if b == [] then false
    else if a[0] != b[0] then a[0] < b[0]
    else LexLess(a[1..], b[1..])
  }

  lemma {:induction false} LexIrreflexive(a: string)
    ensures !LexLess(a, a)
  {
    if a != [] {
      LexIrreflexive(a[1..]);
    }
  }

  lemma {:induction false} LexTransitive(a: string, b: string, c: string)
    requires LexLess(a, b) && LexLess(b, c)
    ensures LexLess(a, c)
  {
    if a != [] && b != [] && c != [] && a[0] == b[0] == c[0] {
      LexTransitive(a[1..], b[1..], c[1..]);
    }
  }

  predicate StrictlyAscending(s: seq<string>) {
    forall i, j :: 0 <= i < j < |s| ==> LexLess(s[i], s[j])
  }

  lemma {:induction false} AscendingFromNeighbours(s: seq<string>)
    requires forall i :: 0 <= i < |s| - 1 ==> LexLess(s[i], s[i + 1])
    ensures StrictlyAscending(s)
    decreases |s|
  {
    if |s| > 1 {
      AscendingFromNeighbours(s[1..]);
      forall j | 1 < j < |s| ensures LexLess(s[0], s[j]) {
        LexTransitive(s[0], s[1], s[j]);
      }
    }
  }

  lemma Neighbours0() ensures LexLess("angular", "aws") {}
  lemma Neighbours1() ensures LexLess("aws", "azure") {}
  lemma Neighbours3() ensures LexLess("c#", "c++") {}
  lemma Neighbours5() ensures LexLess("django", "docker") {}
  lemma Neighbours9() ensures LexLess("java", "javascript") {}
  lemma Neighbours12() ensures LexLess("matplotlib", "mongodb") {}
  lemma Neighbours13() ensures LexLess("mongodb", "mysql") {}
  lemma Neighbours15() ensures LexLess("node.js", "numpy") {}
  lemma Neighbours17() ensures LexLess("pandas", "postgresql") {}
  lemma Neighbours18() ensures LexLess("postgresql", "python") {}
  lemma Neighbours19() ensures LexLess("python", "pytorch") {}
  lemma Neighbours23() ensures LexLess("tensorflow", "typescript") {}

  lemma NeighboursFrom0()
    ensures forall i :: 0 <= i < 7 ==> LexLess(SortedTechKeywords[i], SortedTechKeywords[i + 1])
  {
    Neighbours0(); Neighbours1(); Neighbours3(); Neighbours5();
  }

  lemma NeighboursFrom7()
    ensures forall i :: 7 <= i < 13 ==> LexLess(SortedTechKeywords[i], SortedTechKeywords[i + 1])
  {
    Neighbours9(); Neighbours12();
  }

  lemma NeighboursFrom13()
    ensures forall i :: 13 <= i < 19 ==> LexLess(SortedTechKeywords[i], SortedTechKeywords[i + 1])
  {
    Neighbours13(); Neighbours15(); Neighbours17(); Neighbours18();
  }

  lemma NeighboursFrom19()
    ensures forall i :: 19 <= i < 25 ==> LexLess(SortedTechKeywords[i], SortedTechKeywords[i + 1])
  {
    Neighbours19(); Neighbours23();
  }

  lemma SortedTechNeighbours()
    ensures forall i :: 0 <= i < |SortedTechKeywords| - 1 ==> LexLess(SortedTechKeywords[i], SortedTechKeywords[i + 1])
  {
    NeighboursFrom0();
    NeighboursFrom7();
    NeighboursFrom13();
    NeighboursFrom19();
  }

  /** The sorted vocabulary is strictly ascending. */
  lemma SortedTechAscending()
    ensures StrictlyAscending(SortedTechKeywords)
  {
    SortedTechNeighbours();
    AscendingFromNeighbours(SortedTechKeywords);
  }

  /** The sorted vocabulary holds exactly the entries of the source's list. */
  lemma SortedTechSameEntries()
    ensures forall t :: t in TechKeywords <==> t in SortedTechKeywords
  {
  }

  /** Every vocabulary entry starts with a lowercase letter. */
  lemma SortedTechInitials()
    ensures forall t :: t in SortedTechKeywords ==> |t| > 0 && IsAsciiLower(t[0])
  {
  }

  /** The entries of `vocab` that are in `found`, in the order of `vocab`. */
  function FilterIn(vocab: seq<string>, found: set<string>): seq<string> {
    if vocab == [] then []
    else if vocab[0] in found then [vocab[0]] + FilterIn(vocab[1..], found)
    else FilterIn(vocab[1..], found)
  }

  /** Filtering keeps exactly the entries in `found`, and keeps an ascending vocabulary ascending. */
  lemma {:induction false} FilterInSpec(vocab: seq<string>, found: set<string>)
    ensures forall t :: t in FilterIn(vocab, found) <==> t in vocab && t in found
    ensures StrictlyAscending(vocab) ==> StrictlyAscending(FilterIn(vocab, found))
    decreases |vocab|
  {
    if vocab != [] {
      FilterInSpec(vocab[1..], found);
      var rest := FilterIn(vocab[1..], found);
      if StrictlyAscending(vocab) {
        forall k | 0 <= k < |rest| ensures LexLess(vocab[0], rest[k]) {
          assert rest[k] in rest;
          var j :| 0 <= j < |vocab[1..]| && vocab[1..][j] == rest[k];
          assert vocab[j + 1] == rest[k];
        }
      }
    }
  }

  /** `sorted(found)` for a set of vocabulary entries. */
  function SortedListing(found: set<string>): seq<string> {
    FilterIn(SortedTechKeywords, found)
  }

  /** For a set of vocabulary entries, `sorted(found)` is its unique strictly ascending listing. */
  lemma SortedListingSpec(found: set<string>)
    requires forall t :: t in found ==> t in TechKeywords
    ensures StrictlyAscending(SortedListing(found))
    ensures forall t :: t in SortedListing(found) <==> t in found
  {
    SortedTechAscending();
    SortedTechSameEntries();
    FilterInSpec(SortedTechKeywords, found);
  }

  /** The entries of `vocab` that are substrings of `text`. */
  function MatchesIn(vocab: seq<string>, text: string): set<string> {
    if vocab == [] then {}
    else MatchesIn(vocab[..|vocab| - 1], text) + (if Occurs(vocab[|vocab| - 1], text) then {vocab[|vocab| - 1]} else {})
  }

  /** An entry is found exactly when it is in the vocabulary and occurs in the text. */
  lemma {:induction false} MatchesInSpec(vocab: seq<string>, text: string)
    ensures forall t :: t in MatchesIn(vocab, text) <==> t in vocab && Occurs(t, text)
    decreases |vocab|
  {
    if vocab != [] {
      MatchesInSpec(vocab[..|vocab| - 1], text);
      assert vocab == vocab[..|vocab| - 1] + [vocab[|vocab| - 1]];
    }
  }

  /** The vocabulary entries that are substrings of `text`. */
  function TechMatches(text: string): set<string> {
    MatchesIn(TechKeywords, text)
  }

  /** What `extract_tech_stack(cv_text)` returns. */
  function TechStack(cvText: string): string {
    var found := TechMatches(CleanText(cvText));
    if found == {} then "Not specified" else Join(SortedListing(found), ", ")
  }

  /** "Not specified" exactly when no vocabulary entry occurs in the cleaned text. */
  lemma TechStackNotSpecified(cvText: string)
    ensures TechStack(cvText) == "Not specified" <==> forall t :: t in TechKeywords ==> !Occurs(t, CleanText(cvText))
  {
    var found := TechMatches(CleanText(cvText));
    MatchesInSpec(TechKeywords, CleanText(cvText));
    if found != {} {
      var t :| t in found;
      SortedTechSameEntries();
      SortedTechInitials();
      SortedListingSpec(found);
      var listing := SortedListing(found);
      assert t in listing;
      assert listing[0] in SortedTechKeywords;
      assert Join(listing, ", ")[0] == listing[0][0];
    }
  }

  /** Otherwise the entries found are listed sorted, each once, joined by ", ". */
  lemma TechStackListing(cvText: string)
    ensures var found := TechMatches(CleanText(cvText));
      found != {} ==>
        && TechStack(cvText) == Join(SortedListing(found), ", ")
        && StrictlyAscending(SortedListing(found))
        && (forall t :: t in SortedListing(found) <==> t in TechKeywords && Occurs(t, CleanText(cvText)))
  {
    MatchesInSpec(TechKeywords, CleanText(cvText));
    SortedListingSpec(TechMatches(CleanText(cvText)));
  }

  /** In a strictly ascending listing every entry appears once. */
  lemma AscendingDistinct(s: seq<string>)
    requires StrictlyAscending(s)
    ensures forall i, j :: 0 <= i < j < |s| ==> s[i] != s[j]
  {
    forall i, j | 0 <= i < j < |s| ensures s[i] != s[j] {
      LexIrreflexive(s[i]);
    }
  }

  /** An entry holding a character that the text lacks is never found in it. */
  lemma MatchesExclude(vocab: seq<string>, text: string, c: char)
    requires c !in text
    ensures forall t :: t in MatchesIn(vocab, text) ==> c !in t
  {
    MatchesInSpec(vocab, text);
    forall t | t in MatchesIn(vocab, text) ensures c !in t {
      if c in t {
        OccursChars(t, text, c);
      }
    }
  }

  /**
   * Cleaning deletes '+', '#' and '.', so in a cleaned text no entry holding one of them is ever
   * found: "c++", "c#" and "node.js" are in the vocabulary but never reported.
   */
  lemma UnreportableEntries(text: string)
    requires forall k :: 0 <= k < |text| ==> IsCleanChar(text[k])
    ensures forall t :: t in TechMatches(text) ==> '+' !in t && '#' !in t && '.' !in t
  {
    MatchesExclude(TechKeywords, text, '+');
    MatchesExclude(TechKeywords, text, '#');
    MatchesExclude(TechKeywords, text, '.');
  }

  /** The loop of `extract_tech_stack`: a pass over `vocab` collecting the entries that occur in `text`. */
  method CollectMatches(vocab: seq<string>, text: string) returns (found: set<string>)
    ensures found == MatchesIn(vocab, text)
  {
    found := {};
    for i := 0 to |vocab|
      invariant found == MatchesIn(vocab[..i], text)
    {
      assert vocab[..i + 1][..i] == vocab[..i];
      if Occurs(vocab[i], text) {
        found := found + {vocab[i]};
      }
    }
    assert vocab[..|vocab|] == vocab;
  }

  /** `extract_tech_stack(cv_text)`. */
  method ExtractTechStack(cvText: string) returns (stack: string)
    ensures stack == TechStack(cvText)
  {
    var found := CollectMatches(TechKeywords, CleanText(cvText));
    if found == {} {
      stack := "Not specified";
    } else {
      stack := Join(SortedListing(found), ", ");
    }
  }
}
