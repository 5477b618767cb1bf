/**
 * Field extraction from an uploaded resume (resume_parser.py): the text of the file, chosen by
 * its extension, the first email address in the text, and the candidate's name. The PDF and DOCX
 * readers are services the caller supplies.
 */
module ResumeParser {
  import opened Optional
  import opened Text
  import opened Regex

  // Reading the file.

  /** An uploaded file: its name and its bytes. */
  datatype Upload = Upload(name: string, content: seq<bv8>)

  /**
   * The document readers: `pdfText(b)` is pdfminer's text of the PDF `b`, and
   * `docxParagraphs(b)` the texts of the paragraphs python-docx finds in the document `b`.
   */
  datatype Readers = Readers(pdfText: seq<bv8> -> string, docxParagraphs: seq<bv8> -> seq<string>)

  /** Where the last '.' before `n` is. */
  function LastDotBefore(s: string, n: nat): (d: Option<nat>)
    requires n <= |s|
    ensures d.Some? ==> d.value < n && s[d.value] == '.' && forall k :: d.value < k < n ==> s[k] != '.'
    ensures d.None? ==> forall k :: 0 <= k < n ==> s[k] != '.'
    decreases n
  {
    if n == 0 then None
    else if s[n - 1] == '.' then Some(n - 1)
    else LastDotBefore(s, n - 1)
  }

  /** `s.split('.')[-1]`: what follows the last '.', or all of `s` when it holds none. */
  function LastSegment(s: string): (r: string)
    ensures forall k :: 0 <= k < |r| ==> r[k] != '.'
    ensures |r| <= |s| && r == s[|s| - |r|..]
    ensures |r| < |s| ==> s[|s| - |r| - 1] == '.'
  {
    match LastDotBefore(s, |s|)
    case None => s
    case Some(d) => s[d + 1..]
  }

  /** `file.name.split('.')[-1].lower()`. */
  function FileType(name: string): string {
    Lower(LastSegment(name))
  }

  /** The file type is read from what follows the last '.' of the name, however many dots come before it. */
  lemma LastSegmentOfName(stem: string, ext: string)
    requires forall k :: 0 <= k < |ext| ==> ext[k] != '.'
    ensures LastSegment(stem + "." + ext) == ext
  {
    var s := stem + "." + ext;
    assert s[|stem|] == '.';
    assert forall k :: |stem| < k < |s| ==> s[k] == ext[k - |stem| - 1];
    assert LastDotBefore(s, |s|) == Some(|stem|);
    assert s[|stem| + 1..] == ext;
  }

  /** `extract_text(file)`. */
  function ExtractText(file: Upload, readers: Readers): string {
    var fileType := FileType(file.name);
    if fileType == "pdf" then readers.pdfText(file.content)
    else if fileType == "docx" then Join(readers.docxParagraphs(file.content), "\n")
    else ""
  }

  /**
   * A file named `stem.ext` is read as a PDF when `ext` is "pdf" in any case, as a DOCX document
   * (its paragraphs joined by newlines) when `ext` is "docx" in any case, and gives "" otherwise.
   */
  lemma ExtractTextDispatch(stem: string, ext: string, content: seq<bv8>, readers: Readers)
    requires forall k :: 0 <= k < |ext| ==> ext[k] != '.'
    ensures var text := ExtractText(Upload(stem + "." + ext, content), readers);
      && (Lower(ext) == "pdf" ==> text == readers.pdfText(content))
      && (Lower(ext) == "docx" ==> text == Join(readers.docxParagraphs(content), "\n"))
      && (Lower(ext) != "pdf" && Lower(ext) != "docx" ==> text == "")
  {
    LastSegmentOfName(stem, ext);
  }

  /** A name without a '.' is its own file type: a file called "PDF" is read as a PDF. */
  lemma FileTypeWithoutDot(name: string)
    requires forall k :: 0 <= k < |name| ==> name[k] != '.'
    ensures FileType(name) == Lower(name)
  {
    assert LastDotBefore(name, |name|) == None;
  }

  // The email address.

  /** The class `[a-zA-Z0-9._%+-]` of the part before the '@'. */
  predicate IsLocalChar(c: char) { IsAsciiAlnum(c) || c == '.' || c == '_' || c == '%' || c == '+' || c == '-' }

  /** The class `[a-zA-Z0-9.-]` of the domain. */
  predicate IsDomainChar(c: char) { IsAsciiAlnum(c) || c == '.' || c == '-' }

  /** `\.[a-zA-Z]{2,}` can match at `d`. */
  predicate TldAt(s: string, d: nat) {
    d + 2 < |s| && s[d] == '.' && IsAsciiLetter(s[d + 1]) && IsAsciiLetter(s[d + 2])
  }

  /**
   * The greedy domain run, given back one character at a time until `\.[a-zA-Z]{2,}` matches:
   * the last position in `[lo, hi)` where it can.
   */
  function LastTldDot(s: string, lo: nat, hi: nat): (d: Option<nat>)
    requires hi <= |s|
    ensures d.Some? ==> lo <= d.value < hi && TldAt(s, d.value)
    ensures d.Some? ==> forall m :: d.value < m < hi ==> !TldAt(s, m)
    ensures d.None? <==> forall m :: lo <= m < hi ==> !TldAt(s, m)
    decreases hi
  {
    if hi <= lo then None
    else if TldAt(s, hi - 1) then Some(hi - 1)
    else LastTldDot(s, lo, hi - 1)
  }

  /** `[a-zA-Z0-9._%+-]+@[a-zA-Z0-9.-]+\.[a-zA-Z]{2,}` tried at `i`: the span of the match. */
  function EmailAt(s: string, i: nat): (g: Option<Span>)
    ensures g.Some? ==> g.value.start == i && i + 6 <= g.value.end <= |s|
  {
    if i >= |s| || !IsLocalChar(s[i]) then None
    else
      var at := RunEnd(s, i, IsLocalChar);
      if at == |s| || s[at] != '@' then None
      else
        var domainEnd := RunEnd(s, at + 1, IsDomainChar);
        match LastTldDot(s, at + 2, domainEnd)
        case None => None
        case Some(d) => Some(Span(i, RunEnd(s, d + 1, IsAsciiLetter)))
  }

  /**
   * The language of the email pattern: `e` is a local part, its '@' at `a`, a domain, and the
   * '.' at `d` followed by at least two ASCII letters.
   */
  predicate EmailParts(e: string, a: nat, d: nat) {
    && 0 < a && a + 1 < d && d + 3 <= |e|
    && (forall k :: 0 <= k < a ==> IsLocalChar(e[k]))
    && e[a] == '@'
    && (forall k :: a < k < d ==> IsDomainChar(e[k]))
    && e[d] == '.'
    && (forall k :: d < k < |e| ==> IsAsciiLetter(e[k]))
  }

  /** What `EmailAt` matches is in the language of the pattern. */
  lemma EmailAtSound(s: string, i: nat)
    requires EmailAt(s, i).Some?
    ensures var g := EmailAt(s, i).value; exists a: nat, d: nat :: EmailParts(s[g.start..g.end], a, d)
  {
    var g := EmailAt(s, i).value;
    var at := RunEnd(s, i, IsLocalChar);
    var domainEnd := RunEnd(s, at + 1, IsDomainChar);
    var d := LastTldDot(s, at + 2, domainEnd).value;
    assert EmailPartsAt(s, i, g.end, at - i, d - i);
    SliceOfEmailParts(s, i, g.end, at - i, d - i);
  }

  /** An address at positions of `s` is, as a slice, a string of the language. */
  lemma SliceOfEmailParts(s: string, i: nat, e: nat, a: nat, d: nat)
    requires EmailPartsAt(s, i, e, a, d)
    ensures EmailParts(s[i..e], a, d)
  {
    var t := s[i..e];
    forall k | 0 <= k < |t| ensures t[k] == s[i + k] {
    }
  }

  /** `s[i..e]` is an address of the pattern's language, its '@' at `i + a` and its dot at `i + d`. */
  predicate EmailPartsAt(s: string, i: nat, e: nat, a: nat, d: nat) {
    && i <= e <= |s| && 0 < a && a + 1 < d && i + d + 3 <= e
    && (forall k :: i <= k < i + a ==> IsLocalChar(s[k]))
    && s[i + a] == '@'
    && (forall k :: i + a < k < i + d ==> IsDomainChar(s[k]))
    && s[i + d] == '.'
    && (forall k :: i + d < k < e ==> IsAsciiLetter(s[k]))
  }

  /** An address of the language found as a slice of `s` is one at those positions of `s`. */
  lemma EmailPartsOfSlice(s: string, i: nat, e: nat, a: nat, d: nat)
    requires i <= e <= |s| && EmailParts(s[i..e], a, d)
    ensures EmailPartsAt(s, i, e, a, d)
  {
    var t := s[i..e];
    forall k | i <= k < e ensures s[k] == t[k - i] {
    }
  }

  /** The local part of an address is the whole greedy run of local characters. */
  lemma LocalRun(s: string, i: nat, e: nat, a: nat, d: nat)
    requires EmailPartsAt(s, i, e, a, d)
    ensures i < |s| && IsLocalChar(s[i])
    ensures RunEnd(s, i, IsLocalChar) == i + a && s[i + a] == '@'
  {
    RunCovers(s, i, i + a, IsLocalChar);
  }

  /** The domain of an address lies within the greedy run of domain characters. */
  lemma DomainRun(s: string, i: nat, e: nat, a: nat, d: nat)
    requires EmailPartsAt(s, i, e, a, d)
    ensures RunEnd(s, i + a + 1, IsDomainChar) >= e
  {
    forall k | i + a + 1 <= k < e ensures IsDomainChar(s[k]) {
      assert k < i + d || k == i + d || i + d < k;
    }
    RunCovers(s, i + a + 1, e, IsDomainChar);
  }

  /**
   * Wherever an address of the pattern's language starts, `EmailAt` matches there, and its match
   * is at least as long: the greedy engine finds the longest match at each position.
   */
  lemma EmailAtComplete(s: string, i: nat, e: nat, a: nat, d: nat)
    requires EmailPartsAt(s, i, e, a, d)
    ensures EmailAt(s, i).Some? && EmailAt(s, i).value.end >= e
  {
    LocalRun(s, i, e, a, d);
    var domainEnd := RunEnd(s, i + a + 1, IsDomainChar);
    DomainTld(s, i, e, a, d);
    EmailAtSteps(s, i, i + a, domainEnd, LastTldDot(s, i + a + 2, domainEnd).value);
  }

  /** Giving back the domain run of an address finds a dot whose letters reach its end. */
  lemma DomainTld(s: string, i: nat, e: nat, a: nat, d: nat)
    requires EmailPartsAt(s, i, e, a, d)
    ensures var dot := LastTldDot(s, i + a + 2, RunEnd(s, i + a + 1, IsDomainChar));
      dot.Some? && RunEnd(s, dot.value + 1, IsAsciiLetter) >= e
  {
    DomainRun(s, i, e, a, d);
    TldBackOff(s, i + a + 2, RunEnd(s, i + a + 1, IsDomainChar), i + d, e);
  }

  /** `EmailAt` in terms of the three greedy runs and the dot the domain run gives back to. */
  lemma EmailAtSteps(s: string, i: nat, at: nat, domainEnd: nat, dot: nat)
    requires i < |s| && IsLocalChar(s[i])
    requires at == RunEnd(s, i, IsLocalChar) && at < |s| && s[at] == '@'
    requires domainEnd == RunEnd(s, at + 1, IsDomainChar)
    requires LastTldDot(s, at + 2, domainEnd) == Some(dot)
    ensures EmailAt(s, i) == Some(Span(i, RunEnd(s, dot + 1, IsAsciiLetter)))
  {
  }

  /**
   * When a dot at `p` starts `\.[a-zA-Z]{2,}` and letters follow it up to `e`, giving back the
   * domain run finds a dot whose letters reach `e` at least.
   */
  lemma TldBackOff(s: string, lo: nat, hi: nat, p: nat, e: nat)
    requires lo <= p < e <= hi <= |s| && TldAt(s, p)
    requires forall k :: p < k < e ==> IsAsciiLetter(s[k])
    ensures LastTldDot(s, lo, hi).Some? && RunEnd(s, LastTldDot(s, lo, hi).value + 1, IsAsciiLetter) >= e
  {
    if LastTldDot(s, lo, hi).value == p {
      RunCovers(s, p + 1, e, IsAsciiLetter);
    }
  }

  /** A run of a class that covers `[i, e)` reaches at least `e`. */
  lemma {:induction false} RunCovers(s: string, i: nat, e: nat, inClass: char -> bool)
    requires i <= e <= |s|
    requires forall k :: i <= k < e ==> inClass(s[k])
    ensures RunEnd(s, i, inClass) >= e
    decreases e - i
  {
    if i < e {
      RunCovers(s, i + 1, e, inClass);
    }
  }

  const NotAvailable: string := "N/A"

  /** `extract_email(text)`: the first match of the email pattern, or "N/A". */
  function ExtractEmail(text: string): (email: string)
    ensures email == NotAvailable <==> forall j :: 0 <= j <= |text| ==> EmailAt(text, j).None?
    ensures email != NotAvailable ==> exists i, j :: 0 <= i <= j <= |text| && email == text[i..j]
    ensures email != NotAvailable ==> exists a: nat, d: nat :: EmailParts(email, a, d)
  {
    match Search(text, 0, EmailAt)
    case None => NotAvailable
    case Some(h) =>
      MatchedEmail(text, h);
      text[h.pos..h.group.end]
  }

  /** The text of the first match is an address of the pattern's language, found in the text. */
  lemma MatchedEmail(text: string, h: Hit)
    requires Search(text, 0, EmailAt) == Some(h)
    ensures h.pos <= h.group.end <= |text|
    ensures var email := text[h.pos..h.group.end];
      && email != NotAvailable
      && exists a: nat, d: nat :: EmailParts(email, a, d)
  {
    assert EmailAt(text, h.pos) == Some(h.group);
    EmailAtSound(text, h.pos);
    var email := text[h.pos..h.group.end];
    assert |email| >= 6;
  }

  /**
   * The address reported is the leftmost one, and the longest among those starting there: any
   * string of the pattern's language in the text starts at or after it, and ends no later when
   * it starts at the same place.
   */
  lemma EmailLeftmostLongest(text: string, j: nat, e: nat, a: nat, d: nat)
    requires j <= e <= |text| && EmailParts(text[j..e], a, d)
    ensures var h := Search(text, 0, EmailAt);
      && h.Some?
      && (h.value.pos < j || (h.value.pos == j && h.value.group.end >= e))
      && ExtractEmail(text) == text[h.value.pos..h.value.group.end]
  {
    EmailPartsOfSlice(text, j, e, a, d);
    EmailAtComplete(text, j, e, a, d);
  }

  /** Every address found holds exactly one '@' and ends with '.' and at least two ASCII letters. */
  lemma EmailShape(email: string, a: nat, d: nat)
    requires EmailParts(email, a, d)
    ensures forall k :: 0 <= k < |email| && k != a ==> email[k] != '@'
    ensures email[d] == '.' && |email| - d >= 3 && forall k :: d < k < |email| ==> IsAsciiLetter(email[k])
  {
  }

  // The candidate's name.

  /** Characters of `\w`. */
  predicate IsWordChar(c: char) { IsAsciiAlnum(c) || c == '_' }

  /** `\b` at `p`: a word character on exactly one side. */
  predicate WordBoundary(s: string, p: nat) {
    (0 < p <= |s| && IsWordChar(s[p - 1])) != (p < |s| && IsWordChar(s[p]))
  }

  /** `s[i:]` starts with `word`, ignoring case (`word` is in lowercase). */
  predicate StartsAtIgnoringCase(s: string, i: nat, word: string) {
    i + |word| <= |s| && Lower(s[i..i + |word|]) == word
  }

  /** The class `[:\s]`. */
  predicate IsLabelGap(c: char) { c == ':' || IsSpace(c) }

  /** `\bWORD\b[:\s]*`, ignoring case, tried at `i`: where the match ends. */
  function LabelWordAt(s: string, i: nat, word: string): (e: Option<nat>)
    requires |word| > 0
    ensures e.Some? ==> i + |word| <= e.value <= |s|
  {
    if WordBoundary(s, i) && StartsAtIgnoringCase(s, i, word) && WordBoundary(s, i + |word|)
    then Some(RunEnd(s, i + |word|, IsLabelGap))
    else None
  }

  /** `\b(Resume|Candidate)\b[:\s]*` with `re.IGNORECASE`, tried at `i`. */
  function LabelAt(s: string, i: nat): (e: Option<nat>)
    ensures e.Some? ==> i < e.value <= |s|
  {
    OrElse(LabelWordAt(s, i, "resume"), LabelWordAt(s, i, "candidate"))
  }

  /** `re.sub` of the label pattern by "" on `s[i:]`: each match deleted, scanning left to right. */
  function StripLabelsFrom(s: string, i: nat): (r: string)
    requires i <= |s|
    ensures |r| <= |s| - i
    ensures forall c :: c in r ==> c in s
    ensures (forall j :: i <= j < |s| ==> LabelAt(s, j).None?) ==> r == s[i..]
    ensures (exists j :: i <= j < |s| && LabelAt(s, j).Some?) ==> |r| < |s| - i
    decreases |s| - i
  {
    if i == |s| then []
    else match LabelAt(s, i)
      case Some(e) => StripLabelsFrom(s, e)
      case None =>
        var r := StripLabelsFrom(s, i + 1);
        LaterLabel(s, i);
        DropCons(s, i);
        [s[i]] + r
  }

  /** When no label starts at `i`, every label from `i` on starts after it. */
  lemma LaterLabel(s: string, i: nat)
    requires i < |s| && LabelAt(s, i).None?
    ensures (exists j :: i <= j < |s| && LabelAt(s, j).Some?) ==> exists j :: i + 1 <= j < |s| && LabelAt(s, j).Some?
  {
  }

  /**
   * `re.sub` removes the leftmost label and goes on after it: when the first label from `i`
   * starts at `j` and ends at `e`, the text before it is kept and the scan resumes at `e`.
   */
  lemma {:induction false} StripFirstLabel(s: string, i: nat, j: nat, e: nat)
    requires i <= j < |s| && LabelAt(s, j) == Some(e)
    requires forall k :: i <= k < j ==> LabelAt(s, k).None?
    ensures StripLabelsFrom(s, i) == s[i..j] + StripLabelsFrom(s, e)
    decreases j - i
  {
    if i < j {
      KeepUnlabelled(s, i);
      StripFirstLabel(s, i + 1, j, e);
      SliceCons(s, i, j);
      ConsAssoc(s[i], s[i + 1..j], StripLabelsFrom(s, e));
    } else {
      assert StripLabelsFrom(s, i) == StripLabelsFrom(s, e);
      assert s[i..j] == [];
    }
  }

  /** A character where no label starts is kept. */
  lemma KeepUnlabelled(s: string, i: nat)
    requires i < |s| && LabelAt(s, i).None?
    ensures StripLabelsFrom(s, i) == [s[i]] + StripLabelsFrom(s, i + 1)
  {
  }

  function StripLabels(text: string): string {
    StripLabelsFrom(text, 0)
  }

  /** `[A-Z][a-z]+`. */
  predicate CapitalizedWord(w: string) {
    |w| >= 2 && IsAsciiUpper(w[0]) && forall k :: 1 <= k < |w| ==> IsAsciiLower(w[k])
  }

  /** `[A-Z][a-z]+\s+[A-Z][a-z]+`: two capitalized words with whitespace between them. */
  predicate TwoNames(g: string) {
    exists p: nat, q: nat :: p < q <= |g| && CapitalizedWord(g[..p]) &&
      (forall k :: p <= k < q ==> IsSpace(g[k])) && CapitalizedWord(g[q..])
  }

  /**
   * `Name:\s*([A-Z][a-z]+\s+[A-Z][a-z]+)` tried at `i`: the span of the group. None of its
   * quantifiers can give characters back to let the rest match, so the first run of each is the
   * only one tried.
   */
  function NameLabelAt(s: string, i: nat): (g: Option<Span>)
    ensures g.Some? ==> i < g.value.start < g.value.end <= |s|
  {
    if !StartsAt(s, i, "Name:") then None
    else
      var w := RunEnd(s, i + 5, IsSpace);
      if w == |s| || !IsAsciiUpper(s[w]) then None
      else
        var e1 := RunEnd(s, w + 1, IsAsciiLower);
        if e1 == w + 1 then None
        else
          var e2 := RunEnd(s, e1, IsSpace);
          if e2 == e1 || e2 == |s| || !IsAsciiUpper(s[e2]) then None
          else
            var e3 := RunEnd(s, e2 + 1, IsAsciiLower);
            if e3 == e2 + 1 then None else Some(Span(w, e3))
  }

  /** The group of the label pattern is two capitalized words with whitespace between them. */
  lemma NameLabelShape(s: string, i: nat)
    requires NameLabelAt(s, i).Some?
    ensures var g := NameLabelAt(s, i).value; TwoNames(s[g.start..g.end])
  {
    var g := NameLabelAt(s, i).value;
    var w := g.start;
    var e1 := RunEnd(s, w + 1, IsAsciiLower);
    var e2 := RunEnd(s, e1, IsSpace);
    var t := s[g.start..g.end];
    assert t[..e1 - w] == s[w..e1];
    assert t[e2 - w..] == s[e2..g.end];
    assert CapitalizedWord(t[..e1 - w]);
    assert CapitalizedWord(t[e2 - w..]);
  }

  /** `w.istitle()`, scanned with whether the previous character was cased and whether any was. */
  predicate TitleScan(w: string, previousCased: bool, cased: bool)
    decreases |w|
  {
    if w == [] then cased
    else if IsAsciiUpper(w[0]) then !previousCased && TitleScan(w[1..], true, true)
    else if IsAsciiLower(w[0]) then previousCased && TitleScan(w[1..], true, true)
    else TitleScan(w[1..], false, cased)
  }

  /** `w.istitle()`: uppercase letters only after uncased characters, lowercase ones only after cased ones, and some letter. */
  predicate IsTitle(w: string) {
    TitleScan(w, false, false)
  }

  /** For a word of letters, `istitle()` means an uppercase letter followed by lowercase ones only. */
  lemma TitleOfLetters(w: string)
    requires forall k :: 0 <= k < |w| ==> IsAsciiLetter(w[k])
    ensures IsTitle(w) <==> |w| > 0 && IsAsciiUpper(w[0]) && forall k :: 1 <= k < |w| ==> IsAsciiLower(w[k])
  {
    if |w| > 0 && IsAsciiUpper(w[0]) {
      LowerTail(w[1..]);
      assert forall k :: 1 <= k < |w| ==> w[k] == w[1..][k - 1];
    }
  }

  /** After a cased character, a tail of letters keeps the word titled exactly when it is all lowercase. */
  lemma {:induction false} LowerTail(t: string)
    requires forall k :: 0 <= k < |t| ==> IsAsciiLetter(t[k])
    ensures TitleScan(t, true, true) <==> forall k :: 0 <= k < |t| ==> IsAsciiLower(t[k])
    decreases |t|
  {
    if t != [] {
      LowerTail(t[1..]);
      assert forall k :: 1 <= k < |t| ==> t[k] == t[1..][k - 1];
    }
  }

  /** The first `i` from `from` on with `words[i]` and `words[i + 1]` both title-cased. */
  function FirstTitlePair(words: seq<string>, from: nat): (r: Option<nat>)
    ensures r.Some? ==> from <= r.value && r.value + 1 < |words| && IsTitle(words[r.value]) && IsTitle(words[r.value + 1])
    ensures r.Some? ==> forall j :: from <= j < r.value ==> !(IsTitle(words[j]) && IsTitle(words[j + 1]))
    ensures r.None? <==> forall j :: from <= j && j + 1 < |words| ==> !(IsTitle(words[j]) && IsTitle(words[j + 1]))
    decreases |words| - from
  {
    if from + 1 >= |words| then None
    else if IsTitle(words[from]) && IsTitle(words[from + 1]) then Some(from)
    else FirstTitlePair(words, from + 1)
  }

  const UnknownName: string := "Unknown Candidate"

  /** The fallback of `extract_name`: the first title-cased pair of words, or "Unknown Candidate". */
  function FallbackName(words: seq<string>): (name: string)
    ensures name != []
  {
    match FirstTitlePair(words, 0)
    case Some(i) => words[i] + " " + words[i + 1]
    case None => UnknownName
  }

  /** `extract_name` once the labels are stripped: the labelled name, or else the fallback. */
  function NameIn(cleaned: string): (name: string)
    ensures name != []
  {
    match Search(cleaned, 0, NameLabelAt)
    case Some(h) => cleaned[h.group.start..h.group.end]
    case None => FallbackName(Words(cleaned))
  }

  /** `extract_name(text)`; never empty, so a caller's fallback for an empty name is never taken. */
  function NameOf(text: string): (name: string)
    ensures name != []
  {
    NameIn(StripLabels(text))
  }

  /** A "Name: First Last" label wins over the fallback: its two capitalized words are the name. */
  lemma LabelTakesPrecedence(cleaned: string)
    requires Search(cleaned, 0, NameLabelAt).Some?
    ensures var h := Search(cleaned, 0, NameLabelAt).value;
      NameIn(cleaned) == cleaned[h.group.start..h.group.end] && TwoNames(NameIn(cleaned))
  {
    var h := Search(cleaned, 0, NameLabelAt).value;
    NameLabelShape(cleaned, h.pos);
  }

  /** "Name: " and two capitalized words separated by a space: those two words are the name. */
  lemma NameLabelRequest(first: string, last: string)
    requires CapitalizedWord(first) && CapitalizedWord(last)
    ensures NameIn("Name: " + first + " " + last) == first + " " + last
  {
    var s := "Name: " + first + " " + last;
    assert s[6..|s|] == first + " " + last;
    NameLabelOf(first, last);
  }

  /** The label pattern at the start of "Name: " + `first` + " " + `last` takes both words as its group. */
  lemma NameLabelOf(first: string, last: string)
    requires CapitalizedWord(first) && CapitalizedWord(last)
    ensures var s := "Name: " + first + " " + last; NameLabelAt(s, 0) == Some(Span(6, |s|))
  {
    var s := "Name: " + first + " " + last;
    var gap := 6 + |first|;
    assert s[..5] == "Name:" && s[5] == ' ';
    assert s[6..gap] == first && s[gap] == ' ' && s[gap + 1..] == last;
    CapitalizedAt(s, 6, first);
    CapitalizedAt(s, gap + 1, last);
    NameLabelAtTwoWords(s, gap);
  }

  /** "Name:", one space, a capitalized word up to `gap`, one space and a capitalized word to the end: the group is both words. */
  lemma NameLabelAtTwoWords(s: string, gap: nat)
    requires 7 < gap && gap + 2 < |s|
    requires s[..5] == "Name:" && s[5] == ' ' && IsAsciiUpper(s[6]) && RunEnd(s, 7, IsAsciiLower) == gap
    requires s[gap] == ' ' && IsAsciiUpper(s[gap + 1]) && RunEnd(s, gap + 2, IsAsciiLower) == |s|
    ensures NameLabelAt(s, 0) == Some(Span(6, |s|))
  {
    assert StartsAt(s, 0, "Name:");
    RunEndAt(s, 5, 6, IsSpace);
    RunEndAt(s, gap, gap + 1, IsSpace);
  }

  /** A capitalized word standing at `i` and not followed by a lowercase letter: `[A-Z][a-z]+` takes all of it. */
  lemma CapitalizedAt(s: string, i: nat, w: string)
    requires CapitalizedWord(w) && i + |w| <= |s| && s[i..i + |w|] == w
    requires i + |w| == |s| || !IsAsciiLower(s[i + |w|])
    ensures IsAsciiUpper(s[i]) && RunEnd(s, i + 1, IsAsciiLower) == i + |w|
  {
    assert forall k :: i <= k < i + |w| ==> s[k] == w[k - i];
    RunEndAt(s, i + 1, i + |w|, IsAsciiLower);
  }

  /** The fallback is the first pair of adjacent title-cased words, joined by one space. */
  lemma FallbackFirstPair(words: seq<string>, i: nat)
    requires i + 1 < |words| && IsTitle(words[i]) && IsTitle(words[i + 1])
    requires forall j :: 0 <= j < i ==> !(IsTitle(words[j]) && IsTitle(words[j + 1]))
    ensures FallbackName(words) == words[i] + " " + words[i + 1]
  {
  }

  /** With no title-cased pair, the fallback is "Unknown Candidate". */
  lemma NoPairUnknown(words: seq<string>)
    requires forall j :: 0 <= j && j + 1 < |words| ==> !(IsTitle(words[j]) && IsTitle(words[j + 1]))
    ensures FallbackName(words) == UnknownName
  {
  }

  /** The fallback loop of `extract_name`: returns at the first title-cased pair. */
  method FallbackScan(words: seq<string>) returns (name: string)
    ensures name == FallbackName(words)
  {
    var i := 0;
    while i + 1 < |words|
      invariant FirstTitlePair(words, i) == FirstTitlePair(words, 0)
    {
      if IsTitle(words[i]) && IsTitle(words[i + 1]) {
        return words[i] + " " + words[i + 1];
      }
      i := i + 1;
    }
    return UnknownName;
  }

  /** `extract_name(text)`: strips the labels, searches for "Name:", then scans the words. */
  method ExtractName(text: string) returns (name: string)
    ensures name == NameOf(text)
  {
    var cleaned := StripLabels(text);
    var m := Search(cleaned, 0, NameLabelAt);
    if m.Some? {
      return cleaned[m.value.group.start..m.value.group.end];
    }
    name := FallbackScan(Words(cleaned));
  }
}
