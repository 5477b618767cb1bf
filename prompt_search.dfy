/**
 * `find_candidate_by_name` and `search_candidates` (hr_prompt_search.py) over an in-memory copy
 * of the `semantic_data` table. The sentence-embedding similarity, the fuzzy name matcher and the
 * summarizer are services the caller supplies; everything else the search does is modelled.
 */
module PromptSearch {
  import opened Optional
  import opened Text
  import opened StableSort
  import PromptText
  import opened PromptPatterns

  /** A row of `semantic_data`: `(name, email, cv_text, job_role)`. */
  datatype SemanticRow = SemanticRow(name: string, email: string, cvText: string, jobRole: string)

  /** The dictionary reported for a candidate. */
  datatype SearchResult = SearchResult(name: string, email: string, skillsAndExperience: string, techStack: string)

  /** `(results, None)` or `(None, message)`. */
  datatype Outcome = Found(results: seq<SearchResult>) | Failed(message: string)

  /**
   * The services the search relies on:
   * `similarity(a, b)` is the cosine similarity of the sentence embeddings of `a` and `b`;
   * `closeMatch(q, names)` is the single match of `get_close_matches(q, names, n=1, cutoff=0.6)`, if any;
   * `summarize(t)` is the summarizer's text for `t`, or `None` when the pipeline raises.
   */
  datatype Services = Services(
    similarity: (string, string) -> real,
    closeMatch: (string, seq<string>) -> Option<string>,
    summarize: string -> Option<string>)

  /** How much of a CV the summarizer is given. */
  const SummaryInputLimit: nat := 1024

  const SummaryFallback: string := "Summary not available."

  /** Candidates whose role is less similar than this to the job filter are skipped. */
  const RoleSimilarityThreshold: real := 0.5

  /** `summarize_text(text)`: the summary of the first 1024 characters, or the fallback when summarizing fails. */
  function SummarizeText(svc: Services, text: string): (r: string)
    ensures svc.summarize(Prefix(text, SummaryInputLimit)).Some? ==> r == svc.summarize(Prefix(text, SummaryInputLimit)).value
    ensures svc.summarize(Prefix(text, SummaryInputLimit)).None? ==> r == SummaryFallback
  {
    match svc.summarize(Prefix(text, SummaryInputLimit))
    case Some(summary) => summary
    case None => SummaryFallback
  }

  /** The summarizer only ever sees the first 1024 characters: texts that agree on those get the same summary. */
  lemma SummaryReadsPrefix(svc: Services, a: string, b: string)
    requires |a| >= SummaryInputLimit && |b| >= SummaryInputLimit
    requires a[..SummaryInputLimit] == b[..SummaryInputLimit]
    ensures SummarizeText(svc, a) == SummarizeText(svc, b)
  {
    assert Prefix(a, SummaryInputLimit) == Prefix(b, SummaryInputLimit);
  }

  /** The dictionary built for a record. */
  function ResultOf(svc: Services, row: SemanticRow): SearchResult {
    SearchResult(row.name, row.email, SummarizeText(svc, row.cvText), PromptText.TechStack(row.cvText))
  }

  /** `[n.lower() for n in names]`. */
  function LowerNames(data: seq<SemanticRow>): (names: seq<string>)
    ensures |names| == |data| && forall k :: 0 <= k < |data| ==> names[k] == Lower(data[k].name)
  {
    seq(|data|, k requires 0 <= k < |data| => Lower(data[k].name))
  }

  /** The first record from `i` on whose lowered name contains `m`. */
  function FirstNameHit(data: seq<SemanticRow>, m: string, i: nat): (r: Option<nat>)
    requires i <= |data|
    ensures r.Some? ==> i <= r.value < |data| && Occurs(m, Lower(data[r.value].name))
    ensures r.Some? ==> forall j :: i <= j < r.value ==> !Occurs(m, Lower(data[j].name))
    ensures r.None? <==> forall j :: i <= j < |data| ==> !Occurs(m, Lower(data[j].name))
    decreases |data| - i
  {
    if i == |data| then None
    else if Occurs(m, Lower(data[i].name)) then Some(i)
    else FirstNameHit(data, m, i + 1)
  }

  /** The first record, in store order, whose lowered name contains the one fuzzy match of the query. */
  function FindIndexByName(svc: Services, nameQuery: string, data: seq<SemanticRow>): (r: Option<nat>)
    ensures r.Some? ==> r.value < |data|
  {
    match svc.closeMatch(Lower(nameQuery), LowerNames(data))
    case None => None
    case Some(m) => FirstNameHit(data, m, 0)
  }

  /** `find_candidate_by_name(name_query, data)`. */
  function FindByName(svc: Services, nameQuery: string, data: seq<SemanticRow>): Option<SearchResult> {
    match FindIndexByName(svc, nameQuery, data)
    case None => None
    case Some(k) => Some(ResultOf(svc, data[k]))
  }

  /**
   * The candidate found is the first record, in store order, whose lowered name contains the
   * fuzzy match; there is none when the matcher finds nothing or no name contains its match.
   */
  lemma FindByNameFirst(svc: Services, nameQuery: string, data: seq<SemanticRow>)
    ensures var matched := svc.closeMatch(Lower(nameQuery), LowerNames(data));
      FindIndexByName(svc, nameQuery, data).Some? <==>
        matched.Some? && exists k :: 0 <= k < |data| && Occurs(matched.value, Lower(data[k].name))
    ensures var matched := svc.closeMatch(Lower(nameQuery), LowerNames(data));
      forall k :: FindIndexByName(svc, nameQuery, data) == Some(k) ==>
        && matched.Some? && k < |data| && Occurs(matched.value, Lower(data[k].name))
        && (forall j :: 0 <= j < k ==> !Occurs(matched.value, Lower(data[j].name)))
  {
  }

  /** A record whose name holds the match, with none before it, is the first hit. */
  lemma FirstNameHitAt(data: seq<SemanticRow>, m: string, i: nat)
    requires i < |data| && Occurs(m, Lower(data[i].name))
    requires forall j :: 0 <= j < i ==> !Occurs(m, Lower(data[j].name))
    ensures FirstNameHit(data, m, 0) == Some(i)
  {
  }

  /** Every string occurs in itself. */
  lemma OccursSelf(s: string)
    ensures Occurs(s, s)
  {
    assert StartsAt(s, 0, s) by { assert s[0..|s|] == s; }
  }

  /**
   * `get_close_matches` returns one of the names it is given, and every name contains itself,
   * so once the matcher has found a name the lookup finds a candidate: the final `return None`
   * of `find_candidate_by_name` is reached only when the matcher finds nothing.
   */
  lemma MatchedNameFound(svc: Services, nameQuery: string, data: seq<SemanticRow>)
    requires var matched := svc.closeMatch(Lower(nameQuery), LowerNames(data));
      matched.Some? && matched.value in LowerNames(data)
    ensures FindByName(svc, nameQuery, data).Some?
  {
    var m := svc.closeMatch(Lower(nameQuery), LowerNames(data)).value;
    var names := LowerNames(data);
    var k :| 0 <= k < |names| && names[k] == m;
    OccursSelf(m);
    assert Occurs(m, Lower(data[k].name));
  }

  /** The dictionary for a record, built as the source builds it. */
  method MakeResult(svc: Services, row: SemanticRow) returns (result: SearchResult)
    ensures result == ResultOf(svc, row)
  {
    var stack := PromptText.ExtractTechStack(row.cvText);
    result := SearchResult(row.name, row.email, SummarizeText(svc, row.cvText), stack);
  }

  /** `find_candidate_by_name`: a scan of the records that returns at the first hit. */
  method FindCandidateByName(svc: Services, nameQuery: string, data: seq<SemanticRow>) returns (result: Option<SearchResult>)
    ensures result == FindByName(svc, nameQuery, data)
  {
    var matches := svc.closeMatch(Lower(nameQuery), LowerNames(data));
    if matches.None? {
      return None;
    }
    var m := matches.value;
    for i := 0 to |data|
      invariant forall j :: 0 <= j < i ==> !Occurs(m, Lower(data[j].name))
    {
      if Occurs(m, Lower(data[i].name)) {
        FirstNameHitAt(data, m, i);
        var found := MakeResult(svc, data[i]);
        return Some(found);
      }
    }
    return None;
  }

  // Filtering and ranking.

  /** A record that passed the filters, with the similarity of its CV to the prompt. */
  datatype Scored = Scored(row: SemanticRow, similarity: real)

  function Similarity(x: Scored): real { x.similarity }

  /** Whether a record passes the role filter (when there is one) and the skill filter. */
  predicate Passes(svc: Services, row: SemanticRow, jobFilter: Option<string>, skills: seq<string>) {
    && (jobFilter.Some? && jobFilter.value != [] ==> svc.similarity(jobFilter.value, row.jobRole) >= RoleSimilarityThreshold)
    && forall k :: 0 <= k < |skills| ==> Occurs(skills[k], PromptText.CleanText(row.cvText))
  }

  /** `results` after the filter loop: the records that pass, in store order, each with its similarity to the prompt. */
  function Candidates(svc: Services, data: seq<SemanticRow>, promptClean: string, jobFilter: Option<string>, skills: seq<string>): seq<Scored> {
    if data == [] then []
    else
      var row := data[|data| - 1];
      Candidates(svc, data[..|data| - 1], promptClean, jobFilter, skills) +
        (if Passes(svc, row, jobFilter, skills) then [Scored(row, svc.similarity(promptClean, row.cvText))] else [])
  }

  /**
   * The candidates are exactly the records that pass the filters, each scored by the similarity
   * of its CV to the prompt.
   */
  lemma {:induction false} CandidatesSpec(svc: Services, data: seq<SemanticRow>, promptClean: string, jobFilter: Option<string>, skills: seq<string>)
    ensures var r := Candidates(svc, data, promptClean, jobFilter, skills);
      && |r| <= |data|
      && (forall k :: 0 <= k < |r| ==> r[k].row in data && Passes(svc, r[k].row, jobFilter, skills))
      && (forall k :: 0 <= k < |r| ==> r[k].similarity == svc.similarity(promptClean, r[k].row.cvText))
      && (forall row :: row in data && Passes(svc, row, jobFilter, skills) ==>
        Scored(row, svc.similarity(promptClean, row.cvText)) in r)
    decreases |data|
  {
    if data != [] {
      var init := data[..|data| - 1];
      var row := data[|data| - 1];
      assert data == init + [row];
      CandidatesSpec(svc, init, promptClean, jobFilter, skills);
    }
  }

  /** The emails of a list of scored records. */
  function Emails(s: seq<Scored>): set<string> {
    set k | 0 <= k < |s| :: s[k].row.email
  }

  lemma EmailsSnoc(s: seq<Scored>, x: Scored)
    ensures Emails(s + [x]) == Emails(s) + {x.row.email}
  {
    var t := s + [x];
    assert forall k :: 0 <= k < |s| ==> t[k] == s[k];
    assert t[|s|] == x;
  }

  /** No two entries share an email. */
  predicate DistinctEmails(s: seq<Scored>) {
    forall i, j :: 0 <= i < j < |s| ==> s[i].row.email != s[j].row.email
  }

  /** The dedup loop without its cutoff: each email's first entry, in order. */
  function Dedup(s: seq<Scored>): (d: seq<Scored>)
    ensures |d| <= |s|
    ensures forall x :: x in d ==> x in s
    ensures Emails(d) == Emails(s)
    ensures DistinctEmails(d)
  {
    if s == [] then []
    else
      var init := s[..|s| - 1];
      var last := s[|s| - 1];
      var d := Dedup(init);
      assert s == init + [last];
      EmailsSnoc(init, last);
      EmailsSnoc(d, last);
      if last.row.email in Emails(d) then d else d + [last]
  }

  /** Where an email first appears. */
  function FirstWithEmail(s: seq<Scored>, e: string): (i: nat)
    requires e in Emails(s)
    ensures i < |s| && s[i].row.email == e
    ensures forall j :: 0 <= j < i ==> s[j].row.email != e
  {
    if s[0].row.email == e then 0
    else
      var k :| 0 <= k < |s| && s[k].row.email == e;
      assert s[1..][k - 1].row.email == e;
      1 + FirstWithEmail(s[1..], e)
  }

  /** Each entry kept by `Dedup` is the first entry of `s` with its email. */
  lemma {:induction false} DedupFirst(s: seq<Scored>, k: nat)
    requires k < |Dedup(s)|
    ensures Dedup(s)[k].row.email in Emails(s)
    ensures Dedup(s)[k] == s[FirstWithEmail(s, Dedup(s)[k].row.email)]
    decreases |s|
  {
    var init := s[..|s| - 1];
    var last := s[|s| - 1];
    var d := Dedup(init);
    assert s == init + [last];
    EmailsSnoc(init, last);
    var x := Dedup(s)[k];
    assert x in Dedup(s);
    if k < |d| {
      assert x == d[k];
      DedupFirst(init, k);
      var i := FirstWithEmail(init, x.row.email);
      assert s[i] == init[i];
      FirstWithEmailUnique(s, x.row.email, i);
    } else {
      assert x == last && last.row.email !in Emails(d);
      assert forall j :: 0 <= j < |init| ==> init[j].row.email in Emails(init);
      FirstWithEmailUnique(s, x.row.email, |s| - 1);
    }
  }

  /** The first index with an email is the one before which no entry has it. */
  lemma FirstWithEmailUnique(s: seq<Scored>, e: string, i: nat)
    requires i < |s| && s[i].row.email == e
    requires forall j :: 0 <= j < i ==> s[j].row.email != e
    ensures e in Emails(s) && FirstWithEmail(s, e) == i
  {
    assert s[i].row.email in Emails(s);
  }

  /** What `Dedup` keeps from a prefix is a prefix of what it keeps from the whole. */
  lemma {:induction false} DedupPrefix(s: seq<Scored>, i: nat)
    requires i <= |s|
    ensures |Dedup(s[..i])| <= |Dedup(s)|
    ensures Dedup(s[..i]) == Dedup(s)[..|Dedup(s[..i])|]
    decreases |s|
  {
    if i < |s| {
      var init := s[..|s| - 1];
      assert s[..i] == init[..i];
      DedupPrefix(init, i);
    } else {
      assert s[..i] == s;
    }
  }

  /** Dropping entries keeps a descending order descending. */
  lemma {:induction false} DedupSorted(s: seq<Scored>)
    requires SortedDesc(s, Similarity)
    ensures SortedDesc(Dedup(s), Similarity)
    decreases |s|
  {
    if s != [] {
      var init := s[..|s| - 1];
      var last := s[|s| - 1];
      var d := Dedup(init);
      DedupSorted(init);
      forall x | x in d ensures Similarity(x) >= Similarity(last) {
        var j :| 0 <= j < |init| && init[j] == x;
        assert s[j] == x;
      }
    }
  }

  /** The candidates reported: sorted by descending similarity, deduplicated by email, cut to `topN`. */
  function Picked(candidates: seq<Scored>, topN: nat): seq<Scored> {
    Prefix(Dedup(Sort(candidates, Similarity)), topN)
  }

  /** The picked candidates are at most `topN`, of distinct emails, in descending similarity, all from the candidates. */
  lemma PickedProperties(candidates: seq<Scored>, topN: nat)
    ensures var p := Picked(candidates, topN);
      && |p| <= topN
      && DistinctEmails(p)
      && SortedDesc(p, Similarity)
      && forall x :: x in p ==> x in candidates
  {
    var sorted := Sort(candidates, Similarity);
    var d := Dedup(sorted);
    DedupSorted(sorted);
    var p := Picked(candidates, topN);
    assert p == d[..|p|];
    forall x | x in p ensures x in candidates {
      assert x in d;
      assert x in multiset(sorted);
    }
  }

  /** Each picked candidate is the best-ranked entry of its email: its first occurrence in the sorted candidates. */
  lemma PickedFirstOccurrence(candidates: seq<Scored>, topN: nat, k: nat)
    requires k < |Picked(candidates, topN)|
    ensures var sorted := Sort(candidates, Similarity);
      var x := Picked(candidates, topN)[k];
      x.row.email in Emails(sorted) && x == sorted[FirstWithEmail(sorted, x.row.email)]
  {
    var sorted := Sort(candidates, Similarity);
    assert Picked(candidates, topN)[k] == Dedup(sorted)[k];
    DedupFirst(sorted, k);
  }

  /** With no two entries sharing an email, a list has as many entries as emails. */
  lemma {:induction false} DistinctEmailsCount(s: seq<Scored>)
    requires DistinctEmails(s)
    ensures |Emails(s)| == |s|
    decreases |s|
  {
    if s != [] {
      var init := s[..|s| - 1];
      var last := s[|s| - 1];
      assert s == init + [last];
      EmailsSnoc(init, last);
      assert forall k :: 0 <= k < |init| ==> init[k] == s[k];
      assert DistinctEmails(init);
      DistinctEmailsCount(init);
      assert last.row.email !in Emails(init);
    }
  }

  /** Every entry of `a` being one of `b`, the emails of `a` are among those of `b`. */
  lemma EmailsIncluded(a: seq<Scored>, b: seq<Scored>)
    requires forall x :: x in a ==> x in b
    ensures Emails(a) <= Emails(b)
  {
    forall e | e in Emails(a) ensures e in Emails(b) {
      var k :| 0 <= k < |a| && a[k].row.email == e;
      assert a[k] in a;
      var j :| 0 <= j < |b| && b[j] == a[k];
    }
  }

  /** As many candidates are picked as `topN` allows, up to one per email among the candidates. */
  lemma PickedCount(candidates: seq<Scored>, topN: nat)
    ensures var e := |Emails(candidates)|;
      |Picked(candidates, topN)| == if topN < e then topN else e
  {
    var sorted := Sort(candidates, Similarity);
    forall x | x in sorted ensures x in candidates {
      assert x in multiset(sorted);
    }
    forall x | x in candidates ensures x in sorted {
      assert x in multiset(candidates);
    }
    EmailsIncluded(sorted, candidates);
    EmailsIncluded(candidates, sorted);
    var d := Dedup(sorted);
    DistinctEmailsCount(d);
    assert Emails(d) == Emails(candidates);
    assert |d| == |Emails(candidates)|;
    assert Picked(candidates, topN) == Prefix(d, topN);
  }

  /**
   * Best first: a candidate whose email was not picked was left out by a full list, and every
   * picked entry is at least as similar to the prompt as it.
   */
  lemma PickedBest(candidates: seq<Scored>, topN: nat, x: Scored)
    requires x in candidates && x.row.email !in Emails(Picked(candidates, topN))
    ensures |Picked(candidates, topN)| == topN
    ensures forall y :: y in Picked(candidates, topN) ==> y.similarity >= x.similarity
  {
    var sorted := Sort(candidates, Similarity);
    assert x in multiset(sorted);
    DedupBest(sorted, topN, x);
  }

  /** `PickedBest` over an already sorted list. */
  lemma DedupBest(s: seq<Scored>, n: nat, x: Scored)
    requires SortedDesc(s, Similarity) && x in s
    requires x.row.email !in Emails(Prefix(Dedup(s), n))
    ensures |Prefix(Dedup(s), n)| == n
    ensures forall y :: y in Prefix(Dedup(s), n) ==> y.similarity >= x.similarity
  {
    var d := Dedup(s);
    var p := Prefix(d, n);
    var jx :| 0 <= jx < |s| && s[jx] == x;
    assert x.row.email in Emails(s);
    var m :| 0 <= m < |d| && d[m].row.email == x.row.email;
    assert forall k :: 0 <= k < |p| ==> p[k] == d[k] && p[k].row.email in Emails(p);
    assert |p| <= m;
    DedupFirst(s, m);
    var f := FirstWithEmail(s, x.row.email);
    assert f <= jx;
    SortedAt(s, f, jx);
    DedupSorted(s);
    forall y | y in p ensures y.similarity >= x.similarity {
      var i :| 0 <= i < |p| && p[i] == y;
      SortedAt(d, i, m);
    }
  }

  lemma SortedAt(s: seq<Scored>, i: nat, j: nat)
    requires SortedDesc(s, Similarity) && i <= j < |s|
    ensures s[i].similarity >= s[j].similarity
  {
    if i < j {
      assert Similarity(s[i]) >= Similarity(s[j]);
    }
  }

  /** The dictionaries of a list of scored records. */
  function ResultsOf(svc: Services, s: seq<Scored>): (r: seq<SearchResult>)
    ensures |r| == |s| && forall k :: 0 <= k < |s| ==> r[k] == ResultOf(svc, s[k].row)
  {
    seq(|s|, k requires 0 <= k < |s| => ResultOf(svc, s[k].row))
  }

  lemma ResultsOfSnoc(svc: Services, s: seq<Scored>, x: Scored)
    ensures ResultsOf(svc, s + [x]) == ResultsOf(svc, s) + [ResultOf(svc, x.row)]
  {
  }

  /** Cutting the dictionaries of a prefix that already holds `n` entries, or of the whole, cuts the whole. */
  lemma ResultsOfPrefix(svc: Services, a: seq<Scored>, b: seq<Scored>, n: nat)
    requires |a| <= |b| && a == b[..|a|]
    requires |a| >= n || a == b
    ensures Prefix(ResultsOf(svc, a), n) == ResultsOf(svc, Prefix(b, n))
  {
  }

  /**
   * The message when no record passes the filters: when a role or a skill was asked for, it
   * names the role and lists the skills; otherwise it is the generic message.
   */
  function NoMatchMessage(jobFilter: Option<string>, skills: seq<string>): (r: string)
    ensures (jobFilter.Some? && jobFilter.value != []) || skills != [] ==>
      && Occurs(Join(skills, ", "), r)
      && (jobFilter.Some? ==> Occurs(jobFilter.value, r))
      && (jobFilter.None? ==> Occurs("role 'None'", r))
    ensures !((jobFilter.Some? && jobFilter.value != []) || skills != []) ==> r == "No candidates matched the prompt."
  {
    if (jobFilter.Some? && jobFilter.value != []) || skills != [] then
      var role := match jobFilter case None => "None" case Some(f) => f;
      var listing := Join(skills, ", ");
      MessageQuotes(role, listing);
      "No matching candidates found for role '" + role + "' with skills '" + listing + "'."
    else "No candidates matched the prompt."
  }

  /** The filter message quotes the role, as `role '<role>'`, and the skill listing. */
  lemma MessageQuotes(role: string, listing: string)
    ensures var r := "No matching candidates found for role '" + role + "' with skills '" + listing + "'.";
      Occurs(role, r) && Occurs(listing, r) && (role == "None" ==> Occurs("role 'None'", r))
  {
    var pre := "No matching candidates found for ";
    var head := "No matching candidates found for role '" + role + "' with skills '";
    assert head == (pre + "role '") + role + "' with skills '";
    assert head == pre + ("role '" + role + "'") + " with skills '";
    MessageNames(head, pre + "role '", role, listing, "'.");
    MessageNames(head, pre, "role '" + role + "'", listing, "'.");
    assert "role '" + "None" + "'" == "role 'None'";
  }

  /** Both parts quoted in a message of the form `pre + role + ... + listing + post` occur in it. */
  lemma MessageNames(head: string, pre: string, role: string, listing: string, post: string)
    requires |pre + role| <= |head| && head[..|pre + role|] == pre + role
    ensures Occurs(role, head + listing + post) && Occurs(listing, head + listing + post)
  {
    var r := head + listing + post;
    assert (pre + role)[|pre|..] == role;
    assert r[..|pre + role|] == head[..|pre + role|];
    assert r[|pre|..|pre| + |role|] == (pre + role)[|pre|..];
    OccursAt(role, r, |pre|);
    assert r[|head|..|head| + |listing|] == listing;
    OccursAt(listing, r, |head|);
  }

  const NoDataMessage: string := "No candidate data found."

  function NotFoundMessage(nameQuery: string): string {
    "No candidate matching '" + nameQuery + "' found."
  }

  /** How a non-empty store answers the intent read from the cleaned prompt. */
  function Answer(svc: Services, promptClean: string, intent: Intent, data: seq<SemanticRow>): Outcome {
    match intent
    case SummarizeOne(q) =>
      (match FindByName(svc, q, data)
       case Some(r) => Found([r])
       case None => Failed(NotFoundMessage(q)))
    case FilterRank(topN, jobFilter, skills) =>
      var candidates := Candidates(svc, data, promptClean, jobFilter, skills);
      if candidates == [] then Failed(NoMatchMessage(jobFilter, skills))
      else Found(ResultsOf(svc, Picked(candidates, topN)))
  }

  /** What `search_candidates(prompt)` returns for the records `data`. */
  function Search(svc: Services, prompt: string, data: seq<SemanticRow>): Outcome {
    if data == [] then Failed(NoDataMessage)
    else
      var promptClean := PromptText.CleanText(prompt);
      Answer(svc, promptClean, ParseIntent(promptClean), data)
  }

  /** Without records the search fails with "No candidate data found.". */
  lemma SearchEmptyStore(svc: Services, prompt: string)
    ensures Search(svc, prompt, []) == Failed(NoDataMessage)
  {
  }

  /**
   * A summarize request is answered by one candidate or by a "No candidate matching" message,
   * whatever the rest of the prompt says: the filter and rank path is not taken.
   */
  lemma SummarizePrecedence(svc: Services, prompt: string, data: seq<SemanticRow>)
    requires data != []
    requires NameQuery(PromptText.CleanText(prompt)).Some?
    ensures var q := NameQuery(PromptText.CleanText(prompt)).value;
      match Search(svc, prompt, data)
      case Found(rs) => rs == [FindByName(svc, q, data).value]
      case Failed(message) => message == NotFoundMessage(q) && FindByName(svc, q, data).None?
  {
  }

  /** When no record passes the filters, the search fails with the message naming the role and the skills. */
  lemma SearchNoCandidates(svc: Services, prompt: string, data: seq<SemanticRow>)
    requires data != []
    requires ParseIntent(PromptText.CleanText(prompt)).FilterRank?
    ensures var intent := ParseIntent(PromptText.CleanText(prompt));
      (forall row :: row in data ==> !Passes(svc, row, intent.jobFilter, intent.skills)) <==>
        Search(svc, prompt, data) == Failed(NoMatchMessage(intent.jobFilter, intent.skills))
  {
    var p := PromptText.CleanText(prompt);
    AnswerNoCandidates(svc, p, ParseIntent(p), data);
  }

  /** A filter intent fails with the no-match message exactly when no record passes its filters. */
  lemma AnswerNoCandidates(svc: Services, p: string, intent: Intent, data: seq<SemanticRow>)
    requires intent.FilterRank?
    ensures (forall row :: row in data ==> !Passes(svc, row, intent.jobFilter, intent.skills)) <==>
      Answer(svc, p, intent, data) == Failed(NoMatchMessage(intent.jobFilter, intent.skills))
  {
    var c := Candidates(svc, data, p, intent.jobFilter, intent.skills);
    CandidatesSpec(svc, data, p, intent.jobFilter, intent.skills);
    if c != [] {
      assert c[0].row in data;
    }
  }

  /** The emails of the records that pass the role and skill filters. */
  function PassingEmails(svc: Services, data: seq<SemanticRow>, jobFilter: Option<string>, skills: seq<string>): set<string> {
    set row | row in data && Passes(svc, row, jobFilter, skills) :: row.email
  }

  /** The candidates carry exactly the emails of the records that pass. */
  lemma CandidateEmails(svc: Services, data: seq<SemanticRow>, promptClean: string, jobFilter: Option<string>, skills: seq<string>)
    ensures Emails(Candidates(svc, data, promptClean, jobFilter, skills)) == PassingEmails(svc, data, jobFilter, skills)
  {
    var c := Candidates(svc, data, promptClean, jobFilter, skills);
    CandidatesSpec(svc, data, promptClean, jobFilter, skills);
    forall e | e in PassingEmails(svc, data, jobFilter, skills) ensures e in Emails(c) {
      var row :| row in data && Passes(svc, row, jobFilter, skills) && row.email == e;
      var j :| 0 <= j < |c| && c[j] == Scored(row, svc.similarity(promptClean, row.cvText));
    }
  }

  /**
   * What a filter request promises of its results: `topN` of them, or one per passing email when
   * fewer emails pass, no two with the same email, and each the dictionary of a record that
   * passes the role and skill filters.
   */
  predicate RankedResults(svc: Services, rs: seq<SearchResult>, intent: Intent, data: seq<SemanticRow>)
    requires intent.FilterRank?
  {
    && (var e := |PassingEmails(svc, data, intent.jobFilter, intent.skills)|;
        |rs| == if intent.topN < e then intent.topN else e)
    && (forall i, j :: 0 <= i < j < |rs| ==> rs[i].email != rs[j].email)
    && forall k :: 0 <= k < |rs| ==>
      exists row :: row in data && Passes(svc, row, intent.jobFilter, intent.skills) && rs[k] == ResultOf(svc, row)
  }

  lemma {:induction false} AnswerResults(svc: Services, promptClean: string, intent: Intent, data: seq<SemanticRow>)
    requires intent.FilterRank? && Answer(svc, promptClean, intent, data).Found?
    ensures RankedResults(svc, Answer(svc, promptClean, intent, data).results, intent, data)
  {
    var c := Candidates(svc, data, promptClean, intent.jobFilter, intent.skills);
    CandidatesSpec(svc, data, promptClean, intent.jobFilter, intent.skills);
    var picked := Picked(c, intent.topN);
    PickedProperties(c, intent.topN);
    PickedCount(c, intent.topN);
    CandidateEmails(svc, data, promptClean, intent.jobFilter, intent.skills);
    var rs := ResultsOf(svc, picked);
    assert Answer(svc, promptClean, intent, data).results == rs;
    forall k | 0 <= k < |rs|
      ensures exists row :: row in data && Passes(svc, row, intent.jobFilter, intent.skills) && rs[k] == ResultOf(svc, row)
    {
      assert picked[k] in picked;
      var j :| 0 <= j < |c| && c[j] == picked[k];
      assert c[j].row in data;
    }
  }

  /** The results of a filter request keep the promises of `RankedResults`. */
  lemma SearchResults(svc: Services, prompt: string, data: seq<SemanticRow>)
    requires ParseIntent(PromptText.CleanText(prompt)).FilterRank?
    requires Search(svc, prompt, data).Found?
    ensures RankedResults(svc, Search(svc, prompt, data).results, ParseIntent(PromptText.CleanText(prompt)), data)
  {
    var p := PromptText.CleanText(prompt);
    AnswerResults(svc, p, ParseIntent(p), data);
  }

  /** `top_n = 0` gives an empty list, not an error, once some record passes. */
  lemma SearchZeroTop(svc: Services, prompt: string, data: seq<SemanticRow>)
    requires data != []
    requires ParseIntent(PromptText.CleanText(prompt)).FilterRank?
    requires ParseIntent(PromptText.CleanText(prompt)).topN == 0
    requires Candidates(svc, data, PromptText.CleanText(prompt),
      ParseIntent(PromptText.CleanText(prompt)).jobFilter, ParseIntent(PromptText.CleanText(prompt)).skills) != []
    ensures Search(svc, prompt, data) == Found([])
  {
    var p := PromptText.CleanText(prompt);
    AnswerZeroTop(svc, p, ParseIntent(p), data);
  }

  lemma AnswerZeroTop(svc: Services, promptClean: string, intent: Intent, data: seq<SemanticRow>)
    requires intent.FilterRank? && intent.topN == 0
    requires Candidates(svc, data, promptClean, intent.jobFilter, intent.skills) != []
    ensures Answer(svc, promptClean, intent, data) == Found([])
  {
    assert Picked(Candidates(svc, data, promptClean, intent.jobFilter, intent.skills), 0) == [];
  }


  // The search as the source performs it.

  /** The filter loop of `search_candidates`. */
  method CollectCandidates(svc: Services, data: seq<SemanticRow>, promptClean: string, jobFilter: Option<string>, requiredSkills: seq<string>)
    returns (results: seq<Scored>)
    ensures results == Candidates(svc, data, promptClean, jobFilter, requiredSkills)
  {
    results := [];
    for i := 0 to |data|
      invariant results == Candidates(svc, data[..i], promptClean, jobFilter, requiredSkills)
    {
      CandidatesStep(svc, data, promptClean, jobFilter, requiredSkills, i);
      var row := data[i];
      if jobFilter.Some? && jobFilter.value != [] {
        var roleSimilarity := svc.similarity(jobFilter.value, row.jobRole);
        if roleSimilarity < RoleSimilarityThreshold {
          continue;
        }
      }
      if requiredSkills != [] {
        var cvClean := PromptText.CleanText(row.cvText);
        if !(forall k :: 0 <= k < |requiredSkills| ==> Occurs(requiredSkills[k], cvClean)) {
          continue;
        }
      }
      var similarity := svc.similarity(promptClean, row.cvText);
      results := results + [Scored(row, similarity)];
    }
    assert data[..|data|] == data;
  }

  /** One step of the filter loop: the record at `i` is added exactly when it passes. */
  lemma CandidatesStep(svc: Services, data: seq<SemanticRow>, promptClean: string, jobFilter: Option<string>, skills: seq<string>, i: nat)
    requires i < |data|
    ensures Candidates(svc, data[..i + 1], promptClean, jobFilter, skills) ==
      Candidates(svc, data[..i], promptClean, jobFilter, skills) +
        (if Passes(svc, data[i], jobFilter, skills) then [Scored(data[i], svc.similarity(promptClean, data[i].cvText))] else [])
  {
    assert data[..i + 1][..i] == data[..i];
  }

  /** One step of the dedup loop: an entry is kept exactly when its email has not been kept before. */
  lemma DedupStep(s: seq<Scored>, i: nat)
    requires i < |s|
    ensures Dedup(s[..i + 1]) ==
      if s[i].row.email in Emails(Dedup(s[..i])) then Dedup(s[..i]) else Dedup(s[..i]) + [s[i]]
  {
    assert s[..i + 1][..i] == s[..i];
  }

  /** Leaving the dedup loop, at the end or with `topN` kept, leaves the first `topN` kept entries' dictionaries. */
  lemma TopResultsExit(svc: Services, ranked: seq<Scored>, topN: nat, i: nat, kept: seq<Scored>)
    requires i <= |ranked| && kept == Dedup(ranked[..i])
    requires i == |ranked| || |kept| >= topN
    ensures Prefix(ResultsOf(svc, kept), topN) == ResultsOf(svc, Prefix(Dedup(ranked), topN))
  {
    assert i == |ranked| ==> ranked[..i] == ranked;
    DedupPrefix(ranked, i);
    ResultsOfPrefix(svc, kept, Dedup(ranked), topN);
  }

  /** The dedup loop of `search_candidates`: skips emails already seen and stops once `topN` are kept. */
  method TopResults(svc: Services, ranked: seq<Scored>, topN: nat) returns (topResults: seq<SearchResult>)
    ensures topResults == ResultsOf(svc, Prefix(Dedup(ranked), topN))
  {
    var seenEmails: set<string> := {};
    topResults := [];
    ghost var kept: seq<Scored> := [];
    var i := 0;
    while i < |ranked|
      invariant 0 <= i <= |ranked|
      invariant kept == Dedup(ranked[..i])
      invariant seenEmails == Emails(kept)
      invariant topResults == ResultsOf(svc, kept)
    {
      var x := ranked[i];
      DedupStep(ranked, i);
      if x.row.email in seenEmails {
        i := i + 1;
        continue;
      }
      EmailsSnoc(kept, x);
      ResultsOfSnoc(svc, kept, x);
      seenEmails := seenEmails + {x.row.email};
      var result := MakeResult(svc, x.row);
      topResults := topResults + [result];
      kept := kept + [x];
      i := i + 1;
      if |topResults| >= topN {
        break;
      }
    }
    TopResultsExit(svc, ranked, topN, i, kept);
    topResults := Prefix(topResults, topN);
  }

  /** `search_candidates(prompt)` over the records `data`. */
  method SearchCandidates(svc: Services, prompt: string, data: seq<SemanticRow>) returns (outcome: Outcome)
    ensures outcome == Search(svc, prompt, data)
  {
    if data == [] {
      return Failed(NoDataMessage);
    }
    var promptClean := PromptText.CleanText(prompt);
    var intent := ParseIntent(promptClean);
    if intent.SummarizeOne? {
      var result := FindCandidateByName(svc, intent.nameQuery, data);
      if result.Some? {
        return Found([result.value]);
      }
      return Failed(NotFoundMessage(intent.nameQuery));
    }
    var results := CollectCandidates(svc, data, promptClean, intent.jobFilter, intent.skills);
    if results == [] {
      return Failed(NoMatchMessage(intent.jobFilter, intent.skills));
    }
    results := Sort(results, Similarity);
    var topResults := TopResults(svc, results, intent.topN);
    return Found(topResults);
  }
}
