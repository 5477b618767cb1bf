/**
 * ATS scoring of a resume against the keywords of a job description, and the
 * first-write-wins shortlisting table keyed on the candidate's email.
 */
module Shortlisting {
  import opened Optional
  import opened Text
  import opened KeywordExtraction

  /** The score from which a candidate is shortlisted. */
  const Threshold: int := 70

  /** The padding added to the keyword count in the score's denominator. */
  const KeywordPadding: nat := 5

  lemma DivMod(p: nat, q: nat)
    requires q > 0
    ensures p == (p / q) * q + p % q && 0 <= p % q < q
  {
  }

  lemma MulSucc(f: int, q: int)
    ensures (f + 1) * q == f * q + q
  {
  }

  lemma MulMonotone(a: int, b: int, q: nat)
    requires a <= b
    ensures a * q <= b * q
  {
  }

  lemma MulCancel(a: int, b: int, q: int)
    requires q > 0 && a * q < b * q
    ensures a < b
  {
  }

  /** `r` is `p / q` rounded to the nearest integer, a tie going to the even neighbour. */
  predicate RoundsTo(p: int, q: int, r: int) {
    -q <= 2 * (p - r * q) <= q && (2 * (p - r * q) == q || 2 * (r * q - p) == q ==> r % 2 == 0)
  }

  lemma RoundFacts(p: nat, q: nat, f: nat, rem: nat, up: bool)
    requires q > 0 && p == f * q + rem && rem < q
    requires up == (2 * rem > q || (2 * rem == q && f % 2 == 1))
    ensures RoundsTo(p, q, if up then f + 1 else f)
  {
    MulSucc(f, q);
  }

  /** Python's `round(p / q)` for `p >= 0` (round half to even). */
  function RoundHalfEven(p: nat, q: nat): (r: nat)
    requires q > 0
    ensures RoundsTo(p, q, r)
  {
    var f := p / q;
    var rem := p % q;
    DivMod(p, q);
    var up := 2 * rem > q || (2 * rem == q && f % 2 == 1);
    RoundFacts(p, q, f, rem, up);
    if up then f + 1 else f
  }

  /** A quotient of at most `n` does not round above `n`. */
  lemma RoundAtMost(p: nat, q: nat, n: nat)
    requires q > 0 && p <= n * q
    ensures RoundHalfEven(p, q) <= n
  {
    var r := RoundHalfEven(p, q);
    if r >= n + 1 {
      MulMonotone(n + 1, r, q);
      MulSucc(n, q);
    }
  }

  /**
   * `round(min(100, matched / max(numKeywords + 5, 1) * 100))` in exact arithmetic.
   * The `max(..., 1)` never takes effect, since the padded count is at least 5.
   */
  function ScoreFromCount(matched: nat, numKeywords: nat): (score: nat)
    ensures score <= 100
    ensures matched >= numKeywords + KeywordPadding ==> score == 100
    ensures matched < numKeywords + KeywordPadding ==> RoundsTo(100 * matched, numKeywords + KeywordPadding, score)
    ensures matched == 0 ==> score == 0
  {
    var d := numKeywords + KeywordPadding;
    if matched >= d then 100
    else
      MulMonotone(matched, d, 100);
      RoundAtMost(100 * matched, d, 100);
      RoundHalfEven(100 * matched, d)
  }

  /** `sum(1 for word in words if word in keywords)`: occurrences count with repetition. */
  function MatchCount(words: seq<string>, keywords: seq<string>): (n: nat)
    ensures n <= |words|
    ensures n == 0 <==> forall k :: 0 <= k < |words| ==> words[k] !in keywords
  {
    if words == [] then 0
    else (if words[0] in keywords then 1 else 0) + MatchCount(words[1..], keywords)
  }

  /** `calculate_ats_score(text, keywords)`: whitespace tokens of the lowercased text, matched literally. */
  function AtsScore(text: string, keywords: seq<string>): (score: nat)
    ensures score <= 100
    ensures MatchCount(Words(Lower(text)), keywords) == 0 ==> score == 0
  {
    ScoreFromCount(MatchCount(Words(Lower(text)), keywords), |keywords|)
  }

  lemma DivMonotone(p1: nat, p2: nat, q: nat)
    requires q > 0 && p1 <= p2
    ensures p1 / q <= p2 / q
  {
    DivMod(p1, q);
    DivMod(p2, q);
    MulSucc(p2 / q, q);
    MulCancel(p1 / q, p2 / q + 1, q);
  }

  lemma RoundMonotone(p1: nat, p2: nat, q: nat)
    requires q > 0 && p1 <= p2
    ensures RoundHalfEven(p1, q) <= RoundHalfEven(p2, q)
  {
    DivMonotone(p1, p2, q);
    DivMod(p1, q);
    DivMod(p2, q);
    if p1 / q == p2 / q {
      assert p1 % q <= p2 % q;
    }
  }

  /** For a fixed keyword list, more matched tokens never lower the score. */
  lemma ScoreMonotone(m1: nat, m2: nat, numKeywords: nat)
    requires m1 <= m2
    ensures ScoreFromCount(m1, numKeywords) <= ScoreFromCount(m2, numKeywords)
  {
    var d := numKeywords + KeywordPadding;
    if m2 < d {
      RoundMonotone(100 * m1, 100 * m2, d);
    }
  }

  /** The tokens of the example text, lowercased. */
  lemma ExampleLowered()
    ensures LowerEach(["I", "know", "python", "and", "SQL", "and", "Python"])
         == ["i", "know", "python", "and", "sql", "and", "python"]
  {
    assert Lower("I") == "i";
    assert Lower("SQL") == "sql";
    assert Lower("Python") == "python";
    assert Lower("know") == "know";
    assert Lower("python") == "python";
    assert Lower("and") == "and";
  }

  /**
   * The text "I know python and SQL and Python" against the keywords "python" and "sql":
   * tokens are lowercased before matching, so three tokens match, and 300 / 7 rounds to 43.
   */
  lemma AtsExample()
    ensures AtsScore(Join(["I", "know", "python", "and", "SQL", "and", "Python"], " "), ["python", "sql"]) == 43
  {
    var ws := ["I", "know", "python", "and", "SQL", "and", "Python"];
    var lowered := ["i", "know", "python", "and", "sql", "and", "python"];
    var kws := ["python", "sql"];
    LowerJoin(ws);
    ExampleLowered();
    assert Lower(Join(ws, " ")) == Join(lowered, " ");
    ExampleAreWords();
    WordsOfJoin(lowered);
    ExampleMatches();
    ExampleRounding();
    assert AtsScore(Join(ws, " "), kws) == ScoreFromCount(MatchCount(lowered, kws), |kws|);
  }

  lemma ExampleAreWords()
    ensures forall k :: 0 <= k < 7 ==> IsWord(["i", "know", "python", "and", "sql", "and", "python"][k])
  {
    assert IsWord("i") && IsWord("know") && IsWord("python") && IsWord("and") && IsWord("sql");
  }

  lemma ExampleMatches()
    ensures MatchCount(["i", "know", "python", "and", "sql", "and", "python"], ["python", "sql"]) == 3
  {
    var kws := ["python", "sql"];
    assert "i" !in kws && "know" !in kws && "and" !in kws;
    assert "python" in kws && "sql" in kws;
  }

  lemma ExampleRounding()
    ensures ScoreFromCount(3, 2) == 43
  {
    assert 300 / 7 == 42 && 300 % 7 == 6;
  }

  /** A row of the `candidates` table; `id` is the AUTOINCREMENT key. */
  datatype Candidate = Candidate(id: nat, name: string, email: string, score: int, jobRole: string)

  /** The UNIQUE constraint on `email`. */
  predicate UniqueEmails(rows: seq<Candidate>) {
    forall i, j :: 0 <= i < j < |rows| ==> rows[i].email != rows[j].email
  }

  /** Rows are never deleted, so AUTOINCREMENT numbers them 1, 2, 3, ... in insertion order. */
  predicate WellNumbered(rows: seq<Candidate>) {
    forall i :: 0 <= i < |rows| ==> rows[i].id == i + 1
  }

  /** `SELECT * FROM candidates WHERE email=?` followed by `fetchone()`. */
  function Lookup(rows: seq<Candidate>, email: string): (r: Option<Candidate>)
    ensures r.Some? ==> r.value in rows && r.value.email == email
    ensures r.None? <==> forall i :: 0 <= i < |rows| ==> rows[i].email != email
  {
    if rows == [] then None
    else if rows[0].email == email then Some(rows[0])
    else Lookup(rows[1..], email)
  }

  /** The table after `shortlist_candidate` computed `score`: insert when shortlisted and the email is new. */
  function Admit(rows: seq<Candidate>, name: string, email: string, score: int, jobRole: string): seq<Candidate> {
    if score >= Threshold && Lookup(rows, email).None? then rows + [Candidate(|rows| + 1, name, email, score, jobRole)]
    else rows
  }

  /** Existing rows are never changed or removed, and at most one row is added. */
  lemma AdmitKeepsRows(rows: seq<Candidate>, name: string, email: string, score: int, jobRole: string)
    ensures rows <= Admit(rows, name, email, score, jobRole)
    ensures |Admit(rows, name, email, score, jobRole)| <= |rows| + 1
  {
  }

  /** Below the threshold nothing is written. */
  lemma AdmitBelowThreshold(rows: seq<Candidate>, name: string, email: string, score: int, jobRole: string)
    requires score < Threshold
    ensures Admit(rows, name, email, score, jobRole) == rows
  {
  }

  /** The table invariants (one row per email, consecutive ids) hold after every shortlisting. */
  lemma AdmitValid(rows: seq<Candidate>, name: string, email: string, score: int, jobRole: string)
    requires UniqueEmails(rows) && WellNumbered(rows)
    ensures UniqueEmails(Admit(rows, name, email, score, jobRole))
    ensures WellNumbered(Admit(rows, name, email, score, jobRole))
  {
  }

  /**
   * After a shortlisted score the email is on file: a new row holding exactly
   * (name, email, score, job_role) when it was absent, the earlier row otherwise.
   */
  lemma AdmitRecords(rows: seq<Candidate>, name: string, email: string, score: int, jobRole: string)
    requires UniqueEmails(rows)
    requires score >= Threshold
    ensures Lookup(rows, email).None? ==>
      Lookup(Admit(rows, name, email, score, jobRole), email) == Some(Candidate(|rows| + 1, name, email, score, jobRole))
    ensures Lookup(rows, email).Some? ==>
      Lookup(Admit(rows, name, email, score, jobRole), email) == Lookup(rows, email)
  {
    var after := Admit(rows, name, email, score, jobRole);
    if Lookup(rows, email).None? {
      LookupLast(rows, Candidate(|rows| + 1, name, email, score, jobRole));
    }
  }

  /** Looking up the email of a row appended after rows without that email finds the appended row. */
  lemma {:induction false} LookupLast(rows: seq<Candidate>, c: Candidate)
    requires forall i :: 0 <= i < |rows| ==> rows[i].email != c.email
    ensures Lookup(rows + [c], c.email) == Some(c)
  {
    if rows != [] {
      assert (rows + [c])[1..] == rows[1..] + [c];
      LookupLast(rows[1..], c);
    }
  }

  /** First write wins, and a repeated call changes nothing: once an email is on file its row stays as it was. */
  lemma AdmitIdempotent(rows: seq<Candidate>, name: string, email: string, score: int, jobRole: string,
                        name': string, score': int, jobRole': string)
    ensures var once := Admit(rows, name, email, score, jobRole);
      Admit(once, name, email, score, jobRole) == once && (score >= Threshold ==> Admit(once, name', email, score', jobRole') == once)
  {
    var once := Admit(rows, name, email, score, jobRole);
    if score >= Threshold && Lookup(rows, email).None? {
      LookupLast(rows, Candidate(|rows| + 1, name, email, score, jobRole));
    }
  }

  /** The `candidates` table of the screening database. */
  class CandidateStore {
    var rows: seq<Candidate>

    ghost predicate Valid()
      reads this
    {
      UniqueEmails(rows) && WellNumbered(rows)
    }

    /** `CREATE TABLE IF NOT EXISTS candidates (...)` on a fresh database. */
    constructor ()
      ensures Valid() && rows == []
    {
      rows := [];
    }

    /**
     * `shortlist_candidate(cv_text, email, name, jd_text, job_role)`, given the
     * vectorizer output for `jd_text`: the score is returned whatever it is, and
     * the table changes only by `Admit`.
     */
    method ShortlistCandidate(cvText: string, email: string, name: string,
                              jdFeatures: seq<WeightedTerm>, jobRole: string) returns (score: nat)
      requires Valid()
      modifies this
      ensures Valid()
      ensures score == AtsScore(cvText, ExtractKeywords(jdFeatures, DefaultNumKeywords))
      ensures rows == Admit(old(rows), name, email, score, jobRole)
    {
      var keywords := ExtractKeywords(jdFeatures, DefaultNumKeywords);
      score := AtsScore(cvText, keywords);
      AdmitValid(rows, name, email, score, jobRole);
      if score >= Threshold {
        var existing := Lookup(rows, email);
        if existing.None? {
          rows := rows + [Candidate(|rows| + 1, name, email, score, jobRole)];
        }
      }
    }
  }
}
