# Resume screening core, modelled in Dafny

This project models the sequential logic of an AI-assisted recruitment tool. The tool:

- scores resumes against the keywords of a job description (an "ATS score");
- shortlists candidates whose score reaches 70 into a table keyed on their email;
- answers free-text HR prompts ("top 3 python developers for backend role with docker",
  "summarize Jane Doe") over a table of stored resumes;
- extracts the text, the first email address and the candidate's name from an uploaded resume.

The machine-learning parts stay abstract, and so do the databases and the document readers. The
embedding similarity, the fuzzy name matcher, the summarizer, the TF-IDF vectorizer, and the PDF
and DOCX readers are parameters of the model. The two sqlite tables become sequences of records.
What the program does with their results is modelled as the code is written, and proved:
parsing, filtering, sorting, deduplication, scoring and the table updates.

Modules, in dependency order:

- `Optional` (optional.dfy): the `Option` type.
- `Text` (text.dfy): the Python string operations the program uses, as functions with their
  properties. These are `str.isspace`, `lower`, `strip`, `split`, `join`, `in` on strings and
  `replace(x, "")`.
- `Regex` (regex.dfy): capture spans, alternation, and `re.search` as the leftmost position where a
  pattern, given as a function, matches.
- `StableSort` (stable_sort.dfy): `sorted(..., key=k, reverse=True)` as a stable descending
  insertion sort, with stability proved.
- `KeywordExtraction` (keyword_extraction.dfy): the selection step of `extract_keywords`.
- `Shortlisting` (shortlisting.dfy): `calculate_ats_score` in exact arithmetic, and the
  `candidates` table as the class `CandidateStore`, with `shortlist_candidate` as its method.
- `PromptText` (prompt_text.dfy): `clean_text` and `extract_tech_stack`.
- `PromptPatterns` (prompt_patterns.dfy): the four regular expressions `search_candidates` applies
  to the cleaned prompt. Each is modelled as Python's backtracking engine runs it: the leftmost
  position, alternatives in written order, and greedy runs that give back characters.
- `PromptSearch` (prompt_search.dfy): `summarize_text`, `find_candidate_by_name` and
  `search_candidates`. Each is a specification function plus the loops of the source as methods
  proved against it.
- `ResumeParser` (resume_parser.dfy): `extract_text`, `extract_email` and `extract_name`.

`calculate_ats_score("I know python and SQL and Python", ["python", "sql"])` returns 43. The
function lowercases the text before splitting it, so "python", "sql" and the second "python" all
match: 3 matches against 2 keywords give round(100 * 3 / (2 + 5)) = round(42.86) = 43
(`Shortlisting.AtsExample`). A count made without the lowercasing would find only 2 matches and a
score of 29; that is not what the code computes.

## Model

| member | source | states |
|---|---|---|
| Shortlisting.RoundHalfEven | shortlisting.py:43 | the result is the integer nearest to p / q, a tie going to the even neighbour (Python's `round`) |
| Shortlisting.ScoreFromCount | shortlisting.py:42-43 | the score is in [0, 100]; it is 100 once the matches reach the keyword count plus 5; below that it is 100 * matched / (keywords + 5) rounded half to even; no matches give 0 |
| Shortlisting.MatchCount | shortlisting.py:39 | the count of tokens found in the keyword list is at most the number of tokens, and it is 0 exactly when no token is a keyword |
| Shortlisting.AtsScore | shortlisting.py:36-43 | the score of a text is between 0 and 100, and it is 0 when no lowercased whitespace token of the text is a keyword |
| Shortlisting.ScoreMonotone | shortlisting.py:39-43 | for a fixed keyword list, more matched tokens never lower the score |
| Shortlisting.AtsExample | shortlisting.py:38-43 | "I know python and SQL and Python" against ["python", "sql"] scores 43: three tokens match once lowercased |
| Shortlisting.Lookup | shortlisting.py:25-26 | the row found has the email asked for; there is none exactly when no row has that email |
| Shortlisting.Admit | shortlisting.py:24-31 | (through `AdmitKeepsRows`, `AdmitBelowThreshold`, `AdmitRecords`, `AdmitValid` and `AdmitIdempotent`) the table after one shortlisting |
| Shortlisting.AdmitKeepsRows | shortlisting.py:24-31 | a shortlisting never changes or removes an existing row and adds at most one |
| Shortlisting.AdmitBelowThreshold | shortlisting.py:24 | a score below 70 leaves the table unchanged |
| Shortlisting.AdmitValid | shortlisting.py:14-31 | one row per email (the UNIQUE column) and ids 1, 2, 3, ... (AUTOINCREMENT) hold after every shortlisting |
| Shortlisting.AdmitRecords | shortlisting.py:24-31 | at a score of 70 or more, a new email gets exactly the row (name, email, score, job_role); a known email keeps its earlier row |
| Shortlisting.AdmitIdempotent | shortlisting.py:24-31 | repeating a call changes nothing, and once an email is shortlisted later calls for it change nothing whatever their name, score or role |
| Shortlisting.CandidateStore.constructor | shortlisting.py:14-22 | a fresh table is empty and meets the table invariant |
| Shortlisting.CandidateStore.ShortlistCandidate | shortlisting.py:4-34 | returns the ATS score of the CV against the ten selected job keywords whether or not it reaches 70; the table changes exactly as `Admit` says, and its invariant is kept |
| KeywordExtraction.Terms | keyword_extraction.py:12 | the words are the terms of the pairs, one for one and in order |
| KeywordExtraction.ExtractKeywords | keyword_extraction.py:3-12 | the result has min(num_keywords, number of features) words |
| KeywordExtraction.KeywordsAreFeatures | keyword_extraction.py:8-12 | every returned word is the term of some feature |
| KeywordExtraction.KeywordsDescending | keyword_extraction.py:11-12 | the returned words come with non-increasing weights |
| KeywordExtraction.UnselectedWeighLess | keyword_extraction.py:11-12 | a feature that is not returned weighs no more than any returned one |
| KeywordExtraction.KeywordsStable | keyword_extraction.py:11 | among equal weights the returned terms keep the order of the feature array, and are its earliest ones |
| KeywordExtraction.KeywordsDistinct | keyword_extraction.py:8-12 | distinct features give distinct keywords |
| StableSort.Sort | keyword_extraction.py:11 | the sort is a permutation of its input, ordered by non-increasing key |
| StableSort.SortStable | keyword_extraction.py:11 | elements with equal keys keep their input order, even though the order is reversed |
| Text.LowerChar | shortlisting.py:38 | an uppercase ASCII letter becomes its lowercase letter, 32 code points above it; every other character is left unchanged |
| Text.Strip | hr_prompt_search.py:22 | the result is a slice `s[a:b]` of the input with only whitespace before `a` and after `b`, and it has no whitespace at either end, so exactly the leading and trailing whitespace is removed |
| Text.Words | shortlisting.py:38 | `split()` gives non-empty words free of whitespace which, run together, are exactly the non-whitespace characters of the input in order |
| Text.WordsOfJoin | shortlisting.py:38 | splitting whitespace-free words joined by single spaces gives the words back |
| Text.WordThenRest | shortlisting.py:38 | a word followed by any whitespace character splits into that word followed by the words of the rest |
| Text.RemoveAll | hr_prompt_search.py:85 | removing a pattern never lengthens the text or adds characters; a text containing the pattern loses at least its length, and a text without it is left as it is |
| Text.RemoveFirst | hr_prompt_search.py:85 | `replace` works left to right: the text before the first occurrence is kept, that occurrence is dropped, and the rest is processed on its own |
| Text.RemoveFrom | hr_prompt_search.py:85 | the same over positions: from any start, the text up to the first occurrence is kept and removal resumes right after it |
| Regex.Search | hr_prompt_search.py:70 | the match found is at the leftmost position where the pattern matches; there is none exactly when it matches nowhere |
| Regex.OrElse | hr_prompt_search.py:70 | an alternation takes the first alternative's match whenever there is one, gives the match of one of its alternatives, and fails only when both fail |
| PromptText.KeepKept | hr_prompt_search.py:22 | the result holds only ASCII letters, digits and whitespace, each kept character as many times as in the input, and a text made only of those is kept whole |
| PromptText.KeepKeptConcat | hr_prompt_search.py:22 | the removal goes character by character: cleaning `a + b` gives the cleaned `a` followed by the cleaned `b` |
| PromptText.KeepKeptChar | hr_prompt_search.py:22 | a single character is kept exactly when it is an ASCII letter, a digit or whitespace |
| PromptText.CleanText | hr_prompt_search.py:21-22 | a cleaned text holds only lowercase ASCII letters, digits and whitespace, with no whitespace at either end |
| PromptText.CleanFixesClean | hr_prompt_search.py:21-22 | a text that already has the shape of a cleaned text is left unchanged |
| PromptText.CleanIdempotent | hr_prompt_search.py:21-22 | cleaning twice equals cleaning once |
| PromptText.SortedTechAscending | hr_prompt_search.py:33-37 | the vocabulary in Python's string order is strictly ascending |
| PromptText.SortedTechSameEntries | hr_prompt_search.py:33-37 | that ordered vocabulary has exactly the entries of `tech_keywords` |
| PromptText.SortedListingSpec | hr_prompt_search.py:43 | `sorted(found)` of a set of vocabulary entries is strictly ascending and holds exactly the set's entries |
| PromptText.MatchesInSpec | hr_prompt_search.py:38-42 | an entry is found exactly when it is in the vocabulary and a substring of the text |
| PromptText.TechStackNotSpecified | hr_prompt_search.py:38-43 | "Not specified" is returned exactly when no vocabulary entry is a substring of the cleaned CV |
| PromptText.TechStackListing | hr_prompt_search.py:38-43 | otherwise the result is the entries found, sorted, joined by ", ", and they are exactly the entries occurring in the cleaned CV |
| PromptText.AscendingDistinct | hr_prompt_search.py:43 | a strictly ascending listing names every entry once |
| PromptText.UnreportableEntries | hr_prompt_search.py:33-41 | in a cleaned text no entry holding '+', '#' or '.' is found, so "c++", "c#" and "node.js" are never reported |
| PromptText.CollectMatches | hr_prompt_search.py:38-42 | the loop collects exactly the entries that occur in the text |
| PromptText.TechStack | hr_prompt_search.py:32-43 | (through `TechStackNotSpecified` and `TechStackListing`) "Not specified", or the sorted comma-joined vocabulary entries found in the cleaned CV |
| PromptText.ExtractTechStack | hr_prompt_search.py:32-43 | the method returns the tech stack of the CV as specified |
| PromptPatterns.SpacesThenGroup | hr_prompt_search.py:70 | `\s+(C+)` matches exactly when some position the greedy `\s+` can give back to starts a character of C; the group is whitespace-led, maximal and the last such start |
| PromptPatterns.SummarizeAt | hr_prompt_search.py:70 | a summarize match has a non-empty group of letters and whitespace after the position tried |
| PromptPatterns.NameQuery | hr_prompt_search.py:70-72 | there is a name query exactly when the summarize pattern matches; it holds only letters and whitespace and is stripped |
| PromptPatterns.SummarizeRequest | hr_prompt_search.py:70-72 | "summarize " followed by a name asks to summarize that name, stripped |
| PromptPatterns.NumberAtAsWritten | hr_prompt_search.py:80 | a match of the count pattern as written has a non-empty group of digits after the position tried |
| PromptPatterns.NumberAt | hr_prompt_search.py:80 | the same for the count pattern with whitespace allowed after "top" and "best" |
| PromptPatterns.DecimalRoundTrip | hr_prompt_search.py:81 | `int(str(n)) == n` |
| PromptPatterns.TopN | hr_prompt_search.py:80-81 | no number is read exactly when the count pattern matches nowhere |
| PromptPatterns.TopNAsWritten | hr_prompt_search.py:80-81 | the same for the pattern as written |
| PromptPatterns.NoDigitsNoNumber | hr_prompt_search.py:80-81 | a prompt without digits names no number, under the pattern as written and under the corrected one |
| PromptPatterns.TopNOfPhrase | hr_prompt_search.py:80-81 | "top " followed by n, then text not starting with a digit, asks for n candidates |
| PromptPatterns.TopNUnreadAsWritten | hr_prompt_search.py:80-81 | with the pattern as written, "top 2" names no number |
| PromptPatterns.TopNReadCorrected | hr_prompt_search.py:80-81 | with the corrected pattern, "top 2" asks for 2 |
| PromptPatterns.TopNAsWrittenOfTop | hr_prompt_search.py:80-81 | with the pattern as written, "top" followed at once by n, then text not starting with a digit, asks for n candidates |
| PromptPatterns.TopNAsWrittenOfShow | hr_prompt_search.py:80-81 | with the pattern as written, "show " followed by n, then text not starting with a digit, asks for n candidates |
| PromptPatterns.RoleAt | hr_prompt_search.py:84 | a role match has a non-empty group of letters and whitespace after the position tried |
| PromptPatterns.JobFilter | hr_prompt_search.py:84-85 | there is a job filter exactly when the role pattern matches; it holds only letters and whitespace and is stripped |
| PromptPatterns.RoleRequest | hr_prompt_search.py:84-85 | "for " followed by a role gives that role, with every "role" and "position" removed and then stripped |
| PromptPatterns.SkillAt | hr_prompt_search.py:88 | a skill match has a non-empty group of `[a-zA-Z0-9+#.-]` after the position tried |
| PromptPatterns.FindAll | hr_prompt_search.py:88 | `re.findall` gives groups in text order that do not overlap; it gives none exactly when the pattern matches nowhere |
| PromptPatterns.FindAllMatches | hr_prompt_search.py:88 | every group reported is the group of a match at some position |
| PromptPatterns.SkillGroupChars | hr_prompt_search.py:88 | each skill group is a non-empty run of skill characters taken from the prompt |
| PromptPatterns.SkillRequest | hr_prompt_search.py:88 | "with " followed by a non-empty run of skill characters gives exactly that one skill |
| PromptPatterns.FindAllWhole | hr_prompt_search.py:88 | a match at the start whose group reaches the end of the text is the only group `findall` reports |
| PromptPatterns.SkillsOfCleanPrompt | hr_prompt_search.py:88-89 | on a cleaned prompt the required skills are the matched groups themselves, none empty |
| PromptPatterns.RequiredSkills | hr_prompt_search.py:88-89 | (through `SkillsOfCleanPrompt` and `SkillGroupChars`) on a cleaned prompt the skills are the `findall` groups themselves, each a non-empty run of skill characters |
| PromptPatterns.ParseIntent | hr_prompt_search.py:69-89 | a summarize request exactly when its pattern matches, with the name query of that match; otherwise the count read by the pattern as written, or 5 when it matches nowhere (in particular when the prompt has no digits), plus the job filter and the required skills |
| PromptSearch.SummarizeText | hr_prompt_search.py:25-29 | the summarizer's text for the first 1024 characters whenever it succeeds, and "Summary not available." exactly when it fails |
| PromptSearch.SummaryReadsPrefix | hr_prompt_search.py:27 | texts that agree on their first 1024 characters get the same summary |
| PromptSearch.FirstNameHit | hr_prompt_search.py:51-52 | the record found is the first one from the start whose lowercased name contains the match; there is none exactly when no name contains it |
| PromptSearch.FindByNameFirst | hr_prompt_search.py:46-59 | a record is found exactly when the matcher finds a match and some lowercased name contains it, and the record found is the first such in store order |
| PromptSearch.MatchedNameFound | hr_prompt_search.py:48-59 | when the matcher returns one of the names it was given, a candidate is always found: the final `return None` is reached only without a match |
| PromptSearch.MakeResult | hr_prompt_search.py:53-58 | the dictionary holds the name, the email, the summary and the tech stack of the record |
| PromptSearch.FindByName | hr_prompt_search.py:46-59 | (through `FindByNameFirst`, `MatchedNameFound` and `MakeResult`) the dictionary of the first record whose lowercased name contains the fuzzy match, or None |
| PromptSearch.FindCandidateByName | hr_prompt_search.py:46-59 | the scan with its early return gives the specified lookup |
| PromptSearch.CandidatesSpec | hr_prompt_search.py:94-113 | the candidates are exactly the records passing the role filter (similarity at least 0.5 when a filter is set) and the skill filter (each skill a substring of the cleaned CV), each scored by its similarity to the prompt |
| PromptSearch.Dedup | hr_prompt_search.py:121-127 | deduplication keeps entries of the input with pairwise distinct emails, and every email of the input |
| PromptSearch.DedupFirst | hr_prompt_search.py:121-127 | each entry kept is the first entry of the input with its email |
| PromptSearch.DedupSorted | hr_prompt_search.py:119-127 | deduplicating a descending list keeps it descending |
| PromptSearch.PickedProperties | hr_prompt_search.py:119-137 | the candidates reported are at most top_n, have distinct emails, come in non-increasing similarity and are all candidates |
| PromptSearch.PickedFirstOccurrence | hr_prompt_search.py:119-137 | each reported candidate is the first occurrence of its email in the sorted list |
| PromptSearch.PickedCount | hr_prompt_search.py:122-137 | exactly min(top_n, number of distinct candidate emails) candidates are reported |
| PromptSearch.PickedBest | hr_prompt_search.py:119-137 | best first: a candidate whose email is not reported was left out by a full list of top_n, every entry of which is at least as similar to the prompt |
| PromptSearch.DedupBest | hr_prompt_search.py:122-137 | the same over an already sorted list, deduplicated and cut to n |
| PromptSearch.DistinctEmailsCount | hr_prompt_search.py:122-127 | a list with pairwise distinct emails has as many entries as emails |
| PromptSearch.CandidateEmails | hr_prompt_search.py:94-113 | the candidates carry exactly the emails of the records that pass the filters |
| PromptSearch.NoMatchMessage | hr_prompt_search.py:116 | when a role or a skill was asked for, the message quotes the role and the comma-joined skills, and without a role it reads `role 'None'`; otherwise it is "No candidates matched the prompt." |
| PromptSearch.Search | hr_prompt_search.py:62-137 | (through `SearchEmptyStore`, `SummarizePrecedence`, `SearchNoCandidates`, `SearchResults` and `SearchZeroTop`) the outcome of `search_candidates`, with the count read as the source reads it |
| PromptSearch.SearchEmptyStore | hr_prompt_search.py:63-65 | an empty store gives the error "No candidate data found." |
| PromptSearch.SummarizePrecedence | hr_prompt_search.py:69-77 | a summarize prompt gives one candidate or the "No candidate matching" message, and the filter and rank path is not taken |
| PromptSearch.SearchNoCandidates | hr_prompt_search.py:115-116 | the error naming the role and the skills is returned exactly when no record passes the filters |
| PromptSearch.SearchResults | hr_prompt_search.py:94-137 | the results of a filter prompt number exactly min(top_n, number of distinct emails among the records that pass), have distinct emails, and are each the dictionary of a record that passes the filters |
| PromptSearch.SearchZeroTop | hr_prompt_search.py:134-137 | a count of 0 gives an empty list, not an error, once some record passes |
| PromptSearch.CollectCandidates | hr_prompt_search.py:94-113 | the filter loop with its `continue`s collects the specified candidates |
| PromptSearch.TopResults | hr_prompt_search.py:121-137 | the dedup loop with its `break` gives the dictionaries of the first top_n deduplicated entries |
| PromptSearch.SearchCandidates | hr_prompt_search.py:62-137 | the search, step by step as the source performs it, gives the outcome `Search` specifies, including the fallback to 5 for "top 2" |
| ResumeParser.LastSegment | resume_parser.py:8 | `split('.')[-1]` holds no '.', is a suffix of the name, and follows a '.' unless it is the whole name |
| ResumeParser.LastSegmentOfName | resume_parser.py:8 | the file type is read from what follows the last '.', however many dots come before it |
| ResumeParser.ExtractText | resume_parser.py:6-16 | (through `ExtractTextDispatch` and `FileTypeWithoutDot`) the text of the upload as its file type selects the reader |
| ResumeParser.ExtractTextDispatch | resume_parser.py:6-16 | "pdf" in any case goes to the PDF reader, "docx" in any case gives the paragraphs joined by "\n", anything else gives "" |
| ResumeParser.FileTypeWithoutDot | resume_parser.py:8 | a name without a '.' is its own file type |
| ResumeParser.LastTldDot | resume_parser.py:20 | giving back the greedy domain run stops at the last dot followed by two ASCII letters, and finds none exactly when there is no such dot |
| ResumeParser.EmailAt | resume_parser.py:20 | a match starts where it is tried and is at least six characters long |
| ResumeParser.EmailAtSound | resume_parser.py:20 | every match is a local part, '@', a domain, '.', and two or more ASCII letters |
| ResumeParser.EmailAtComplete | resume_parser.py:20 | wherever such an address starts, the greedy engine matches there, with a match at least as long |
| ResumeParser.ExtractEmail | resume_parser.py:18-21 | "N/A" exactly when the pattern matches nowhere; otherwise a substring of the text that is an address of the pattern |
| ResumeParser.EmailLeftmostLongest | resume_parser.py:20-21 | the address reported starts no later than any address in the text, and is the longest among those starting at the same place |
| ResumeParser.EmailShape | resume_parser.py:20 | an address holds exactly one '@' and ends with '.' and at least two ASCII letters |
| ResumeParser.LabelAt | resume_parser.py:27 | a "Resume" or "Candidate" label match is non-empty |
| ResumeParser.StripLabelsFrom | resume_parser.py:27 | removing labels never lengthens the text or adds characters; a text with a label gets strictly shorter, and a text without labels is left unchanged |
| ResumeParser.StripFirstLabel | resume_parser.py:27 | `re.sub` works left to right: the text before the first label is kept, the label is dropped, and the scan resumes where the label ends |
| ResumeParser.NameLabelAt | resume_parser.py:30 | a "Name:" match has a non-empty group after the position tried |
| ResumeParser.NameLabelShape | resume_parser.py:30-32 | the group of the "Name:" pattern is two capitalized words with whitespace between them |
| ResumeParser.TitleOfLetters | resume_parser.py:37 | for a word of letters, `istitle()` holds exactly when the word is an uppercase letter followed by lowercase ones |
| ResumeParser.FirstTitlePair | resume_parser.py:36-38 | the index found starts the first pair of adjacent title-cased words; there is none exactly when no such pair exists |
| ResumeParser.FallbackName | resume_parser.py:35-40 | the fallback name is never empty |
| ResumeParser.NameIn | resume_parser.py:29-40 | the name is never empty |
| ResumeParser.NameOf | resume_parser.py:23-40 | `extract_name` never returns an empty name |
| ResumeParser.LabelTakesPrecedence | resume_parser.py:30-32 | a "Name: First Last" match is the name, over the fallback, and is two capitalized words |
| ResumeParser.NameLabelRequest | resume_parser.py:30-32 | "Name: " followed by two capitalized words separated by a space gives those two words as the name |
| ResumeParser.NameLabelOf | resume_parser.py:30 | on such a text the label pattern matches at its start, with both words as its group |
| ResumeParser.FallbackFirstPair | resume_parser.py:35-38 | the fallback is the first adjacent pair of title-cased words, joined by one space |
| ResumeParser.NoPairUnknown | resume_parser.py:40 | with no such pair the name is "Unknown Candidate" |
| ResumeParser.FallbackScan | resume_parser.py:35-40 | the loop with its early return gives the specified fallback |
| ResumeParser.ExtractName | resume_parser.py:23-40 | the method gives the specified name |

## Left out

- Text.LowerChar: lowercases ASCII letters only. Python's `lower()` is Unicode-wide, so non-ASCII uppercase letters stay unchanged here.
- ResumeParser.TitleOfLetters: `istitle()` treats only ASCII letters as cased. Python also treats non-ASCII cased and titlecase letters as cased.
- ResumeParser.LabelAt: `re.IGNORECASE` is modelled as ASCII lowercasing, and `\b` uses ASCII word characters. Python's Unicode case folding would also match characters such as U+017F against "s".
- PromptPatterns.NumberAt: `\d` is modelled as the ASCII digits. Python's `\d` also matches other Unicode decimal digits.
- Shortlisting.ScoreFromCount: computed in exact arithmetic, where the source uses floating point. A quotient that differs from a half by rounding error may round differently there.
- KeywordExtraction.ExtractKeywords: the vectorizer's weights are integers here, where the source has floats. The TF-IDF vectorizer itself (tokens, stop words, weights) is a library that this model takes as an input sequence. When the job description yields an empty vocabulary (it is empty or holds only stop words), the vectorizer raises ValueError and `shortlist_candidate` does not return; the model instead takes `jdFeatures == []`, selects no keyword and scores 0.
- The sentence-embedding similarity, `difflib.get_close_matches` and the BART summarizer are parameters (`PromptSearch.Services`). The summarizer's `max_length`, `min_length` and `do_sample` arguments belong to that service. Exceptions from the similarity are left out, and so is a NaN similarity.
- The PDF and DOCX readers are parameters (`ResumeParser.Readers`), and their exceptions are left out.
- sqlite: both databases are in-memory sequences. `fetch_semantic_data` becomes the `data` argument, whose error value is always `None` in the source. Connections, commits and the schema statement are I/O.
- PromptSearch.SearchCandidates: `results.sort` reorders a local list in place; the model sorts it as a value. No other reference to that list exists, so nothing observable differs.
- main.py (the Streamlit interface), email_sender.py (SMTP and generated email text) and jd_summarizer.py (model calls only) are not part of this model.

## Findings

| source | as written | input that shows it | evidently intended | confidence | as-written member | corrected member |
|---|---|---|---|---|---|---|
| hr_prompt_search.py:80 | `(?:top\|best\|give\s+me\s+\|show\s+\|give\s+)(\d+)` requires the digits straight after "top" or "best", while the other alternatives allow whitespace | the cleaned prompt "top 2": no alternative matches, so `top_n` falls back to 5 | "top" and "best" followed by optional whitespace and the count, so "top 2" asks for 2 candidates | not executed | PromptPatterns.TopNUnreadAsWritten | PromptPatterns.TopNReadCorrected |

The search itself (`PromptPatterns.ParseIntent`, `PromptSearch.Search`, `PromptSearch.SearchCandidates`) reads the count with the pattern as written (`PromptPatterns.TopNAsWritten`), so it behaves as the program does. The corrected pattern (`PromptPatterns.NumberAt`, read by `PromptPatterns.TopN`) is modelled beside it, with `PromptPatterns.TopNOfPhrase` proving that "top " followed by any number n asks for n candidates.
