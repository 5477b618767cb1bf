/**
 * The regular expressions with which `search_candidates` (hr_prompt_search.py) reads a cleaned
 * prompt: the summarize request, the number of candidates wanted, the job role and the
 * required skills. Each pattern is modelled by the match Python's backtracking engine finds:
 * `re.search` takes the leftmost position where the pattern matches, alternatives are tried in
 * the order written, and a greedy `\s+` gives characters back only when what follows needs them.
 */
module PromptPatterns {
  import opened Optional
  import opened Text
  import opened Regex
  import PromptText

  /** The class `[a-zA-Z\s]`. */
  predicate IsNameChar(c: char) { IsAsciiLetter(c) || IsSpace(c) }

  /** The class `[a-zA-Z0-9+#.\-]`. */
  predicate IsSkillChar(c: char) { IsAsciiAlnum(c) || c == '+' || c == '#' || c == '.' || c == '-' }

  /**
   * Where the group starts when `\s+` begins at `i` and its greedy run would reach `j`: the
   * engine tries the group at `j`, then gives back one whitespace character at a time, and
   * the group may start at the first of these positions that holds a character of its class.
   */
  function GroupStart(s: string, i: nat, j: nat, inGroup: char -> bool): (k: Option<nat>)
    requires i < j <= |s|
    ensures k.Some? ==> i < k.value <= j && k.value < |s| && inGroup(s[k.value])
    ensures k.Some? ==> forall m :: k.value < m <= j && m < |s| ==> !inGroup(s[m])
    ensures k.None? ==> forall m :: i < m <= j && m < |s| ==> !inGroup(s[m])
    decreases j
  {
    if j < |s| && inGroup(s[j]) then Some(j)
    else if j - 1 > i then GroupStart(s, i, j - 1, inGroup)
    else None
  }

  /** `\s+(C+)` tried at `i`, for the class `C` given by `inGroup`: the span of the group. */
  function SpacesThenGroup(s: string, i: nat, inGroup: char -> bool): (g: Option<Span>)
    ensures g.Some? ==> i < g.value.start < g.value.end <= |s|
    ensures g.Some? ==> forall k :: i <= k < g.value.start ==> IsSpace(s[k])
    ensures g.Some? ==> forall k :: g.value.start <= k < g.value.end ==> inGroup(s[k])
    ensures g.Some? ==> g.value.end == |s| || !inGroup(s[g.value.end])
    ensures g.Some? ==> forall m :: g.value.start < m <= RunEnd(s, i, IsSpace) && m < |s| ==> !inGroup(s[m])
    ensures i <= |s| ==> (g.None? <==>
      forall m :: i < m <= RunEnd(s, i, IsSpace) && m < |s| ==> !inGroup(s[m]))
  {
    if i > |s| then None
    else
      var w := RunEnd(s, i, IsSpace);
      if w == i then None
      else match GroupStart(s, i, w, inGroup)
        case None => None
        case Some(k) => Some(Span(k, RunEnd(s, k, inGroup)))
  }

  // Summarize requests.

  /** `(?:summarize|summary\s+of)\s+([a-zA-Z\s]+)` tried at `i`. */
  function SummarizeAt(s: string, i: nat): (g: Option<Span>)
    ensures g.Some? ==> i < g.value.start < g.value.end <= |s|
    ensures g.Some? ==> forall k :: g.value.start <= k < g.value.end ==> IsNameChar(s[k])
  {
    var viaSummarize := if StartsAt(s, i, "summarize") then SpacesThenGroup(s, i + 9, IsNameChar) else None;
    var viaSummaryOf :=
      if StartsAt(s, i, "summary") then
        var w := RunEnd(s, i + 7, IsSpace);
        if w > i + 7 && StartsAt(s, w, "of") then SpacesThenGroup(s, w + 2, IsNameChar) else None
      else None;
    OrElse(viaSummarize,
      viaSummaryOf)
  }

  /** `name_match.group(1).strip()`, when the prompt is a summarize request. */
  function NameQuery(s: string): (q: Option<string>)
    ensures q.Some? <==> Search(s, 0, SummarizeAt).Some?
    ensures q.Some? ==> forall k :: 0 <= k < |q.value| ==> IsNameChar(q.value[k])
    ensures q.Some? ==> q.value == [] || (!IsSpace(q.value[0]) && !IsSpace(q.value[|q.value| - 1]))
  {
    match Search(s, 0, SummarizeAt)
    case None => None
    case Some(h) =>
      var g := Group(s, h.group);
      assert forall m :: 0 <= m < |g| ==> IsNameChar(g[m]) by {
        forall m | 0 <= m < |g| ensures IsNameChar(g[m]) {
          assert g[m] == s[h.group.start + m];
        }
      }
      StripKeeps(g, IsNameChar);
      Some(Strip(g))
  }

  /** `\s+` then a group of letters and whitespace reaching to the end, when the text after the space starts with a letter. */
  lemma SpaceThenNames(s: string, i: nat)
    requires i + 1 < |s| && IsSpace(s[i]) && IsAsciiLetter(s[i + 1])
    requires forall k :: i < k < |s| ==> IsNameChar(s[k])
    ensures SpacesThenGroup(s, i, IsNameChar) == Some(Span(i + 1, |s|))
  {
    RunEndAt(s, i, i + 1, IsSpace);
    RunEndAt(s, i + 1, |s|, IsNameChar);
  }

  /** "summarize" and a name asks to summarize that name, stripped. */
  lemma {:induction false} SummarizeRequest(name: string)
    requires |name| > 0 && IsAsciiLetter(name[0])
    requires forall k :: 0 <= k < |name| ==> IsNameChar(name[k])
    ensures NameQuery("summarize " + name) == Some(Strip(name))
  {
    var s := "summarize " + name;
    assert StartsAt(s, 0, "summarize") by { assert s[..9] == "summarize"; }
    SpaceThenNames(s, 9);
    assert Group(s, Span(10, |s|)) == name;
  }

  // The number of candidates.

  /** `\d+` at `p`. */
  function DigitsAt(s: string, p: nat): (g: Option<Span>)
    ensures g.Some? ==> g.value.start == p < g.value.end <= |s|
    ensures g.Some? ==> forall k :: p <= k < g.value.end ==> IsDigit(s[k])
    ensures g.Some? ==> g.value.end == |s| || !IsDigit(s[g.value.end])
    ensures g.None? <==> p >= |s| || !IsDigit(s[p])
  {
    if p > |s| then None
    else
      var e := RunEnd(s, p, IsDigit);
      if e > p then Some(Span(p, e)) else None
  }

  /** `\s+(\d+)` at `p`. */
  function SpacesThenDigits(s: string, p: nat): (g: Option<Span>)
    ensures g.Some? ==> p < g.value.start < g.value.end <= |s|
    ensures g.Some? ==> forall k :: g.value.start <= k < g.value.end ==> IsDigit(s[k])
  {
    if p > |s| then None
    else
      var w := RunEnd(s, p, IsSpace);
      if w > p then DigitsAt(s, w) else None
  }

  /** `give\s+me\s+(\d+)` at `i`. */
  function GiveMeAt(s: string, i: nat): (g: Option<Span>)
    ensures g.Some? ==> i < g.value.start < g.value.end <= |s|
    ensures g.Some? ==> forall k :: g.value.start <= k < g.value.end ==> IsDigit(s[k])
  {
    if StartsAt(s, i, "give") then
      var w := RunEnd(s, i + 4, IsSpace);
      if w > i + 4 && StartsAt(s, w, "me") then SpacesThenDigits(s, w + 2) else None
    else None
  }

  /** `(?:top|best|give\s+me\s+|show\s+|give\s+)(\d+)` tried at `i`, as the source writes it. */
  function NumberAtAsWritten(s: string, i: nat): (g: Option<Span>)
    ensures g.Some? ==> i < g.value.start < g.value.end <= |s|
    ensures g.Some? ==> forall k :: g.value.start <= k < g.value.end ==> IsDigit(s[k])
  {
    OrElse(if StartsAt(s, i, "top") then DigitsAt(s, i + 3) else None,
      OrElse(if StartsAt(s, i, "best") then DigitsAt(s, i + 4) else None,
      OrElse(GiveMeAt(s, i),
      OrElse(if StartsAt(s, i, "show") then SpacesThenDigits(s, i + 4) else None,
      if StartsAt(s, i, "give") then SpacesThenDigits(s, i + 4) else None))))
  }

  /** The same pattern with the whitespace after "top" and "best" allowed: `top\s*` and `best\s*`. */
  function NumberAt(s: string, i: nat): (g: Option<Span>)
    ensures g.Some? ==> i < g.value.start < g.value.end <= |s|
    ensures g.Some? ==> forall k :: g.value.start <= k < g.value.end ==> IsDigit(s[k])
  {
    OrElse(if StartsAt(s, i, "top") then DigitsAt(s, RunEnd(s, i + 3, IsSpace)) else None,
      OrElse(if StartsAt(s, i, "best") then DigitsAt(s, RunEnd(s, i + 4, IsSpace)) else None,
      OrElse(GiveMeAt(s, i),
      OrElse(if StartsAt(s, i, "show") then SpacesThenDigits(s, i + 4) else None,
      if StartsAt(s, i, "give") then SpacesThenDigits(s, i + 4) else None))))
  }

  predicate AllDigits(d: string) {
    forall k :: 0 <= k < |d| ==> IsDigit(d[k])
  }

  /** `int(d)` for a string of ASCII digits. */
  function DecimalValue(d: string): nat
    requires AllDigits(d)
  {
    if d == [] then 0
    else 10 * DecimalValue(d[..|d| - 1]) + (d[|d| - 1] as int - '0' as int)
  }

  /** `str(n)`: the decimal digits of `n`, without leading zeros. */
  function DecimalString(n: nat): (d: string)
    ensures |d| > 0 && AllDigits(d)
    ensures |d| > 1 ==> d[0] != '0'
  {
    var last := ('0' as int + n % 10) as char;
    if n < 10 then [last] else DecimalString(n / 10) + [last]
  }

  /** `int(str(n)) == n`. */
  lemma {:induction false} DecimalRoundTrip(n: nat)
    ensures DecimalValue(DecimalString(n)) == n
  {
    var d := DecimalString(n);
    if n >= 10 {
      DecimalRoundTrip(n / 10);
      assert d[..|d| - 1] == DecimalString(n / 10);
    }
  }

  /** The number the prompt asks for: `int(num_match.group(1))`, with the corrected pattern. */
  function TopN(s: string): (n: Option<nat>)
    ensures n.None? <==> forall j :: 0 <= j <= |s| ==> NumberAt(s, j).None?
  {
    match Search(s, 0, NumberAt)
    case None => None
    case Some(h) => Some(DecimalValue(Group(s, h.group)))
  }

  /** The same with the pattern as the source writes it. */
  function TopNAsWritten(s: string): (n: Option<nat>)
    ensures n.None? <==> forall j :: 0 <= j <= |s| ==> NumberAtAsWritten(s, j).None?
  {
    match Search(s, 0, NumberAtAsWritten)
    case None => None
    case Some(h) => Some(DecimalValue(Group(s, h.group)))
  }

  /** A prompt without digits never names a number, under either pattern. */
  lemma NoDigitsNoNumber(s: string)
    ensures (forall k :: 0 <= k < |s| ==> !IsDigit(s[k])) ==> TopN(s) == None && TopNAsWritten(s) == None
  {
    if TopN(s).Some? {
      var h := Search(s, 0, NumberAt).value;
      assert IsDigit(s[h.group.start]);
    }
    if TopNAsWritten(s).Some? {
      var h := Search(s, 0, NumberAtAsWritten).value;
      assert IsDigit(s[h.group.start]);
    }
  }

  /** A prompt starting with "top", a space and a number asks for that number of candidates. */
  lemma TopNOfPhrase(n: nat, rest: string)
    requires rest == [] || !IsDigit(rest[0])
    ensures TopN("top " + DecimalString(n) + rest) == Some(n)
  {
    var d := DecimalString(n);
    var s := "top " + d + rest;
    assert StartsAt(s, 0, "top") by { assert s[..3] == "top"; }
    RunEndAt(s, 3, 4, IsSpace);
    RunEndAt(s, 4, 4 + |d|, IsDigit);
    assert NumberAt(s, 0) == Some(Span(4, 4 + |d|));
    assert Group(s, Span(4, 4 + |d|)) == d;
    DecimalRoundTrip(n);
  }

  /** A match of the pattern as written starts at one of the letters its alternatives begin with. */
  lemma NumberAtAsWrittenInitial(s: string, i: nat)
    ensures NumberAtAsWritten(s, i).Some? ==> i < |s| && (s[i] == 't' || s[i] == 'b' || s[i] == 'g' || s[i] == 's')
  {
    if NumberAtAsWritten(s, i).None? {
    } else if StartsAt(s, i, "top") { assert s[i] == s[i..i + 3][0]; }
    else if StartsAt(s, i, "best") { assert s[i] == s[i..i + 4][0]; }
    else if StartsAt(s, i, "give") { assert s[i] == s[i..i + 4][0]; }
    else { assert StartsAt(s, i, "show"); assert s[i] == s[i..i + 4][0]; }
  }

  /** At its start, "top 2" fails every alternative of the pattern as written. */
  lemma Top2AtStart()
    ensures NumberAtAsWritten("top 2", 0).None?
  {
    var s := "top 2";
    assert !IsDigit(s[3]);
    assert s[0] != 'b' && s[0] != 'g' && s[0] != 's';
    if StartsAt(s, 0, "best") || StartsAt(s, 0, "give") || StartsAt(s, 0, "show") {
      assert s[0] == s[..4][0];
    }
  }

  /** As the source writes it, "top 2" names no number: `top` must be followed by the digits at once. */
  lemma TopNUnreadAsWritten()
    ensures TopNAsWritten("top 2") == None
  {
    var s := "top 2";
    Top2AtStart();
    forall j: nat | 0 < j <= |s| ensures NumberAtAsWritten(s, j).None? {
      NumberAtAsWrittenInitial(s, j);
    }
  }

  /** With whitespace allowed after "top", "top 2" asks for two candidates. */
  lemma TopNReadCorrected()
    ensures TopN("top 2") == Some(2)
  {
    assert DecimalString(2) == "2";
    assert "top " + DecimalString(2) + [] == "top 2";
    TopNOfPhrase(2, []);
  }

  /** As the source writes the pattern, "top" followed at once by a number asks for that number. */
  lemma TopNAsWrittenOfTop(n: nat, rest: string)
    requires rest == [] || !IsDigit(rest[0])
    ensures TopNAsWritten("top" + DecimalString(n) + rest) == Some(n)
  {
    var d := DecimalString(n);
    var s := "top" + d + rest;
    assert StartsAt(s, 0, "top") by { assert s[..3] == "top"; }
    assert forall k :: 3 <= k < 3 + |d| ==> s[k] == d[k - 3];
    RunEndAt(s, 3, 3 + |d|, IsDigit);
    assert NumberAtAsWritten(s, 0) == Some(Span(3, 3 + |d|));
    assert Group(s, Span(3, 3 + |d|)) == d;
    DecimalRoundTrip(n);
  }

  /** As the source writes the pattern, "show", a space and a number ask for that number. */
  lemma TopNAsWrittenOfShow(n: nat, rest: string)
    requires rest == [] || !IsDigit(rest[0])
    ensures TopNAsWritten("show " + DecimalString(n) + rest) == Some(n)
  {
    var d := DecimalString(n);
    var s := "show " + d + rest;
    assert StartsAt(s, 0, "show") by { assert s[..4] == "show"; }
    assert s[0] == 's' && s[1] == 'h';
    assert !StartsAt(s, 0, "top") && !StartsAt(s, 0, "best") && !StartsAt(s, 0, "give") by {
      assert s[..3][0] == 's' && s[..4][0] == 's';
    }
    assert forall k :: 5 <= k < 5 + |d| ==> s[k] == d[k - 5];
    RunEndAt(s, 4, 5, IsSpace);
    RunEndAt(s, 5, 5 + |d|, IsDigit);
    assert NumberAtAsWritten(s, 0) == Some(Span(5, 5 + |d|));
    assert Group(s, Span(5, 5 + |d|)) == d;
    DecimalRoundTrip(n);
  }

  // The job role.

  /** `(?:for|of|to|as)\s+([a-zA-Z\s]+)` tried at `i`. */
  function RoleAt(s: string, i: nat): (g: Option<Span>)
    ensures g.Some? ==> i < g.value.start < g.value.end <= |s|
    ensures g.Some? ==> forall k :: g.value.start <= k < g.value.end ==> IsNameChar(s[k])
  {
    OrElse(if StartsAt(s, i, "for") then SpacesThenGroup(s, i + 3, IsNameChar) else None,
      OrElse(if StartsAt(s, i, "of") then SpacesThenGroup(s, i + 2, IsNameChar) else None,
      OrElse(if StartsAt(s, i, "to") then SpacesThenGroup(s, i + 2, IsNameChar) else None,
      if StartsAt(s, i, "as") then SpacesThenGroup(s, i + 2, IsNameChar) else None)))
  }

  /** `job_match.group(1).replace("role", "").replace("position", "").strip()`, or `None`. */
  function JobFilter(s: string): (f: Option<string>)
    ensures f.Some? <==> Search(s, 0, RoleAt).Some?
    ensures f.Some? ==> forall k :: 0 <= k < |f.value| ==> IsNameChar(f.value[k])
    ensures f.Some? ==> f.value == [] || (!IsSpace(f.value[0]) && !IsSpace(f.value[|f.value| - 1]))
  {
    match Search(s, 0, RoleAt)
    case None => None
    case Some(h) =>
      var t := RemoveAll(RemoveAll(Group(s, h.group), "role"), "position");
      RoleGroupNames(s, h);
      StripKeeps(t, IsNameChar);
      Some(Strip(t))
  }

  /** The role group, with "role" and "position" removed, still holds only letters and whitespace. */
  lemma RoleGroupNames(s: string, h: Hit)
    requires Search(s, 0, RoleAt) == Some(h)
    ensures SpanIn(s, h.group)
    ensures var t := RemoveAll(RemoveAll(Group(s, h.group), "role"), "position");
      forall k :: 0 <= k < |t| ==> IsNameChar(t[k])
  {
    var g := Group(s, h.group);
    SliceKeeps(s, h.group.start, h.group.end, IsNameChar);
    var t1 := RemoveAll(g, "role");
    assert forall k :: 0 <= k < |t1| ==> IsNameChar(t1[k]);
  }

  /** The role pattern at a position where "for" and a name group match. */
  lemma RoleAtFor(s: string, g: Span)
    requires StartsAt(s, 0, "for") && SpacesThenGroup(s, 3, IsNameChar) == Some(g)
    ensures Search(s, 0, RoleAt) == Some(Hit(0, g))
  {
  }

  /** The role pattern matches "for", a space and a role at the very start, with the role as its group. */
  lemma {:induction false} RoleSearchFor(s: string)
    requires |s| > 4 && s[..4] == "for " && IsAsciiLetter(s[4])
    requires forall k :: 4 <= k < |s| ==> IsNameChar(s[k])
    ensures Search(s, 0, RoleAt) == Some(Hit(0, Span(4, |s|)))
  {
    assert StartsAt(s, 0, "for") by { assert s[..3] == s[..4][..3]; }
    SpaceThenNames(s, 3);
    RoleAtFor(s, Span(4, |s|));
  }

  /** A prompt that is "for ", then a role, has that role as the job filter, with "role" and "position" removed. */
  lemma {:induction false} RoleFilterOf(s: string, role: string)
    requires |s| > 4 && s[..4] == "for " && s[4..] == role && IsAsciiLetter(role[0])
    requires forall k :: 0 <= k < |role| ==> IsNameChar(role[k])
    ensures JobFilter(s) == Some(Strip(RemoveAll(RemoveAll(role, "role"), "position")))
  {
    forall k | 4 <= k < |s| ensures IsNameChar(s[k]) {
      assert s[k] == role[k - 4];
    }
    RoleSearchFor(s);
    assert Group(s, Span(4, |s|)) == role;
    JobFilterOfHit(s, Hit(0, Span(4, |s|)));
  }

  /** "for", a space and a role names that role as the job filter, with "role" and "position" removed. */
  lemma {:induction false} RoleRequest(role: string)
    requires |role| > 0 && IsAsciiLetter(role[0])
    requires forall k :: 0 <= k < |role| ==> IsNameChar(role[k])
    ensures JobFilter("for " + role) == Some(Strip(RemoveAll(RemoveAll(role, "role"), "position")))
  {
    var s := "for " + role;
    assert s[..4] == "for " && s[4..] == role;
    RoleFilterOf(s, role);
  }

  lemma JobFilterOfHit(s: string, h: Hit)
    requires Search(s, 0, RoleAt) == Some(h)
    ensures SpanIn(s, h.group)
    ensures JobFilter(s) == Some(Strip(RemoveAll(RemoveAll(Group(s, h.group), "role"), "position")))
  {
  }

  // The required skills.

  /** `(?:knowledge\s+of|with|having)\s+([a-zA-Z0-9+#.\-]+)` tried at `i`. */
  function SkillAt(s: string, i: nat): (g: Option<Span>)
    ensures g.Some? ==> i < g.value.start < g.value.end <= |s|
    ensures g.Some? ==> forall k :: g.value.start <= k < g.value.end ==> IsSkillChar(s[k])
  {
    var viaKnowledge :=
      if StartsAt(s, i, "knowledge") then
        var w := RunEnd(s, i + 9, IsSpace);
        if w > i + 9 && StartsAt(s, w, "of") then SpacesThenGroup(s, w + 2, IsSkillChar) else None
      else None;
    OrElse(viaKnowledge,
      OrElse(if StartsAt(s, i, "with") then SpacesThenGroup(s, i + 4, IsSkillChar) else None,
      if StartsAt(s, i, "having") then SpacesThenGroup(s, i + 6, IsSkillChar) else None))
  }

  /** `at` only matches forward: its group lies after the position tried. */
  ghost predicate Advancing(s: string, at: (string, nat) -> Option<Span>) {
    forall j: nat :: at(s, j).Some? ==> j < at(s, j).value.start < at(s, j).value.end <= |s|
  }

  /**
   * `re.findall` from `i` on: the groups of successive matches, each search resuming where the
   * last match ended, so the groups come in order and do not overlap.
   */
  function FindAll(s: string, i: nat, at: (string, nat) -> Option<Span>): (gs: seq<Span>)
    requires Advancing(s, at)
    ensures forall k :: 0 <= k < |gs| ==> i < gs[k].start < gs[k].end <= |s|
    ensures forall k :: 0 < k < |gs| ==> gs[k - 1].end < gs[k].start
    ensures gs == [] <==> Search(s, i, at).None?
    decreases |s| + 1 - i
  {
    match Search(s, i, at)
    case None => []
    case Some(h) => [h.group] + FindAll(s, h.group.end, at)
  }

  /** Every group `FindAll` reports is the group of a match of `at` at some position from `i` on. */
  lemma {:induction false} FindAllMatches(s: string, i: nat, at: (string, nat) -> Option<Span>, k: nat) returns (j: nat)
    requires Advancing(s, at)
    requires k < |FindAll(s, i, at)|
    ensures i <= j && at(s, j) == Some(FindAll(s, i, at)[k])
    decreases |s| + 1 - i
  {
    var h := Search(s, i, at).value;
    if k == 0 {
      j := h.pos;
    } else {
      j := FindAllMatches(s, h.group.end, at, k - 1);
    }
  }

  lemma SkillAtAdvancing(s: string)
    ensures Advancing(s, SkillAt)
  {
  }

  /** `tech_skill_match`: the skill groups of the prompt. */
  function SkillGroups(s: string): (gs: seq<string>)
  {
    SkillAtAdvancing(s);
    var spans := FindAll(s, 0, SkillAt);
    seq(|spans|, k requires 0 <= k < |spans| => Group(s, spans[k]))
  }

  /** "with", a space and a skill ask for that one skill. */
  lemma SkillRequest(w: string)
    requires |w| > 0 && forall k :: 0 <= k < |w| ==> IsSkillChar(w[k])
    ensures SkillGroups("with " + w) == [w]
  {
    var s := "with " + w;
    assert s[5..|s|] == w;
    SkillAfterWith(w);
    SkillAtAdvancing(s);
    FindAllWhole(s, SkillAt, Span(5, |s|));
  }

  /** At the start of "with " + `w`, the skill pattern takes all of `w` as its group. */
  lemma SkillAfterWith(w: string)
    requires |w| > 0 && forall k :: 0 <= k < |w| ==> IsSkillChar(w[k])
    ensures SkillAt("with " + w, 0) == Some(Span(5, 5 + |w|))
  {
    var s := "with " + w;
    assert StartsAt(s, 0, "with") by { assert s[..4] == "with"; }
    assert !StartsAt(s, 0, "knowledge") by {
      if |s| >= 9 { assert s[..9][0] == 'w'; }
    }
    assert forall k :: 5 <= k < |s| ==> s[k] == w[k - 5];
    RunEndAt(s, 4, 5, IsSpace);
    RunEndAt(s, 5, |s|, IsSkillChar);
  }

  /** A match at the very start whose group runs to the end is the only one `FindAll` reports. */
  lemma FindAllWhole(s: string, at: (string, nat) -> Option<Span>, g: Span)
    requires Advancing(s, at) && at(s, 0) == Some(g) && g.end == |s|
    ensures FindAll(s, 0, at) == [g]
  {
    assert Search(s, 0, at) == Some(Hit(0, g));
    assert at(s, |s|).None?;
    assert Search(s, |s|, at).None?;
  }

  /** Each skill group is a non-empty run of skill characters. */
  lemma SkillGroupChars(s: string, k: nat)
    requires k < |SkillGroups(s)|
    ensures |SkillGroups(s)[k]| > 0
    ensures forall m :: 0 <= m < |SkillGroups(s)[k]| ==> IsSkillChar(SkillGroups(s)[k][m])
    ensures forall m :: 0 <= m < |SkillGroups(s)[k]| ==> SkillGroups(s)[k][m] in s
  {
    SkillAtAdvancing(s);
    var spans := FindAll(s, 0, SkillAt);
    var j := FindAllMatches(s, 0, SkillAt, k);
    assert SkillGroups(s)[k] == s[spans[k].start..spans[k].end];
    SliceKeeps(s, spans[k].start, spans[k].end, IsSkillChar);
  }

  /** On a cleaned prompt a skill group is clean already. */
  lemma CleanSkillGroup(s: string, k: nat)
    requires forall m :: 0 <= m < |s| ==> PromptText.IsCleanChar(s[m])
    requires k < |SkillGroups(s)|
    ensures PromptText.CleanText(SkillGroups(s)[k]) == SkillGroups(s)[k] != []
  {
    var g := SkillGroups(s)[k];
    SkillGroupChars(s, k);
    CleanSkill(g);
  }

  /** A skill made of clean characters is clean already. */
  lemma CleanSkill(g: string)
    requires forall m :: 0 <= m < |g| ==> IsSkillChar(g[m]) && PromptText.IsCleanChar(g[m])
    ensures PromptText.CleanText(g) == g
  {
    assert forall m :: 0 <= m < |g| ==> !IsSpace(g[m]);
    PromptText.CleanFixesClean(g);
  }

  /** `[clean_text(skill) for skill in skills]`. */
  function CleanEach(skills: seq<string>): (r: seq<string>)
    ensures |r| == |skills| && forall k :: 0 <= k < |r| ==> r[k] == PromptText.CleanText(skills[k])
  {
    seq(|skills|, k requires 0 <= k < |skills| => PromptText.CleanText(skills[k]))
  }

  /** `required_skills`. */
  function RequiredSkills(s: string): seq<string> {
    CleanEach(SkillGroups(s))
  }

  /** On a cleaned prompt every skill is already clean, so `required_skills` are the matched groups, none empty. */
  lemma SkillsOfCleanPrompt(s: string)
    requires forall k :: 0 <= k < |s| ==> PromptText.IsCleanChar(s[k])
    ensures RequiredSkills(s) == SkillGroups(s)
    ensures forall k :: 0 <= k < |RequiredSkills(s)| ==> RequiredSkills(s)[k] != []
  {
    var gs := SkillGroups(s);
    forall k | 0 <= k < |gs| ensures PromptText.CleanText(gs[k]) == gs[k] != [] {
      CleanSkillGroup(s, k);
    }
  }

  // The intent of a prompt.

  /** What the prompt asks for. */
  datatype Intent =
    | SummarizeOne(nameQuery: string)
    | FilterRank(topN: nat, jobFilter: Option<string>, skills: seq<string>)

  /** The number of candidates when the prompt names none. */
  const DefaultTopN: nat := 5

  /**
   * The intent of a cleaned prompt: a summarize request takes precedence; otherwise the
   * number (5 by default), the role and the skills it names. The number is read with the
   * count pattern as the source writes it, so "top 2" falls back to 5.
   */
  function ParseIntent(s: string): (r: Intent)
    ensures r.SummarizeOne? <==> Search(s, 0, SummarizeAt).Some?
    ensures r.SummarizeOne? ==> NameQuery(s) == Some(r.nameQuery)
    ensures r.SummarizeOne? ==> forall k :: 0 <= k < |r.nameQuery| ==> IsNameChar(r.nameQuery[k])
    ensures r.FilterRank? ==> r.topN == TopNAsWritten(s).GetOr(DefaultTopN)
    ensures r.FilterRank? && (forall j :: 0 <= j <= |s| ==> NumberAtAsWritten(s, j).None?) ==> r.topN == DefaultTopN
    ensures r.FilterRank? && (forall k :: 0 <= k < |s| ==> !IsDigit(s[k])) ==> r.topN == DefaultTopN
    ensures r.FilterRank? ==> r.jobFilter == JobFilter(s) && r.skills == RequiredSkills(s)
  {
    match NameQuery(s)
    case Some(q) => SummarizeOne(q)
    case None =>
      NoDigitsNoNumber(s);
      FilterRank(TopNAsWritten(s).GetOr(DefaultTopN), JobFilter(s), RequiredSkills(s))
  }
}
