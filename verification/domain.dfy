/** Domain heuristics of the bot: whether a message asks for elective
    recommendations, which background tags it mentions, which master's
    programme it names, and whether a question is relevant to the indexed
    pages at all. */
module Domain {
  import opened Wrappers
  import opened Seqs
  import opened Text
  import opened Documents
  import opened Retrieval

  // ---------------------------------------------------------------------
  // Recommendation intent

  /** One of the intent regular expressions: a plain word stem, or two words
      separated by one or more whitespace characters (`a\s+b`). */
  datatype Pattern = Stem(word: string) | Spaced(first: string, second: string)

  /** The intent patterns, already lower-case like the text they are
      searched in. */
  const RecommendPatterns: seq<Pattern> :=
    [Recommend, Elective, ElectiveLatin, WhatToChoose, WhichSubjects, BetterToAttend, ByBackground]

  const Recommend: Pattern := Stem("рекоменд")
  const Elective: Pattern := Stem("выборн")
  const ElectiveLatin: Pattern := Stem("электив")
  const WhatToChoose: Pattern := Spaced("что", "выбрат")
  const WhichSubjects: Pattern := Spaced("какие", "дисциплины")
  const BetterToAttend: Pattern := Spaced("лучше", "послушать")
  const ByBackground: Pattern := Spaced("по", "бэкграунду")

  /** `s[lo..hi]` is whitespace only. */
  predicate AllSpace(s: string, lo: nat, hi: nat) {
    lo <= hi <= |s| && forall k :: lo <= k < hi ==> IsSpace(s[k])
  }

  /** What the regular expression means: the pattern matches at position
      `i`, the `\s+` absorbing some non-empty run of whitespace. */
  ghost predicate MatchAt(s: string, p: Pattern, i: nat) {
    match p
    case Stem(w) => OccursAt(s, w, i)
    case Spaced(a, b) => OccursAt(s, a, i) && SpaceThen(s, i + |a|, b)
  }

  /** `\s+` followed by `b` matches at `start`: some non-empty whitespace
      run from `start` is followed by `b`. */
  ghost predicate SpaceThen(s: string, start: nat, b: string) {
    exists j :: start < j && AllSpace(s, start, j) && OccursAt(s, b, j)
  }

  /** `re.search(p, s)` succeeds. */
  ghost predicate Searches(s: string, p: Pattern) {
    exists i: nat :: MatchAt(s, p, i)
  }

  /** The second word of a spaced pattern starts with a non-space, so the
      whitespace run before it is exactly the longest one. */
  predicate WellFormed(p: Pattern) {
    p.Spaced? ==> |p.second| > 0 && !IsSpace(p.second[0])
  }

  /** The match at `i` computed greedily: after the first word, skip the
      longest whitespace run (at least one character) and compare. */
  predicate MatchesAt(s: string, p: Pattern, i: nat) {
    match p
    case Stem(w) => OccursAt(s, w, i)
    case Spaced(a, b) => OccursAt(s, a, i) && SpacedTail(s[i + |a|..], b)
  }

  /** `rest` opens with at least one whitespace character, and `b` follows
      the whole whitespace run. */
  predicate SpacedTail(rest: string, b: string) {
    SpacedTailOf(TrimStart(rest, IsSpace), rest, b)
  }

  /** `t`, what is left of `rest` after its whitespace, is shorter than
      `rest` and starts with `b`. */
  predicate SpacedTailOf(t: string, rest: string, b: string) {
    |t| < |rest| && |b| <= |t| && t[..|b|] == b
  }

  /** Some position matches greedily. */
  predicate ContainsPattern(s: string, p: Pattern) {
    exists i: nat | i <= |s| :: MatchesAt(s, p, i)
  }

  /** The greedy match agrees with the regular expression at every
      position. */
  lemma MatchesAtIff(s: string, p: Pattern, i: nat)
    requires WellFormed(p)
    ensures MatchesAt(s, p, i) <==> MatchAt(s, p, i)
  {
    match p
    case Stem(_) =>
    case Spaced(a, b) =>
      if OccursAt(s, a, i) {
        SpacedTailIff(s, b, i + |a|);
        assert MatchesAt(s, p, i) <==> SpacedTail(s[i + |a|..], b);
        assert MatchAt(s, p, i) <==> SpaceThen(s, i + |a|, b);
      }
  }

  /** After the first word at `start`, the greedy tail matches exactly when
      some whitespace run followed by the second word does. */
  lemma SpacedTailIff(s: string, b: string, start: nat)
    requires start <= |s| && |b| > 0 && !IsSpace(b[0])
    ensures SpacedTail(s[start..], b) <==> SpaceThen(s, start, b)
  {
    var e := SpaceRun(s, start);
    if SpacedTail(s[start..], b) {
      GreedyMatches(s, b, start, e);
    }
    if j :| start < j && AllSpace(s, start, j) && OccursAt(s, b, j) {
      MatchesGreedy(s, b, start, e, j);
    }
  }

  /** The end `e` of the longest whitespace run starting at `start`: what
      `TrimStart` leaves is the text from `e` on. */
  lemma SpaceRun(s: string, start: nat) returns (e: nat)
    requires start <= |s|
    ensures AllSpace(s, start, e)
    ensures e < |s| ==> !IsSpace(s[e])
    ensures TrimStart(s[start..], IsSpace) == s[e..]
  {
    var rest := s[start..];
    var t := TrimStart(rest, IsSpace);
    e := start + (|rest| - |t|);
    assert t == s[e..];
    forall k | start <= k < e
      ensures IsSpace(s[k])
    {
      assert s[k] == rest[k - start];
    }
  }

  /** A greedy match is a regular-expression match. */
  lemma GreedyMatches(s: string, b: string, start: nat, e: nat)
    requires start <= e <= |s| && AllSpace(s, start, e)
    requires TrimStart(s[start..], IsSpace) == s[e..]
    requires SpacedTail(s[start..], b)
    ensures start < e && OccursAt(s, b, e)
  {
    var t := TrimStart(s[start..], IsSpace);
    assert |t| < |s[start..]| && |b| <= |t| && t[..|b|] == b;
    PrefixAt(s, e, b);
  }

  /** A prefix of the text from `e` on occurs at `e`. */
  lemma PrefixAt(s: string, e: nat, b: string)
    requires e <= |s| && |b| <= |s| - e && s[e..][..|b|] == b
    ensures OccursAt(s, b, e)
  {
    assert s[e..][..|b|] == s[e..e + |b|];
  }

  /** A regular-expression match is the greedy one: the whitespace run it
      absorbs is the longest, because the second word starts with a
      non-space. */
  lemma MatchesGreedy(s: string, b: string, start: nat, e: nat, j: nat)
    requires |b| > 0 && !IsSpace(b[0])
    requires start <= e <= |s| && AllSpace(s, start, e) && (e < |s| ==> !IsSpace(s[e]))
    requires TrimStart(s[start..], IsSpace) == s[e..]
    requires start < j && AllSpace(s, start, j) && OccursAt(s, b, j)
    ensures SpacedTail(s[start..], b)
  {
    assert s[j] == b[0];
    assert j == e;
    assert s[e..][..|b|] == s[j..j + |b|];
  }

  /** Searching greedily finds exactly what the regular expression finds. */
  lemma ContainsPatternIff(s: string, p: Pattern)
    requires WellFormed(p)
    ensures ContainsPattern(s, p) <==> Searches(s, p)
  {
    if ContainsPattern(s, p) {
      var i: nat :| i <= |s| && MatchesAt(s, p, i);
      MatchesAtIff(s, p, i);
    }
    if Searches(s, p) {
      var i: nat :| MatchAt(s, p, i);
      MatchesAtIff(s, p, i);
      assert i <= |s|;
    }
  }

  /** `is_recommendation_intent`: some pattern is found in `text.lower()`. */
  predicate IsRecommendationIntent(text: string) {
    exists k | 0 <= k < |RecommendPatterns| :: ContainsPattern(Lower(text), RecommendPatterns[k])
  }

  /** The intent test is the `any(re.search(...))` of the source. */
  lemma IntentIff(text: string)
    ensures IsRecommendationIntent(text) <==>
      exists k :: 0 <= k < |RecommendPatterns| && Searches(Lower(text), RecommendPatterns[k])
  {
    forall k | 0 <= k < |RecommendPatterns|
      ensures ContainsPattern(Lower(text), RecommendPatterns[k]) <==> Searches(Lower(text), RecommendPatterns[k])
    {
      ContainsPatternIff(Lower(text), RecommendPatterns[k]);
    }
  }

  /** The intent test ignores case. */
  lemma IntentIgnoresCase(text: string)
    ensures IsRecommendationIntent(Lower(text)) == IsRecommendationIntent(text)
  {
    LowerIdempotent(text);
  }

  /** Capitals and a run of several spaces still match `что\s+выбрат`. */
  lemma IntentExample()
    ensures IsRecommendationIntent("Что  выбрать?")
  {
    assert RecommendPatterns[3] == WhatToChoose;
    LowerExample();
    MatchExample();
  }

  /** Lower-casing the example. */
  lemma LowerExample()
    ensures Lower("Что  выбрать?") == "что  выбрать?"
  {
  }

  /** The greedy match of `что\s+выбрат` at the start of the example. */
  lemma MatchExample()
    ensures ContainsPattern("что  выбрать?", WhatToChoose)
  {
    var s := "что  выбрать?";
    assert s[3..] == "  выбрать?";
    SkipTwoSpaces();
    assert "выбрать?"[..6] == "выбрат";
    assert s[0..3] == "что";
    assert MatchesAt(s, Spaced("что", "выбрат"), 0);
  }

  /** Skipping the run of two spaces. */
  lemma SkipTwoSpaces()
    ensures TrimStart("  выбрать?", IsSpace) == "выбрать?"
  {
    assert !IsSpace('в');
    assert TrimStart("выбрать?", IsSpace) == "выбрать?";
    assert " выбрать?"[1..] == "выбрать?";
    assert TrimStart(" выбрать?", IsSpace) == "выбрать?";
    assert "  выбрать?"[1..] == " выбрать?";
  }

  // ---------------------------------------------------------------------
  // Background tags

  /** `_BG_TAGS`: each tag with the substrings that reveal it, in the
      dictionary's insertion order. */
  const BackgroundTags: seq<(string, seq<string>)> := [
    ("python", ["python", "питон"]),
    ("ml", ["ml", "machine learning", "машин", "обучени"]),
    ("data_science", ["data science", "аналитик", "анализ данных", "ds"]),
    ("cv", ["computer vision", "cv", "компьютерн", "зрение"]),
    ("nlp", ["nlp", "обработк", "текст", "язык"]),
    ("product", ["product", "продакт", "менеджмент", "управлен"]),
    ("backend", ["backend", "бэкенд", "сервер", "python dev", "java", "go", "node"]),
    ("frontend", ["frontend", "фронтенд", "web", "react", "vue", "ui"]),
    ("math", ["матем", "матстат", "вероятност", "алгебр"]),
    ("devops", ["devops", "mlo", "mlops", "docker", "kubernetes", "k8s"])
  ]

  /** The tag names of a table, in order. */
  function Keys(table: seq<(string, seq<string>)>): (r: seq<string>)
    ensures |r| == |table| && forall k :: 0 <= k < |table| ==> r[k] == table[k].0
  {
    seq(|table|, k requires 0 <= k < |table| => table[k].0)
  }

  /** `any(p in s for p in patterns)`. */
  predicate AnyIn(s: string, patterns: seq<string>) {
    exists k | 0 <= k < |patterns| :: Contains(s, patterns[k])
  }

  /** The loop over the table: the tags some of whose substrings occur. */
  function TagsFrom(table: seq<(string, seq<string>)>, s: string): (r: seq<string>)
  {
    if |table| == 0 then []
    else (if AnyIn(s, table[0].1) then [table[0].0] else []) + TagsFrom(table[1..], s)
  }

  /** A tag is reported exactly when one of its substrings occurs; the
      tags come out in table order and, the table's names being distinct,
      each at most once. */
  lemma TagsFromSpec(table: seq<(string, seq<string>)>, s: string)
    ensures forall t :: t in TagsFrom(table, s) <==>
      exists k :: 0 <= k < |table| && table[k].0 == t && AnyIn(s, table[k].1)
    ensures SubseqOf(TagsFrom(table, s), Keys(table))
    ensures Distinct(Keys(table)) ==> Distinct(TagsFrom(table, s))
  {
    TagsFromMembers(table, s);
    TagsFromOrder(table, s);
    if Distinct(Keys(table)) {
      TagsFromDistinct(table, s);
    }
  }

  /** The tags reported are those with an occurring substring. */
  lemma {:induction false} TagsFromMembers(table: seq<(string, seq<string>)>, s: string)
    ensures forall t :: t in TagsFrom(table, s) <==>
      exists k :: 0 <= k < |table| && table[k].0 == t && AnyIn(s, table[k].1)
  {
    if |table| > 0 {
      var rest := TagsFrom(table[1..], s);
      TagsFromMembers(table[1..], s);
      assert TagsFrom(table, s) == (if AnyIn(s, table[0].1) then [table[0].0] else []) + rest;
      forall t
        ensures t in TagsFrom(table, s) <==> exists k :: 0 <= k < |table| && table[k].0 == t && AnyIn(s, table[k].1)
      {
        if t in rest {
          var k :| 0 <= k < |table[1..]| && table[1..][k].0 == t && AnyIn(s, table[1..][k].1);
          assert table[k + 1] == table[1..][k];
        }
        if k :| 0 <= k < |table| && table[k].0 == t && AnyIn(s, table[k].1) {
          if k > 0 {
            assert table[1..][k - 1] == table[k];
          }
        }
      }
    }
  }

  /** The tags come out in the table's order. */
  lemma {:induction false} TagsFromOrder(table: seq<(string, seq<string>)>, s: string)
    ensures SubseqOf(TagsFrom(table, s), Keys(table))
  {
    if |table| > 0 {
      var r := TagsFrom(table, s);
      var rest := TagsFrom(table[1..], s);
      TagsFromOrder(table[1..], s);
      assert Keys(table)[1..] == Keys(table[1..]);
      if AnyIn(s, table[0].1) {
        assert r[0] == Keys(table)[0] && r[1..] == rest;
      } else {
        assert r == rest;
      }
    }
  }

  /** Distinct tag names give a report without repetitions. */
  lemma {:induction false} TagsFromDistinct(table: seq<(string, seq<string>)>, s: string)
    requires Distinct(Keys(table))
    ensures Distinct(TagsFrom(table, s))
  {
    if |table| > 0 {
      var rest := TagsFrom(table[1..], s);
      assert Keys(table)[1..] == Keys(table[1..]);
      TagsFromDistinct(table[1..], s);
      if AnyIn(s, table[0].1) {
        TagsFromMembers(table[1..], s);
        forall t | t in rest
          ensures t != table[0].0
        {
          var k :| 0 <= k < |table[1..]| && table[1..][k].0 == t && AnyIn(s, table[1..][k].1);
          assert Keys(table)[k + 1] == t;
        }
        DistinctCons(table[0].0, rest);
      }
    }
  }

  /** Putting an element absent from a list without repetitions in front of it
      keeps it without repetitions. */
  lemma DistinctCons(x: string, rest: seq<string>)
    requires Distinct(rest) && x !in rest
    ensures Distinct([x] + rest)
  {
    var r := [x] + rest;
    forall i, j | 0 <= i < j < |r|
      ensures r[i] != r[j]
    {
      assert r[j] == rest[j - 1];
      if i > 0 {
        assert r[i] == rest[i - 1];
      }
    }
  }

  /** With distinct tag names, each tag is reported exactly when one of its
      own substrings occurs. */
  lemma TagsFromKey(table: seq<(string, seq<string>)>, s: string, k: nat)
    requires Distinct(Keys(table)) && k < |table|
    ensures table[k].0 in TagsFrom(table, s) <==> AnyIn(s, table[k].1)
  {
    TagsFromMembers(table, s);
    if table[k].0 in TagsFrom(table, s) {
      var k' :| 0 <= k' < |table| && table[k'].0 == table[k].0 && AnyIn(s, table[k'].1);
      assert Keys(table)[k'] == Keys(table)[k];
    }
  }

  /** `extract_background_tags`: the tags of the table whose substrings
      occur in `text.lower()`. */
  function ExtractBackgroundTags(text: string): seq<string>
  {
    TagsFrom(BackgroundTags, Lower(text))
  }

  /** Every tag of the table is reported exactly when one of its
      substrings occurs in the lower-cased text; nothing else is reported,
      the order is the table's, and no tag repeats. */
  lemma ExtractBackgroundTagsSpec(text: string)
    ensures forall k :: 0 <= k < |BackgroundTags| ==>
      (BackgroundTags[k].0 in ExtractBackgroundTags(text) <==> AnyIn(Lower(text), BackgroundTags[k].1))
    ensures forall t | t in ExtractBackgroundTags(text) :: t in Keys(BackgroundTags)
    ensures SubseqOf(ExtractBackgroundTags(text), Keys(BackgroundTags))
    ensures Distinct(ExtractBackgroundTags(text))
  {
    BackgroundKeysDistinct();
    TagsFromSpec(BackgroundTags, Lower(text));
    forall k | 0 <= k < |BackgroundTags|
      ensures BackgroundTags[k].0 in ExtractBackgroundTags(text) <==> AnyIn(Lower(text), BackgroundTags[k].1)
    {
      TagsFromKey(BackgroundTags, Lower(text), k);
    }
  }

  /** The table's tag names are distinct. */
  lemma BackgroundKeysDistinct()
    ensures Distinct(Keys(BackgroundTags))
  {
    assert Keys(BackgroundTags) == ["python", "ml", "data_science", "cv", "nlp", "product", "backend", "frontend", "math", "devops"];
  }

  /** The tags are plain substring tests, so short patterns fire inside
      unrelated words: "Django" contains "go" and is reported as backend. */
  lemma TagsMatchInsideWords()
    ensures "backend" in ExtractBackgroundTags("Django")
  {
    var s := Lower("Django");
    assert s == "django";
    assert OccursAt(s, "go", 4);
    assert AnyIn(s, BackgroundTags[6].1) by {
      assert BackgroundTags[6].1[5] == "go";
    }
    ExtractBackgroundTagsSpec("Django");
  }

  /** Where the two stems stand in the lower-cased example. */
  lemma TagsExampleOccurs(s: string)
    requires s == "у меня опыт python и ml"
    ensures OccursAt(s, "python", 12) && OccursAt(s, "ml", 21)
  {
    assert s[12..18] == "python";
    assert s[21..23] == "ml";
  }

  /** Both "python" and "ml" are reported for "У меня опыт Python и ML". */
  lemma TagsExample()
    ensures "python" in ExtractBackgroundTags("У меня опыт Python и ML")
    ensures "ml" in ExtractBackgroundTags("У меня опыт Python и ML")
  {
    var s := Lower("У меня опыт Python и ML");
    TagsExampleLower();
    TagsExampleOccurs(s);
    assert BackgroundTags[0].1[0] == "python" && BackgroundTags[1].1[0] == "ml";
    assert AnyIn(s, BackgroundTags[0].1) && AnyIn(s, BackgroundTags[1].1);
    ExtractBackgroundTagsSpec("У меня опыт Python и ML");
  }

  /** Lower-casing the tag example. */
  lemma TagsExampleLower()
    ensures Lower("У меня опыт Python и ML") == "у меня опыт python и ml"
  {
  }

  /** The tag test ignores case. */
  lemma TagsIgnoreCase(text: string)
    ensures ExtractBackgroundTags(Lower(text)) == ExtractBackgroundTags(text)
  {
    LowerIdempotent(text);
  }

  // ---------------------------------------------------------------------
  // Programme detection

  /** A character of the regular expression class `\w`: letters, digits and
      `_` (ASCII, and the Cyrillic block U+0400-U+04FF). */
  predicate IsWordChar(c: char) {
    || ('a' <= c <= 'z') || ('A' <= c <= 'Z') || ('0' <= c <= '9') || c == '_'
    || ('\U{0400}' <= c <= '\U{04FF}')
  }

  /** `re.search(r"\bai\b", t)`: "ai" occurs with no word character right
      before or right after it. */
  predicate HasWordAi(t: string) {
    exists i | 0 <= i <= |t| - 2 ::
      && OccursAt(t, "ai", i)
      && (i == 0 || !IsWordChar(t[i - 1]))
      && (i + 2 == |t| || !IsWordChar(t[i + 2]))
  }

  /** `detect_program_from_text`: the AI Product programme wins over the AI
      programme; `None` when neither is named. */
  function DetectProgram(text: string): Option<string>
  {
    var t := Lower(text);
    if Contains(t, "ai product") || Contains(t, "ai_product") || Contains(t, "продакт") || Contains(t, "product") then
      Some("ai_product")
    else if HasWordAi(t) || Contains(t, "искусствен") then
      Some("ai")
    else
      None
  }

  /** An occurrence of `a + b` contains an occurrence of `b`. */
  lemma ContainsSuffix(s: string, a: string, b: string)
    requires Contains(s, a + b)
    ensures Contains(s, b)
  {
    var i :| 0 <= i <= |s| - |a + b| && OccursAt(s, a + b, i);
    assert s[i + |a|..i + |a| + |b|] == (a + b)[|a|..];
    assert OccursAt(s, b, i + |a|);
  }

  /** The result in terms of the two programmes' markers: "ai product" and
      "ai_product" add nothing to "product", and the AI programme is
      reported only when the product markers are absent. */
  lemma DetectProgramSpec(text: string)
    ensures DetectProgram(text) == Some("ai_product") <==>
      Contains(Lower(text), "product") || Contains(Lower(text), "продакт")
    ensures DetectProgram(text) == Some("ai") <==>
      && !Contains(Lower(text), "product") && !Contains(Lower(text), "продакт")
      && (HasWordAi(Lower(text)) || Contains(Lower(text), "искусствен"))
    ensures DetectProgram(text).None? <==>
      && !Contains(Lower(text), "product") && !Contains(Lower(text), "продакт")
      && !HasWordAi(Lower(text)) && !Contains(Lower(text), "искусствен")
  {
    var t := Lower(text);
    if Contains(t, "ai product") {
      assert "ai product" == "ai " + "product";
      ContainsSuffix(t, "ai ", "product");
    }
    if Contains(t, "ai_product") {
      assert "ai_product" == "ai_" + "product";
      ContainsSuffix(t, "ai_", "product");
    }
  }

  /** Programme detection ignores case. */
  lemma DetectIgnoresCase(text: string)
    ensures DetectProgram(Lower(text)) == DetectProgram(text)
  {
    LowerIdempotent(text);
  }

  /** "ai" inside a word is not the AI programme; the word "ai" is. */
  lemma DetectProgramWordBoundary()
    ensures DetectProgram("Email").None?
    ensures DetectProgram("Master AI") == Some("ai")
  {
    EmailLower();
    EmailMarkers(Lower("Email"));
    DetectProgramSpec("Email");
    MasterAiLower();
    MasterAiMarkers(Lower("Master AI"));
    DetectProgramSpec("Master AI");
  }

  /** Lower-casing the first example. */
  lemma EmailLower()
    ensures Lower("Email") == "email"
  {
  }

  /** Lower-casing the second example. */
  lemma MasterAiLower()
    ensures Lower("Master AI") == "master ai"
  {
  }

  /** "email" holds "ai" only inside a word, and no other marker. */
  lemma EmailMarkers(t: string)
    requires t == "email"
    ensures !Contains(t, "product") && !Contains(t, "продакт") && !Contains(t, "искусствен")
    ensures !HasWordAi(t)
  {
    AbsentHead(t, "product");
    AbsentHead(t, "продакт");
    AbsentHead(t, "искусствен");
    forall i | 0 <= i <= |t| - 2 && OccursAt(t, "ai", i)
      ensures i > 0 && IsWordChar(t[i - 1])
    {
      assert t[i] == 'a';
      assert i == 2;
    }
  }

  /** "master ai" holds the word "ai" and no product marker. */
  lemma MasterAiMarkers(u: string)
    requires u == "master ai"
    ensures !Contains(u, "product") && !Contains(u, "продакт")
    ensures HasWordAi(u)
  {
    AbsentHead(u, "product");
    AbsentHead(u, "продакт");
    assert OccursAt(u, "ai", 7);
  }

  // ---------------------------------------------------------------------
  // Relevance gate

  /** The default relevance threshold. */
  const DefaultThreshold: real := 0.08

  /** `is_relevant_question`: the best hit of a one-result search, if there
      is one, must score at least `threshold`; a `KeyError` of the search
      propagates. */
  function IsRelevantQuestion(m: map<string, Doc>, ids: seq<string>, sims: seq<real>, threshold: real): Result<bool, Error>
  {
    var hits := Search(m, ids, sims, 1);
    if hits.Failure? then Failure(hits.error)
    else if |hits.value| == 0 then Success(false)
    else Success(hits.value[0].score >= threshold)
  }

  /** A question is relevant exactly when the single search hit exists and
      clears the threshold; that hit is an indexed chunk whose similarity
      is at least the threshold. */
  lemma RelevanceSpec(m: map<string, Doc>, ids: seq<string>, sims: seq<real>, threshold: real)
    ensures IsRelevantQuestion(m, ids, sims, threshold).Failure? <==> Search(m, ids, sims, 1).Failure?
    ensures IsRelevantQuestion(m, ids, sims, threshold) == Success(true) <==>
      Search(m, ids, sims, 1).Success? && |Search(m, ids, sims, 1).value| == 1 && Search(m, ids, sims, 1).value[0].score >= threshold
    ensures IsRelevantQuestion(m, ids, sims, threshold) == Success(true) ==>
      exists k :: 0 <= k < |ids| && k < |sims| && sims[k] >= threshold
  {
    var hits := Search(m, ids, sims, 1);
    if hits.Success? {
      SearchFacts(m, ids, sims, 1, hits.value);
      if |hits.value| > 0 {
        assert |hits.value| == 1;
        var k :| 0 <= k < |ids| && k < |sims| && hits.value[0].id == ids[k] && hits.value[0].score == sims[k];
      }
    }
  }

  /** Lowering the threshold never turns a relevant question irrelevant. */
  lemma RelevanceMonotone(m: map<string, Doc>, ids: seq<string>, sims: seq<real>, lo: real, hi: real)
    requires lo <= hi
    ensures IsRelevantQuestion(m, ids, sims, hi) == Success(true) ==> IsRelevantQuestion(m, ids, sims, lo) == Success(true)
  {
  }

  /** Only the best-ranked chunk counts: when it has no metadata, the
      question is judged irrelevant even if the next chunk would clear any
      threshold. */
  lemma RelevanceLooksAtTopOnly()
    ensures IsRelevantQuestion(map["b" := Doc(Some("b"), Some("u"), None, Some("t"))], ["a", "b"], [1.0, 0.5], 0.0) == Success(false)
  {
    SearchSkipsAfterCut();
  }
}
