/** The elective recommender: keep the chunks of one programme, score each
    by course keywords and the student's background tags, and return the
    beginnings of the best-scoring chunks. */
module Recommender {
  import opened Wrappers
  import opened Seqs
  import opened Text
  import opened Documents
  import opened Ranking
  import Scrape

  /** `d.get(key, "")`: an absent key reads as the empty string. */
  function Field(f: Option<string>): string { f.GetOr("") }

  /** The programme name occurs in the record's title, id or url. */
  predicate MatchesProgram(d: Doc, program: string) {
    Contains(Field(d.title), program) || Contains(Field(d.id), program) || Contains(Field(d.url), program)
  }

  /** `filter_docs_by_program`. */
  function FilterByProgram(docs: seq<Doc>, program: string): seq<Doc>
  {
    Filter(docs, d => MatchesProgram(d, program))
  }

  /** The filter keeps exactly the records naming the programme, every
      copy of each, in their original order. */
  lemma FilterByProgramSpec(docs: seq<Doc>, program: string)
    ensures forall d | d in FilterByProgram(docs, program) :: d in docs && MatchesProgram(d, program)
    ensures forall i :: 0 <= i < |docs| && MatchesProgram(docs[i], program) ==> docs[i] in FilterByProgram(docs, program)
    ensures SubseqOf(FilterByProgram(docs, program), docs)
    ensures forall d :: multiset(FilterByProgram(docs, program))[d] == (if MatchesProgram(d, program) then multiset(docs)[d] else 0)
  {
    FilterIsSubseq(docs, d => MatchesProgram(d, program));
    FilterCount(docs, d => MatchesProgram(d, program));
  }

  /** The empty string occurs in every string, so an empty programme name
      keeps every record (even one with no title, id or url). */
  lemma EmptyProgramKeepsAll(docs: seq<Doc>)
    ensures FilterByProgram(docs, "") == docs
  {
    forall i | 0 <= i < |docs|
      ensures MatchesProgram(docs[i], "")
    {
      assert OccursAt(Field(docs[i].title), "", 0);
    }
    FilterAll(docs, d => MatchesProgram(d, ""));
  }

  /** The filter is a substring test, so the programme "ai" also selects
      every record scraped from the AI Product page, whose url contains
      "ai". */
  lemma AiSelectsProductPage(text: string)
    ensures forall d | d in Scrape.PageDocuments(Scrape.ProgramUrls[1], text) :: MatchesProgram(d, "ai")
  {
    var url := Scrape.ProgramUrls[1];
    assert OccursAt(url, "ai", 36);
    var docs := Scrape.PageDocuments(url, text);
    forall d | d in docs
      ensures MatchesProgram(d, "ai")
    {
      var i :| 0 <= i < |docs| && docs[i] == d;
      assert Field(d.url) == url;
    }
  }

  /** `KEYWORDS`: stems of "choice", "elective", "module", "track",
      "course", "discipline" and "catalogue". */
  const Keywords: seq<string> := ["выбор", "электив", "модуль", "трек", "курс", "дисциплин", "каталог"]

  /** How many entries of `words` occur in `text`; an entry counts once
      however often it occurs, and a repeated entry counts again. */
  function CountIn(words: seq<string>, text: string): (n: nat)
    ensures n <= |words|
  {
    if |words| == 0 then 0
    else (if Contains(text, words[0]) then 1 else 0) + CountIn(words[1..], text)
  }

  /** The positions of `words` whose entry occurs in `text`. */
  function Occurring(words: seq<string>, text: string): set<nat>
  {
    set i: nat | i < |words| && Contains(text, words[i])
  }

  /** Counting an entry added at the end. */
  lemma {:induction false} CountInSnoc(words: seq<string>, w: string, text: string)
    ensures CountIn(words + [w], text) == CountIn(words, text) + (if Contains(text, w) then 1 else 0)
  {
    if |words| > 0 {
      assert (words + [w])[1..] == words[1..] + [w];
      CountInSnoc(words[1..], w, text);
    } else {
      assert words + [w] == [w];
    }
  }

  /** The count is the number of positions whose entry occurs. */
  lemma {:induction false} CountInIsCardinality(words: seq<string>, text: string)
    ensures CountIn(words, text) == |Occurring(words, text)|
  {
    if |words| == 0 {
      assert Occurring(words, text) == {};
    } else {
      var init := words[..|words| - 1];
      var w := words[|words| - 1];
      assert words == init + [w];
      CountInSnoc(init, w, text);
      CountInIsCardinality(init, text);
      var n := |words| - 1;
      if Contains(text, w) {
        assert Occurring(words, text) == Occurring(init, text) + {n};
        assert n !in Occurring(init, text);
      } else {
        assert Occurring(words, text) == Occurring(init, text);
      }
    }
  }

  /** The inner `score(doc)`: one point per keyword and half a point per
      background tag occurring in the lower-cased text (no text scores 0). */
  function Score(d: Doc, tags: seq<string>): real
  {
    var text := Lower(Field(d.text));
    CountIn(Keywords, text) as real + 0.5 * CountIn(tags, text) as real
  }

  /** The score counts keyword and tag positions, and is bounded by the
      number of keywords plus half the number of tags. */
  lemma ScoreSpec(d: Doc, tags: seq<string>)
    ensures Score(d, tags) == |Occurring(Keywords, Lower(Field(d.text)))| as real
                              + 0.5 * |Occurring(tags, Lower(Field(d.text)))| as real
    ensures 0.0 <= Score(d, tags) <= |Keywords| as real + 0.5 * |tags| as real
  {
    CountInIsCardinality(Keywords, Lower(Field(d.text)));
    CountInIsCardinality(tags, Lower(Field(d.text)));
  }

  /** A keyword counts once however often it occurs, and a tag listed twice
      counts twice. */
  lemma ScoreExample()
    ensures Score(Doc(None, None, None, Some("Выбор, выбор")), ["ml", "ml"]) == 1.0
    ensures Score(Doc(None, None, None, Some("ML")), ["ml", "ml"]) == 1.0
  {
    RepeatedKeywordScore();
    RepeatedTagScore();
  }

  /** A keyword occurring twice scores one point; an absent tag nothing. */
  lemma RepeatedKeywordScore()
    ensures Score(Doc(None, None, None, Some("Выбор, выбор")), ["ml", "ml"]) == 1.0
  {
    var a := Lower("Выбор, выбор");
    LowerKeywordExample();
    OneKeyword(a);
    NoTag(a);
  }

  /** A tag listed twice scores twice; no keyword occurs. */
  lemma RepeatedTagScore()
    ensures Score(Doc(None, None, None, Some("ML")), ["ml", "ml"]) == 1.0
  {
    var b := Lower("ML");
    assert b == "ml";
    AbsentKeywords(b);
    TwiceTag(b);
  }

  /** Lower-casing the keyword example. */
  lemma LowerKeywordExample()
    ensures Lower("Выбор, выбор") == "выбор, выбор"
  {
  }

  /** The keyword example holds no tag. */
  lemma NoTag(text: string)
    requires text == "выбор, выбор"
    ensures CountIn(["ml", "ml"], text) == 0
  {
    AbsentHead(text, "ml");
    assert ["ml", "ml"][1..] == ["ml"];
  }

  /** A tag listed twice is counted twice. */
  lemma TwiceTag(text: string)
    requires text == "ml"
    ensures CountIn(["ml", "ml"], text) == 2
  {
    assert OccursAt(text, "ml", 0);
    assert ["ml", "ml"][1..] == ["ml"];
  }

  /** The example text contains the first keyword and no other. */
  lemma OneKeyword(text: string)
    requires text == "выбор, выбор"
    ensures CountIn(Keywords, text) == 1
  {
    assert OccursAt(text, Keywords[0], 0);
    forall k | 1 <= k < |Keywords|
      ensures !Contains(text, Keywords[k])
    {
      AbsentHead(text, Keywords[k]);
    }
    assert forall k :: 0 <= k < |Keywords[1..]| ==> Keywords[1..][k] == Keywords[k + 1];
    CountInNone(Keywords[1..], text);
  }

  /** "ml" contains no keyword. */
  lemma AbsentKeywords(text: string)
    requires text == "ml"
    ensures CountIn(Keywords, text) == 0
  {
    forall k | 0 <= k < |Keywords|
      ensures !Contains(text, Keywords[k])
    {
      AbsentHead(text, Keywords[k]);
    }
    CountInNone(Keywords, text);
  }

  /** Nothing occurs, nothing counts. */
  lemma {:induction false} CountInNone(words: seq<string>, text: string)
    requires forall k :: 0 <= k < |words| ==> !Contains(text, words[k])
    ensures CountIn(words, text) == 0
  {
    if |words| > 0 {
      assert forall k :: 0 <= k < |words[1..]| ==> words[1..][k] == words[k + 1];
      CountInNone(words[1..], text);
    }
  }

  /** The score as a ranking key. */
  function ScoreKey(tags: seq<string>): Doc -> real
  {
    d => Score(d, tags)
  }

  /** `sorted(docs, key=score, reverse=True)[:top_k]` over the programme's
      records. */
  function RankedDocs(docs: seq<Doc>, tags: seq<string>, program: string, topK: int): seq<Doc>
  {
    TopK(FilterByProgram(docs, program), ScoreKey(tags), topK)
  }

  /** The length of a snippet: `[:400]`. */
  const SnippetLength: nat := 400

  /** `[d["text"][:400] for d in ranked]`: a record without text raises a
      `KeyError`. */
  function Snippets(ranked: seq<Doc>): (r: Result<seq<string>, Error>)
    ensures r.Failure? <==> exists i :: 0 <= i < |ranked| && ranked[i].text.None?
    ensures r.Failure? ==> r.error == KeyError("text")
    ensures r.Success? ==> |r.value| == |ranked|
    ensures r.Success? ==> forall i :: 0 <= i < |ranked| ==>
      && ranked[i].text.Some?
      && |r.value[i]| == Min(SnippetLength, |ranked[i].text.value|)
      && r.value[i] == ranked[i].text.value[..|r.value[i]|]
  {
    if |ranked| == 0 then Success([])
    else if ranked[0].text.None? then Failure(KeyError("text"))
    else
      var rest := Snippets(ranked[1..]);
      assert forall i :: 1 <= i < |ranked| ==> ranked[i] == ranked[1..][i - 1];
      if rest.Failure? then rest
      else Success([PyTake(ranked[0].text.value, SnippetLength)] + rest.value)
  }

  /** `recommend_electives` on the records of the document store. */
  function Recommend(docs: seq<Doc>, tags: seq<string>, program: string, topK: int): Result<seq<string>, Error>
  {
    Snippets(RankedDocs(docs, tags, program, topK))
  }

  /** A successful recommendation returns Python's `[:top_k]` number of
      snippets, one per chosen record, each the first 400 characters of
      that record's text; the chosen records come best first, and every
      record of the programme left out scores no more than any chosen one. */
  lemma RecommendSpec(docs: seq<Doc>, tags: seq<string>, program: string, topK: int, ranked: seq<Doc>, r: seq<string>)
    requires ranked == RankedDocs(docs, tags, program, topK)
    requires Recommend(docs, tags, program, topK) == Success(r)
    ensures |r| == |ranked|
    ensures |r| == (if topK >= 0 then Min(topK, |FilterByProgram(docs, program)|)
                    else Max(0, |FilterByProgram(docs, program)| + topK))
    ensures forall i :: 0 <= i < |r| ==>
      && ranked[i] in docs && MatchesProgram(ranked[i], program) && ranked[i].text.Some?
      && |r[i]| == Min(SnippetLength, |ranked[i].text.value|) && r[i] == ranked[i].text.value[..|r[i]|]
    ensures forall i, j :: 0 <= i < j < |ranked| ==> Score(ranked[i], tags) >= Score(ranked[j], tags)
    ensures forall d, e | d in FilterByProgram(docs, program) && multiset(ranked)[d] < multiset(FilterByProgram(docs, program))[d] && e in ranked ::
      Score(d, tags) <= Score(e, tags)
  {
    var filtered := FilterByProgram(docs, program);
    ChosenFromProgram(docs, program, ranked, filtered);
    var key := ScoreKey(tags);
    forall i, j | 0 <= i < j < |ranked|
      ensures Score(ranked[i], tags) >= Score(ranked[j], tags)
    {
      assert key(ranked[i]) >= key(ranked[j]);
    }
    forall d, e | d in filtered && multiset(ranked)[d] < multiset(filtered)[d] && e in ranked
      ensures Score(d, tags) <= Score(e, tags)
    {
      assert key(d) <= key(e);
    }
  }

  /** Every chosen record is a record of the programme. */
  lemma ChosenFromProgram(docs: seq<Doc>, program: string, ranked: seq<Doc>, filtered: seq<Doc>)
    requires filtered == FilterByProgram(docs, program)
    requires multiset(ranked) <= multiset(filtered)
    ensures forall i :: 0 <= i < |ranked| ==> ranked[i] in docs && MatchesProgram(ranked[i], program)
  {
    FilterByProgramSpec(docs, program);
    forall i | 0 <= i < |ranked|
      ensures ranked[i] in docs && MatchesProgram(ranked[i], program)
    {
      assert ranked[i] in multiset(ranked);
      assert ranked[i] in multiset(filtered);
    }
  }

  /** Stability: chosen records of equal score keep their order in the
      store. */
  lemma RecommendStable(docs: seq<Doc>, tags: seq<string>, program: string, topK: int, v: real)
    ensures SubseqOf(WithKey(RankedDocs(docs, tags, program, topK), ScoreKey(tags), v), WithKey(docs, ScoreKey(tags), v))
  {
    FilterByProgramSpec(docs, program);
    TopKStableIn(FilterByProgram(docs, program), docs, ScoreKey(tags), topK, v);
  }

  /** A recommendation fails exactly when a chosen record has no text. */
  lemma RecommendFails(docs: seq<Doc>, tags: seq<string>, program: string, topK: int)
    ensures Recommend(docs, tags, program, topK).Failure? <==>
      exists d :: d in RankedDocs(docs, tags, program, topK) && d.text.None?
  {
    SnippetsFail(RankedDocs(docs, tags, program, topK));
  }

  /** Cutting snippets fails exactly when one of the records has no text. */
  lemma SnippetsFail(ranked: seq<Doc>)
    ensures Snippets(ranked).Failure? <==> exists d :: d in ranked && d.text.None?
  {
    if exists d :: d in ranked && d.text.None? {
      var d :| d in ranked && d.text.None?;
      var i :| 0 <= i < |ranked| && ranked[i] == d;
    }
  }

  /** No record of the programme, no recommendation. */
  lemma RecommendNoProgram(docs: seq<Doc>, tags: seq<string>, program: string, topK: int)
    requires forall i :: 0 <= i < |docs| ==> !MatchesProgram(docs[i], program)
    ensures Recommend(docs, tags, program, topK) == Success([])
  {
    FilterNone(docs, d => MatchesProgram(d, program));
  }
}
