/** The ranking half of `Retriever.search`: the similarity scores are given
    (how they are computed is not modelled), the `(id, score)` pairs are
    ranked, cut to `top_k`, and resolved against the document metadata. */
module Retrieval {
  import opened Wrappers
  import opened Seqs
  import opened Documents
  import opened Ranking

  /** One search hit. */
  datatype RetrievedChunk = RetrievedChunk(id: string, url: string, title: string, text: string, score: real)

  /** An entry of `zip(document_ids, sims)`. */
  datatype Scored = Scored(id: string, score: real)

  function ScoreOf(p: Scored): real { p.score }

  /** `list(zip(ids, sims))`: pairs up to the shorter of the two lists. */
  function Pairs(ids: seq<string>, sims: seq<real>): (r: seq<Scored>)
    ensures |r| == Min(|ids|, |sims|)
    ensures forall i :: 0 <= i < |r| ==> r[i] == Scored(ids[i], sims[i])
  {
    seq(Min(|ids|, |sims|), i requires 0 <= i < Min(|ids|, |sims|) => Scored(ids[i], sims[i]))
  }

  /** `pairs.sort(key=score, reverse=True)` followed by `pairs[:top_k]`. */
  function Ranked(ids: seq<string>, sims: seq<real>, topK: int): seq<Scored>
  {
    TopK(Pairs(ids, sims), ScoreOf, topK)
  }

  /** `docs[j]` is the last record of `docs` with id `k`. */
  predicate LastWithId(docs: seq<Doc>, j: int, k: string) {
    && 0 <= j < |docs| && docs[j].id == Some(k)
    && forall j' :: j < j' < |docs| ==> docs[j'].id != Some(k)
  }

  /** The map `{d["id"]: d for d in docs}`: a record lacking `id` raises a
      `KeyError`; otherwise every id is a key and maps to the last record
      carrying it. */
  function IdToDoc(docs: seq<Doc>): (r: Result<map<string, Doc>, Error>)
    ensures r.Failure? <==> exists j :: 0 <= j < |docs| && docs[j].id.None?
    ensures r.Failure? ==> r.error == KeyError("id")
    ensures r.Success? ==> forall j :: 0 <= j < |docs| ==> docs[j].id.value in r.value
    ensures r.Success? ==> forall k | k in r.value :: exists j :: LastWithId(docs, j, k) && r.value[k] == docs[j]
  {
    if |docs| == 0 then Success(map[])
    else
      var init := docs[..|docs| - 1];
      var d := docs[|docs| - 1];
      var prev := IdToDoc(init);
      InitIds(docs, init);
      if prev.Failure? then prev
      else if d.id.None? then Failure(KeyError("id"))
      else
        IdToDocStep(docs, init, prev.value);
        Success(prev.value[d.id.value := d])
  }

  /** The records before the last one, read through the prefix. */
  lemma InitIds(docs: seq<Doc>, init: seq<Doc>)
    requires |docs| > 0 && init == docs[..|docs| - 1]
    ensures forall j :: 0 <= j < |init| ==> init[j] == docs[j]
    ensures (exists j :: 0 <= j < |init| && init[j].id.None?) <==> (exists j :: 0 <= j < |init| && docs[j].id.None?)
  {
  }

  /** Adding the last record to the map built from the others: it becomes
      the record of its id, and every other key keeps its last record. */
  lemma IdToDocStep(docs: seq<Doc>, init: seq<Doc>, prev: map<string, Doc>)
    requires |docs| > 0 && init == docs[..|docs| - 1] && docs[|docs| - 1].id.Some?
    requires forall j :: 0 <= j < |init| ==> init[j].id.Some? && init[j].id.value in prev
    requires forall k | k in prev :: exists j :: LastWithId(init, j, k) && prev[k] == init[j]
    ensures forall j :: 0 <= j < |docs| ==> docs[j].id.Some?
    ensures forall j :: 0 <= j < |docs| ==> docs[j].id.value in prev[docs[|docs| - 1].id.value := docs[|docs| - 1]]
    ensures var m := prev[docs[|docs| - 1].id.value := docs[|docs| - 1]];
      forall k | k in m :: exists j :: LastWithId(docs, j, k) && m[k] == docs[j]
  {
    var d := docs[|docs| - 1];
    var m := prev[d.id.value := d];
    assert forall j :: 0 <= j < |init| ==> init[j] == docs[j];
    assert LastWithId(docs, |docs| - 1, d.id.value);
    forall k | k in m
      ensures exists j :: LastWithId(docs, j, k) && m[k] == docs[j]
    {
      if k != d.id.value {
        var j :| LastWithId(init, j, k) && prev[k] == init[j];
        assert LastWithId(docs, j, k);
      }
    }
  }

  /** `id_to_doc.get(id)` is truthy: the id has a record and that record is
      not the empty object. */
  predicate Found(id: string, m: map<string, Doc>) {
    id in m && m[id] != Doc(None, None, None, None)
  }

  /** The ranked pairs whose id has metadata, in order. */
  function Kept(ranked: seq<Scored>, m: map<string, Doc>): (r: seq<Scored>)
    ensures |r| <= |ranked|
    ensures forall i :: 0 <= i < |r| ==> Found(r[i].id, m)
    ensures forall x | x in r :: x in ranked
    ensures forall i :: 0 <= i < |ranked| && Found(ranked[i].id, m) ==> ranked[i] in r
  {
    if |ranked| == 0 then []
    else
      var rest := Kept(ranked[1..], m);
      if Found(ranked[0].id, m) then
        assert forall i :: 1 <= i < |rest| + 1 ==> ([ranked[0]] + rest)[i] == rest[i - 1];
        [ranked[0]] + rest
      else rest
  }

  /** Skipping drops every copy of a pair whose id is not found and keeps
      every copy of one whose id is: `document_ids` may repeat an id, and
      the loop appends a hit for each occurrence. */
  lemma {:induction false} KeptCount(ranked: seq<Scored>, m: map<string, Doc>)
    ensures forall x :: multiset(Kept(ranked, m))[x] == if Found(x.id, m) then multiset(ranked)[x] else 0
  {
    if |ranked| > 0 {
      KeptCount(ranked[1..], m);
      assert ranked == [ranked[0]] + ranked[1..];
      if Found(ranked[0].id, m) {
        assert Kept(ranked, m) == [ranked[0]] + Kept(ranked[1..], m);
      } else {
        assert Kept(ranked, m) == Kept(ranked[1..], m);
      }
    }
  }

  /** A metadata record the hit can be built from: `meta["url"]` and
      `meta["text"]` exist. */
  predicate Complete(meta: Doc) { meta.url.Some? && meta.text.Some? }

  /** The hit `c` is the pair `p` with its metadata `meta`: the title falls
      back to the id when the record has none. */
  predicate Describes(c: RetrievedChunk, p: Scored, meta: Doc) {
    && c.id == p.id && c.score == p.score
    && meta.url == Some(c.url) && meta.text == Some(c.text)
    && c.title == meta.title.GetOr(p.id)
  }

  /** The loop over `pairs[:top_k]`: ids without (or with empty) metadata are skipped, the
      others become hits; a record lacking `url` or `text` raises a
      `KeyError`. */
  function Resolve(ranked: seq<Scored>, m: map<string, Doc>): (r: Result<seq<RetrievedChunk>, Error>)
    ensures r.Failure? <==> exists i :: 0 <= i < |ranked| && Found(ranked[i].id, m) && !Complete(m[ranked[i].id])
    ensures r.Failure? ==> r.error in {KeyError("url"), KeyError("text")}
    ensures r.Failure? ==> exists j :: FailsAt(ranked, m, j, r.error)
    ensures r.Success? ==> |r.value| == |Kept(ranked, m)|
    ensures r.Success? ==> forall i :: 0 <= i < |r.value| ==>
      Found(Kept(ranked, m)[i].id, m) && Describes(r.value[i], Kept(ranked, m)[i], m[Kept(ranked, m)[i].id])
  {
    if |ranked| == 0 then Success([])
    else
      var p := ranked[0];
      var rest := Resolve(ranked[1..], m);
      IncompleteStep(ranked, m);
      if !Found(p.id, m) then
        KeptSkip(ranked, m);
        if rest.Failure? then FailsLater(ranked, m, rest.error); rest else rest
      else
        var meta := m[p.id];
        if meta.url.None? then FailsAtHead(ranked, m); Failure(KeyError("url"))
        else if meta.text.None? then FailsAtHead(ranked, m); Failure(KeyError("text"))
        else if rest.Failure? then FailsLater(ranked, m, rest.error); rest
        else
          var c := RetrievedChunk(p.id, meta.url.value, meta.title.GetOr(p.id), meta.text.value, p.score);
          HitsCons(ranked, m, c, rest.value);
          Success([c] + rest.value)
  }

  /** Some ranked id has metadata lacking `url` or `text`. */
  predicate IncompleteAt(ranked: seq<Scored>, m: map<string, Doc>, i: int) {
    0 <= i < |ranked| && Found(ranked[i].id, m) && !Complete(m[ranked[i].id])
  }

  /** The error `meta["url"]` or else `meta["text"]` raises on an
      incomplete record: the url is looked up first. */
  function MissingKey(meta: Doc): (e: Error)
    requires !Complete(meta)
    ensures e == KeyError("url") <==> meta.url.None?
    ensures e == KeyError("text") <==> meta.url.Some? && meta.text.None?
  {
    if meta.url.None? then KeyError("url") else KeyError("text")
  }

  /** Position `j` holds the first found record of the ranking that is
      incomplete, and `e` is the error its lookup raises. */
  predicate FailsAt(ranked: seq<Scored>, m: map<string, Doc>, j: int, e: Error) {
    && IncompleteAt(ranked, m, j)
    && (forall i :: 0 <= i < j ==> !IncompleteAt(ranked, m, i))
    && e == MissingKey(m[ranked[j].id])
  }

  /** An incomplete head raises its own error. */
  lemma FailsAtHead(ranked: seq<Scored>, m: map<string, Doc>)
    requires IncompleteAt(ranked, m, 0)
    ensures FailsAt(ranked, m, 0, MissingKey(m[ranked[0].id]))
  {
  }

  /** Past a head that raises nothing, the first failure of the rest is the
      first failure of the whole ranking. */
  lemma FailsLater(ranked: seq<Scored>, m: map<string, Doc>, e: Error)
    requires |ranked| > 0 && !IncompleteAt(ranked, m, 0)
    requires exists j :: FailsAt(ranked[1..], m, j, e)
    ensures exists j :: FailsAt(ranked, m, j, e)
  {
    var j :| FailsAt(ranked[1..], m, j, e);
    assert ranked[1..][j] == ranked[j + 1];
    forall i | 0 <= i < j + 1
      ensures !IncompleteAt(ranked, m, i)
    {
      if i > 0 {
        assert ranked[1..][i - 1] == ranked[i];
        assert !IncompleteAt(ranked[1..], m, i - 1);
      }
    }
    assert FailsAt(ranked, m, j + 1, e);
  }

  /** An incomplete record is met at the head of the ranking or further on. */
  lemma IncompleteStep(ranked: seq<Scored>, m: map<string, Doc>)
    requires |ranked| > 0
    ensures (exists i :: 0 <= i < |ranked| && Found(ranked[i].id, m) && !Complete(m[ranked[i].id]))
        <==> IncompleteAt(ranked, m, 0) ||
             exists i :: 0 <= i < |ranked[1..]| && Found(ranked[1..][i].id, m) && !Complete(m[ranked[1..][i].id])
  {
    if i :| 0 <= i < |ranked| && Found(ranked[i].id, m) && !Complete(m[ranked[i].id]) {
      if i > 0 {
        assert ranked[1..][i - 1] == ranked[i];
      }
    }
    if i :| 0 <= i < |ranked[1..]| && Found(ranked[1..][i].id, m) && !Complete(m[ranked[1..][i].id]) {
      assert ranked[i + 1] == ranked[1..][i];
    }
  }

  /** An unknown head is skipped. */
  lemma KeptSkip(ranked: seq<Scored>, m: map<string, Doc>)
    requires |ranked| > 0 && !Found(ranked[0].id, m)
    ensures Kept(ranked, m) == Kept(ranked[1..], m)
  {
  }

  /** A hit for a known head followed by the hits of the rest describes
      the kept pairs in order. */
  lemma HitsCons(ranked: seq<Scored>, m: map<string, Doc>, c: RetrievedChunk, hits: seq<RetrievedChunk>)
    requires |ranked| > 0 && Found(ranked[0].id, m)
    requires Describes(c, ranked[0], m[ranked[0].id])
    requires |hits| == |Kept(ranked[1..], m)|
    requires forall i :: 0 <= i < |hits| ==>
      Found(Kept(ranked[1..], m)[i].id, m) && Describes(hits[i], Kept(ranked[1..], m)[i], m[Kept(ranked[1..], m)[i].id])
    ensures |[c] + hits| == |Kept(ranked, m)|
    ensures forall i :: 0 <= i < |[c] + hits| ==>
      Found(Kept(ranked, m)[i].id, m) && Describes(([c] + hits)[i], Kept(ranked, m)[i], m[Kept(ranked, m)[i].id])
  {
    var kept := Kept(ranked, m);
    var rest := Kept(ranked[1..], m);
    assert kept == [ranked[0]] + rest;
    forall i | 0 <= i < |[c] + hits|
      ensures Found(kept[i].id, m) && Describes(([c] + hits)[i], kept[i], m[kept[i].id])
    {
      if i > 0 {
        assert kept[i] == rest[i - 1] && ([c] + hits)[i] == hits[i - 1];
      }
    }
  }

  /** Every key of a built `id_to_doc` map is found by `.get`: its record
      carries that id, so it is never the empty object. */
  lemma IdToDocFound(docs: seq<Doc>)
    requires IdToDoc(docs).Success?
    ensures forall k :: Found(k, IdToDoc(docs).value) <==> k in IdToDoc(docs).value
  {
    var m := IdToDoc(docs).value;
    forall k | k in m
      ensures Found(k, m)
    {
      var j :| LastWithId(docs, j, k) && m[k] == docs[j];
    }
  }

  /** Skipping entries keeps a sorted ranking sorted. */
  lemma {:induction false} KeptSorted(ranked: seq<Scored>, m: map<string, Doc>)
    requires SortedDesc(ranked, ScoreOf)
    ensures SortedDesc(Kept(ranked, m), ScoreOf)
  {
    if |ranked| > 0 {
      var rest := Kept(ranked[1..], m);
      assert SortedDesc(ranked[1..], ScoreOf) by {
        forall i, j | 0 <= i < j < |ranked[1..]|
          ensures ScoreOf(ranked[1..][i]) >= ScoreOf(ranked[1..][j])
        {
          assert ranked[1..][i] == ranked[i + 1] && ranked[1..][j] == ranked[j + 1];
        }
      }
      KeptSorted(ranked[1..], m);
      if Found(ranked[0].id, m) {
        var r := [ranked[0]] + rest;
        forall i, j | 0 <= i < j < |r|
          ensures ScoreOf(r[i]) >= ScoreOf(r[j])
        {
          assert r[j] == rest[j - 1];
          assert r[j] in ranked[1..];
          var k :| 0 <= k < |ranked[1..]| && ranked[1..][k] == r[j];
          assert ranked[k + 1] == r[j];
          if i > 0 {
            assert r[i] == rest[i - 1];
          }
        }
      }
    }
  }

  /** `Retriever.search(query, top_k)` once the similarities `sims` of the
      query to the indexed chunks `ids` are known. */
  function Search(m: map<string, Doc>, ids: seq<string>, sims: seq<real>, topK: int): Result<seq<RetrievedChunk>, Error>
  {
    Resolve(Ranked(ids, sims, topK), m)
  }

  /** The search is the resolution of the ranking. */
  lemma SearchUnfold(m: map<string, Doc>, ids: seq<string>, sims: seq<real>, topK: int)
    ensures Search(m, ids, sims, topK) == Resolve(Ranked(ids, sims, topK), m)
  {
  }

  /** The `(id, score)` pair of each hit. */
  function HitPairs(hits: seq<RetrievedChunk>): (r: seq<Scored>)
    ensures |r| == |hits| && forall i :: 0 <= i < |hits| ==> r[i] == Scored(hits[i].id, hits[i].score)
  {
    seq(|hits|, i requires 0 <= i < |hits| => Scored(hits[i].id, hits[i].score))
  }

  /** Skipping keeps the order of the ranking. */
  lemma {:induction false} KeptIsSubseq(ranked: seq<Scored>, m: map<string, Doc>)
    ensures SubseqOf(Kept(ranked, m), ranked)
  {
    if |ranked| > 0 {
      KeptIsSubseq(ranked[1..], m);
      var rest := Kept(ranked[1..], m);
      if Found(ranked[0].id, m) {
        assert Kept(ranked, m) == [ranked[0]] + rest;
        assert Kept(ranked, m)[1..] == rest;
      } else {
        assert Kept(ranked, m) == rest;
      }
    }
  }

  /** Resolving keeps a sorted ranking sorted, and every hit is one of the
      ranked pairs. */
  lemma ResolveFacts(ranked: seq<Scored>, m: map<string, Doc>, r: seq<RetrievedChunk>)
    requires Resolve(ranked, m) == Success(r)
    ensures |r| <= |ranked|
    ensures SortedDesc(ranked, ScoreOf) ==> forall i, j :: 0 <= i < j < |r| ==> r[i].score >= r[j].score
    ensures forall i :: 0 <= i < |r| ==> Scored(r[i].id, r[i].score) in ranked
    ensures HitPairs(r) == Kept(ranked, m)
  {
    var kept := Kept(ranked, m);
    if SortedDesc(ranked, ScoreOf) {
      KeptSorted(ranked, m);
      forall i, j | 0 <= i < j < |r|
        ensures r[i].score >= r[j].score
      {
        assert ScoreOf(kept[i]) >= ScoreOf(kept[j]);
      }
    }
    forall i | 0 <= i < |r|
      ensures Scored(r[i].id, r[i].score) in ranked
    {
      assert kept[i] in ranked;
    }
  }

  /** What a successful search returns: at most `top_k` hits (Python's cut
      also takes a negative `top_k`), in non-increasing score order, each one
      an indexed id with its own similarity. */
  lemma SearchFacts(m: map<string, Doc>, ids: seq<string>, sims: seq<real>, topK: int, r: seq<RetrievedChunk>)
    requires Search(m, ids, sims, topK) == Success(r)
    ensures topK >= 0 ==> |r| <= topK
    ensures |r| <= Min(|ids|, |sims|)
    ensures forall i, j :: 0 <= i < j < |r| ==> r[i].score >= r[j].score
    ensures forall i :: 0 <= i < |r| ==>
      exists k :: 0 <= k < |ids| && k < |sims| && r[i].id == ids[k] && r[i].score == sims[k]
  {
    var ranked := Ranked(ids, sims, topK);
    SearchUnfold(m, ids, sims, topK);
    RankedFacts(ids, sims, topK);
    ResolveFacts(ranked, m, r);
    HitsFromPairs(ids, sims, ranked, r);
  }

  /** The cut ranking: at most `top_k` pairs (or all but `-top_k` of them),
      sorted, and drawn from the pairs. */
  lemma RankedFacts(ids: seq<string>, sims: seq<real>, topK: int)
    ensures topK >= 0 ==> |Ranked(ids, sims, topK)| <= topK
    ensures |Ranked(ids, sims, topK)| <= Min(|ids|, |sims|)
    ensures SortedDesc(Ranked(ids, sims, topK), ScoreOf)
    ensures multiset(Ranked(ids, sims, topK)) <= multiset(Pairs(ids, sims))
  {
  }

  /** Hits drawn from the pairs carry an indexed id with its own similarity. */
  lemma HitsFromPairs(ids: seq<string>, sims: seq<real>, ranked: seq<Scored>, r: seq<RetrievedChunk>)
    requires multiset(ranked) <= multiset(Pairs(ids, sims))
    requires forall i :: 0 <= i < |r| ==> Scored(r[i].id, r[i].score) in ranked
    ensures forall i :: 0 <= i < |r| ==> Indexed(ids, sims, r[i].id, r[i].score)
  {
    forall i | 0 <= i < |r|
      ensures Indexed(ids, sims, r[i].id, r[i].score)
    {
      HitFromPairs(ids, sims, ranked, r[i].id, r[i].score);
    }
  }

  /** Some indexed position holds the chunk `id` with similarity `score`. */
  predicate Indexed(ids: seq<string>, sims: seq<real>, id: string, score: real) {
    exists k :: 0 <= k < |ids| && k < |sims| && id == ids[k] && score == sims[k]
  }

  /** One hit drawn from the pairs: some indexed position has its id and score. */
  lemma HitFromPairs(ids: seq<string>, sims: seq<real>, ranked: seq<Scored>, id: string, score: real)
    requires multiset(ranked) <= multiset(Pairs(ids, sims))
    requires Scored(id, score) in ranked
    ensures Indexed(ids, sims, id, score)
  {
    var pairs := Pairs(ids, sims);
    var p := Scored(id, score);
    assert p in multiset(ranked);
    assert p in multiset(pairs);
    var k :| 0 <= k < |pairs| && pairs[k] == p;
    assert k < Min(|ids|, |sims|) && pairs[k] == Scored(ids[k], sims[k]);
  }

  /** Stability: hits of equal score come in the order of `document_ids`. */
  lemma SearchStable(m: map<string, Doc>, ids: seq<string>, sims: seq<real>, topK: int, r: seq<RetrievedChunk>, v: real)
    requires Search(m, ids, sims, topK) == Success(r)
    ensures SubseqOf(WithKey(HitPairs(r), ScoreOf, v), WithKey(Pairs(ids, sims), ScoreOf, v))
  {
    var pairs := Pairs(ids, sims);
    var ranked := TopK(pairs, ScoreOf, topK);
    ResolveFacts(ranked, m, r);
    KeptIsSubseq(ranked, m);
    WithKeySubseq(HitPairs(r), ranked, ScoreOf, v);
    assert SubseqOf(pairs, pairs) by {
      PrefixIsSubseq(pairs, pairs);
    }
    TopKStableIn(pairs, pairs, ScoreOf, topK, v);
    SubseqTrans(WithKey(HitPairs(r), ScoreOf, v), WithKey(ranked, ScoreOf, v), WithKey(pairs, ScoreOf, v));
  }

  /** Ids without metadata are skipped only after the cut to `top_k`, so
      fewer than `top_k` hits can come back although enough indexed chunks
      have metadata: here the best chunk is unknown and the second is never
      looked at. */
  lemma SearchSkipsAfterCut()
    ensures Search(map["b" := Doc(Some("b"), Some("u"), None, Some("t"))], ["a", "b"], [1.0, 0.5], 1) == Success([])
  {
    var m := map["b" := Doc(Some("b"), Some("u"), None, Some("t"))];
    BestOfTwo();
    SearchUnfold(m, ["a", "b"], [1.0, 0.5], 1);
    ResolveOneUnknown(Scored("a", 1.0), m);
  }

  /** A single ranked id without metadata resolves to no hits. */
  lemma ResolveOneUnknown(p: Scored, m: map<string, Doc>)
    requires !Found(p.id, m)
    ensures Resolve([p], m) == Success([])
  {
    assert [p][1..] == [];
  }

  /** The cut to one keeps the better of two pairs. */
  lemma BestOfTwo()
    ensures Ranked(["a", "b"], [1.0, 0.5], 1) == [Scored("a", 1.0)]
  {
    var best := Scored("a", 1.0);
    var other := Scored("b", 0.5);
    PairsOfTwo();
    SortOfTwo(best, other);
    assert PyTake([best, other], 1) == [best];
  }

  /** The pairs of the two-chunk example. */
  lemma PairsOfTwo()
    ensures Pairs(["a", "b"], [1.0, 0.5]) == [Scored("a", 1.0), Scored("b", 0.5)]
  {
    var pairs := Pairs(["a", "b"], [1.0, 0.5]);
    assert |pairs| == 2;
  }

  /** Two pairs already in descending order stay as they are. */
  lemma SortOfTwo(best: Scored, other: Scored)
    requires best.score >= other.score
    ensures SortByDesc([best, other], ScoreOf) == [best, other]
  {
    assert [best, other][1..] == [other];
    assert [other][1..] == [];
    assert SortByDesc([other], ScoreOf) == [other];
  }

  /** No relevance floor: a chunk with similarity zero is still a hit, and a
      record without a title is titled by its id. */
  lemma SearchKeepsZeroScores()
    ensures Search(map["a" := Doc(Some("a"), Some("u"), None, Some("t"))], ["a"], [0.0], 5)
         == Success([RetrievedChunk("a", "u", "a", "t", 0.0)])
  {
    var m := map["a" := Doc(Some("a"), Some("u"), None, Some("t"))];
    var hit := Scored("a", 0.0);
    assert Pairs(["a"], [0.0]) == [hit];
    var ranked := TopK([hit], ScoreOf, 5);
    assert |ranked| == 1 && ranked[0] in multiset([hit]);
    assert ranked == [hit];
    assert Found("a", m);
    assert Resolve(ranked[1..], m) == Success([]);
    assert m["a"].title.GetOr("a") == "a";
    assert Complete(m["a"]);
    var c := RetrievedChunk("a", "u", "a", "t", 0.0);
    assert Resolve(ranked, m) == Success([c] + []);
    assert [c] + [] == [c];
    SearchUnfold(m, ["a"], [0.0], 5);
  }
}
