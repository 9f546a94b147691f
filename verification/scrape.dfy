/** The scraper's pure part: splitting a page's text into overlapping
    chunks (`chunk_text`) and naming the chunks `{slug}-{index}`. */
module Scrape {
  import opened Wrappers
  import opened Seqs
  import opened Text
  import opened Documents
  import Clean

  /** Default arguments of `chunk_text`. */
  const DefaultChunkSize := 1000
  const DefaultOverlap := 120

  /** The two program pages the scraper visits. */
  const ProgramUrls: seq<string> := [
    "https://abit.itmo.ru/program/master/ai",
    "https://abit.itmo.ru/program/master/ai_product"
  ]

  /** The slice bounds `text[start:stop]` of one chunk. */
  datatype Window = Window(start: int, stop: int)

  /** Both indices are adjacent positions of a sequence of length `n`. */
  predicate Adjacent(i: int, j: int, n: int) {
    0 <= i < n && 0 <= j < n && j == i + 1
  }

  /** The windows the loop of `chunk_text` visits when it starts at `start`
      on a text of length `n`: each ends at `min(n, start + size)`; the loop
      stops after the window that reaches `n`, and otherwise moves its start
      to `max(end - overlap, start + 1)`. */
  function Windows(n: nat, size: int, overlap: int, start: nat): (ws: seq<Window>)
    ensures start >= n ==> ws == []
    ensures start < n ==> |ws| >= 1 && ws[0] == Window(start, Min(n, start + size))
    ensures forall i :: 0 <= i < |ws| ==> start <= ws[i].start < n
    decreases n - start
  {
    if start >= n then []
    else
      var stop := Min(n, start + size);
      if stop == n then [Window(start, stop)]
      else [Window(start, stop)] + Windows(n, size, overlap, Max(stop - overlap, start + 1))
  }

  /** Where the loop goes after the window starting at `start`. */
  function NextStart(n: nat, size: int, overlap: int, start: nat): nat
  {
    Max(Min(n, start + size) - overlap, start + 1)
  }

  /** One step of the loop: the first window, then the windows from the
      next start. */
  lemma WindowsUnfold(n: nat, size: int, overlap: int, start: nat)
    requires start < n && Min(n, start + size) != n
    ensures Windows(n, size, overlap, start)
      == [Window(start, Min(n, start + size))] + Windows(n, size, overlap, NextStart(n, size, overlap, start))
  {
  }

  /** Every window is a non-empty slice of at most `size` characters inside
      a text of length `n`. */
  predicate WindowsInside(ws: seq<Window>, n: nat, size: int) {
    forall i :: 0 <= i < |ws| ==> 0 <= ws[i].start < ws[i].stop <= n && ws[i].stop - ws[i].start <= size
  }

  /** Every window but the last is a full `size` characters and ends
      before the text does. */
  predicate FullBeforeLast(ws: seq<Window>, n: nat, size: int) {
    forall i :: 0 <= i < |ws| - 1 ==> ws[i].stop < n && ws[i].stop - ws[i].start == size
  }

  /** The last window ends at `n`. */
  predicate EndsAt(ws: seq<Window>, n: nat) {
    |ws| > 0 && ws[|ws| - 1].stop == n
  }

  /** Each window starts `overlap` characters before the previous one ends,
      or one character after the previous start, whichever is further right. */
  ghost predicate StepsBy(ws: seq<Window>, overlap: int) {
    forall i, j | Adjacent(i, j, |ws|) :: ws[j].start == Max(ws[i].stop - overlap, ws[i].start + 1)
  }

  /** With a positive size the windows are well-formed, and with a
      non-negative overlap the last one reaches the end of the text. */
  lemma {:induction false} WindowsShape(n: nat, size: int, overlap: int, start: nat)
    requires size >= 1
    ensures WindowsInside(Windows(n, size, overlap, start), n, size)
    ensures FullBeforeLast(Windows(n, size, overlap, start), n, size)
    ensures overlap >= 0 && start < n ==> EndsAt(Windows(n, size, overlap, start), n)
    decreases n - start
  {
    if start < n && Min(n, start + size) != n {
      var w := Window(start, start + size);
      var next := NextStart(n, size, overlap, start);
      var rest := Windows(n, size, overlap, next);
      WindowsUnfold(n, size, overlap, start);
      WindowsShape(n, size, overlap, next);
      WindowsCons(w, rest, n, size);
      if overlap >= 0 {
        assert next < n;
      }
    }
  }

  /** A full first window that ends before the text does extends windows
      that have the three properties. */
  lemma WindowsCons(w: Window, rest: seq<Window>, n: nat, size: int)
    requires 0 <= w.start < w.stop < n && w.stop - w.start == size
    requires WindowsInside(rest, n, size) && FullBeforeLast(rest, n, size)
    ensures WindowsInside([w] + rest, n, size) && FullBeforeLast([w] + rest, n, size)
    ensures EndsAt(rest, n) ==> EndsAt([w] + rest, n)
  {
    var ws := [w] + rest;
    forall i | 0 <= i < |ws|
      ensures 0 <= ws[i].start < ws[i].stop <= n && ws[i].stop - ws[i].start <= size
    {
      if i > 0 {
        assert ws[i] == rest[i - 1];
      }
    }
    forall i | 0 <= i < |ws| - 1
      ensures ws[i].stop < n && ws[i].stop - ws[i].start == size
    {
      if i > 0 {
        assert ws[i] == rest[i - 1];
      }
    }
    if EndsAt(rest, n) {
      assert ws[|ws| - 1] == rest[|rest| - 1];
    }
  }

  /** Consecutive windows follow the loop's update of `start`. */
  lemma {:induction false} WindowsStep(n: nat, size: int, overlap: int, start: nat)
    ensures StepsBy(Windows(n, size, overlap, start), overlap)
    decreases n - start
  {
    var ws := Windows(n, size, overlap, start);
    if start < n && Min(n, start + size) != n {
      var next := NextStart(n, size, overlap, start);
      var rest := Windows(n, size, overlap, next);
      WindowsStep(n, size, overlap, next);
      WindowsUnfold(n, size, overlap, start);
      forall i, j | Adjacent(i, j, |ws|)
        ensures ws[j].start == Max(ws[i].stop - overlap, ws[i].start + 1)
      {
        if i > 0 {
          assert ws[i] == rest[i - 1] && ws[j] == rest[j - 1];
          assert Adjacent(i - 1, j - 1, |rest|);
        } else {
          assert ws[j] == rest[0];
        }
      }
    }
  }

  /** The Python slices `text[w.start:w.stop]` of the windows. */
  function Slices(text: string, ws: seq<Window>): (r: seq<string>)
    ensures |r| == |ws|
  {
    seq(|ws|, i requires 0 <= i < |ws| => PySlice(text, ws[i].start, ws[i].stop))
  }

  /** `cs` holds the slices of `text` that the windows `ws` delimit. */
  predicate SlicesOf(cs: seq<string>, text: string, ws: seq<Window>) {
    && |cs| == |ws|
    && forall i :: 0 <= i < |cs| ==>
      0 <= ws[i].start <= ws[i].stop <= |text| && cs[i] == text[ws[i].start..ws[i].stop]
  }

  /** The slices of a window sequence, one window at a time. */
  lemma SlicesCons(text: string, w: Window, ws: seq<Window>)
    ensures Slices(text, [w] + ws) == [PySlice(text, w.start, w.stop)] + Slices(text, ws)
  {
    var l := Slices(text, [w] + ws);
    var r := [PySlice(text, w.start, w.stop)] + Slices(text, ws);
    forall i | 0 <= i < |l| ensures l[i] == r[i] {
      if i > 0 {
        assert ([w] + ws)[i] == ws[i - 1];
      }
    }
  }

  /** `chunk_text(text, chunk_size, overlap)`: the slices `text[start:stop]`
      of the windows, and nothing for an empty text. */
  function ChunkText(text: string, size: int, overlap: int): (chunks: seq<string>)
    ensures |text| == 0 ==> chunks == []
    ensures |text| > 0 && size >= 1 ==> |chunks| >= 1
    ensures size >= 1 ==> forall i :: 0 <= i < |chunks| ==> 0 < |chunks[i]| <= size
  {
    if |text| == 0 then []
    else if size < 1 then Slices(text, Windows(|text|, size, overlap, 0))
    else
      ChunkSpans(text, size, overlap);
      Slices(text, Windows(|text|, size, overlap, 0))
  }

  /** With a positive chunk size the chunks are the slices of well-formed
      windows: the first starts at 0, every one but the last is exactly
      `size` characters, and with a non-negative overlap the last one ends
      at `len(text)`. */
  lemma ChunkSpans(text: string, size: int, overlap: int)
    requires |text| > 0 && size >= 1
    ensures SlicesOf(Slices(text, Windows(|text|, size, overlap, 0)), text, Windows(|text|, size, overlap, 0))
    ensures Windows(|text|, size, overlap, 0)[0].start == 0
    ensures WindowsInside(Windows(|text|, size, overlap, 0), |text|, size)
    ensures FullBeforeLast(Windows(|text|, size, overlap, 0), |text|, size)
    ensures overlap >= 0 ==> EndsAt(Windows(|text|, size, overlap, 0), |text|)
  {
    var ws := Windows(|text|, size, overlap, 0);
    var cs := Slices(text, ws);
    WindowsShape(|text|, size, overlap, 0);
    forall i | 0 <= i < |cs|
      ensures 0 <= ws[i].start <= ws[i].stop <= |text| && cs[i] == text[ws[i].start..ws[i].stop]
    {
      assert 0 <= ws[i].start < ws[i].stop <= |text|;
    }
  }

  /** A text no longer than the chunk size is a single chunk. */
  lemma ChunkShortText(text: string, size: int, overlap: int)
    requires 0 < |text| <= size
    ensures ChunkText(text, size, overlap) == [text]
  {
    assert Windows(|text|, size, overlap, 0) == [Window(0, |text|)];
    assert text[0..|text|] == text;
  }

  /** Some window contains position `p`. */
  predicate Covers(ws: seq<Window>, p: int) {
    exists i :: 0 <= i < |ws| && ws[i].start <= p < ws[i].stop
  }

  /** Coverage: with a positive size and a non-negative overlap, every
      character position from `start` on lies inside some window. */
  lemma {:induction false} WindowsCover(n: nat, size: int, overlap: int, start: nat, p: nat)
    requires size >= 1 && overlap >= 0
    requires start <= p < n
    ensures Covers(Windows(n, size, overlap, start), p)
    decreases n - start
  {
    var ws := Windows(n, size, overlap, start);
    var stop := Min(n, start + size);
    if p < stop {
      assert ws[0].start <= p < ws[0].stop;
    } else {
      var next := NextStart(n, size, overlap, start);
      WindowsUnfold(n, size, overlap, start);
      WindowsCover(n, size, overlap, next, p);
      var rest := Windows(n, size, overlap, next);
      var i :| 0 <= i < |rest| && rest[i].start <= p < rest[i].stop;
      assert ws[i + 1] == rest[i];
    }
  }

  /** Neighbouring chunks share `overlap` characters: the end of one is the
      start of the next. */
  ghost predicate OverlapsBy(cs: seq<string>, overlap: nat) {
    forall i, j | Adjacent(i, j, |cs|) ::
      overlap <= |cs[i]| && overlap <= |cs[j]| && cs[i][|cs[i]| - overlap..] == cs[j][..overlap]
  }

  /** When `0 <= overlap < size`, each chunk after the first starts exactly
      `overlap` characters before the previous one ends. */
  lemma ChunkOverlap(text: string, size: int, overlap: nat)
    requires |text| > 0 && overlap < size
    ensures OverlapsBy(ChunkText(text, size, overlap), overlap)
  {
    var ws := Windows(|text|, size, overlap, 0);
    var cs := ChunkText(text, size, overlap);
    WindowsStep(|text|, size, overlap, 0);
    ChunkSpans(text, size, overlap);
    forall i, j | Adjacent(i, j, |cs|)
      ensures overlap <= |cs[i]| && overlap <= |cs[j]| && cs[i][|cs[i]| - overlap..] == cs[j][..overlap]
    {
      ChunkNeighbours(text, ws, cs, size, overlap, i, j);
    }
  }

  /** The overlap of two neighbouring slices of well-formed windows. */
  lemma ChunkNeighbours(text: string, ws: seq<Window>, cs: seq<string>, size: int, overlap: nat, i: int, j: int)
    requires SlicesOf(cs, text, ws) && StepsBy(ws, overlap) && FullBeforeLast(ws, |text|, size)
    requires WindowsInside(ws, |text|, size) && EndsAt(ws, |text|) && overlap < size && Adjacent(i, j, |cs|)
    ensures overlap <= |cs[i]| && overlap <= |cs[j]| && cs[i][|cs[i]| - overlap..] == cs[j][..overlap]
  {
    var a, b := ws[i], ws[j];
    assert a.stop < |text| && a.stop - a.start == size;
    if j < |ws| - 1 {
      assert b.stop - b.start == size;
    } else {
      assert b.stop == |text|;
    }
    assert b.start == a.stop - overlap;
    assert cs[i] == text[a.start..a.stop];
    assert cs[j] == text[b.start..b.stop];
    assert cs[i][|cs[i]| - overlap..] == text[b.start..a.stop];
  }

  /** Reassembles a text from chunks that overlap by `overlap` characters:
      every chunk but the last loses its final `overlap` characters. */
  function Stitch(chunks: seq<string>, overlap: nat): string
  {
    if |chunks| == 0 then ""
    else if |chunks| == 1 then chunks[0]
    else chunks[0][..Max(0, |chunks[0]| - overlap)] + Stitch(chunks[1..], overlap)
  }

  /** Chunking loses nothing: stitching the chunks back together gives the
      original text. */
  lemma ChunkRoundTrip(text: string, size: int, overlap: nat)
    requires overlap < size
    ensures Stitch(ChunkText(text, size, overlap), overlap) == text
  {
    if |text| > 0 {
      StitchWindows(text, size, overlap, 0);
    }
  }

  /** Stitching the slices from `start` on gives the text from `start` on. */
  lemma {:induction false} StitchWindows(text: string, size: int, overlap: nat, start: nat)
    requires overlap < size
    requires start < |text|
    ensures Stitch(Slices(text, Windows(|text|, size, overlap, start)), overlap) == text[start..]
    decreases |text| - start
  {
    var n := |text|;
    var ws := Windows(n, size, overlap, start);
    var stop := Min(n, start + size);
    if stop == n {
      assert Slices(text, ws) == [text[start..n]];
    } else {
      var next := NextStart(n, size, overlap, start);
      assert next == stop - overlap;
      var rest := Windows(n, size, overlap, next);
      WindowsUnfold(n, size, overlap, start);
      SlicesCons(text, Window(start, stop), rest);
      StitchWindows(text, size, overlap, next);
      var tail := Slices(text, rest);
      assert Slices(text, ws) == [text[start..stop]] + tail;
      assert |tail| >= 1;
      StitchCons(text[start..stop], tail, overlap);
      OverlapJoin(text, start, next, stop);
    }
  }

  /** Stitching a chunk in front of at least one more. */
  lemma StitchCons(c: string, cs: seq<string>, overlap: nat)
    requires |cs| >= 1
    ensures Stitch([c] + cs, overlap) == c[..Max(0, |c| - overlap)] + Stitch(cs, overlap)
  {
    assert ([c] + cs)[1..] == cs;
  }

  /** A window cut back to where the next one starts, followed by the
      text from there, is the text from the window's start. */
  lemma OverlapJoin(text: string, start: nat, next: nat, stop: nat)
    requires start <= next <= stop <= |text|
    ensures text[start..stop][..Max(0, |text[start..stop]| - (stop - next))] + text[next..] == text[start..]
  {
    assert text[start..stop][..next - start] == text[start..next];
  }

  /** One step of `chunk_text`'s loop over the slices. */
  lemma SlicesStep(text: string, size: int, overlap: int, start: nat)
    requires start < |text|
    ensures Slices(text, Windows(|text|, size, overlap, start))
      == [PySlice(text, start, Min(|text|, start + size))]
         + (if Min(|text|, start + size) == |text| then []
            else Slices(text, Windows(|text|, size, overlap, NextStart(|text|, size, overlap, start))))
  {
    var n := |text|;
    var stop := Min(n, start + size);
    if stop == n {
      assert Windows(n, size, overlap, start) == [Window(start, stop)] + [];
    } else {
      WindowsUnfold(n, size, overlap, start);
    }
    SlicesCons(text, Window(start, stop),
      if stop == n then [] else Windows(n, size, overlap, NextStart(n, size, overlap, start)));
  }

  /** The `chunk_text` loop itself; it visits the same windows. */
  method ChunkTextLoop(text: string, size: int, overlap: int) returns (chunks: seq<string>)
    ensures chunks == ChunkText(text, size, overlap)
  {
    if |text| == 0 {
      return [];
    }
    chunks := [];
    var start: nat := 0;
    var n := |text|;
    ghost var all := Slices(text, Windows(n, size, overlap, 0));
    while start < n
      invariant chunks + Slices(text, Windows(n, size, overlap, start)) == all
      decreases n - start
    {
      var stop := Min(n, start + size);
      SlicesStep(text, size, overlap, start);
      ghost var later := if stop == n then [] else Slices(text, Windows(n, size, overlap, NextStart(n, size, overlap, start)));
      assert chunks + [PySlice(text, start, stop)] + later == all;
      chunks := chunks + [PySlice(text, start, stop)];
      if stop == n {
        assert chunks == all;
        break;
      }
      start := Max(stop - overlap, start + 1);
    }
    assert chunks == all;
  }

  predicate IsSlash(c: char) { c == '/' }

  /** `slug` is the last `/`-separated segment of `u`. */
  predicate LastSegmentOf(u: string, slug: string) {
    && '/' !in slug
    && |slug| <= |u| && slug == u[|u| - |slug|..]
    && (|slug| == |u| || u[|u| - |slug| - 1] == '/')
  }

  /** `url.rstrip("/").split("/")[-1]`: the last path segment of the URL
      once trailing slashes are removed. */
  function Slug(url: string): (slug: string)
    ensures LastSegmentOf(TrimEnd(url, IsSlash), slug)
  {
    LastPiece(TrimEnd(url, IsSlash))
  }

  /** `u.split("/")[-1]`. */
  function LastPiece(u: string): (piece: string)
    ensures LastSegmentOf(u, piece)
  {
    var parts := Split(u, '/');
    LastPieceIsLastSegment(u);
    parts[|parts| - 1]
  }

  /** The last piece of `split("/")` is the last segment. */
  lemma LastPieceIsLastSegment(u: string)
    ensures var parts := Split(u, '/'); LastSegmentOf(u, parts[|parts| - 1])
  {
    var parts := Split(u, '/');
    var last := parts[|parts| - 1];
    assert '/' !in last;
    if |parts| >= 2 {
      JoinSnoc(parts, "/");
      EndsAfterSlash(u, Join(parts[..|parts| - 1], "/"), last);
    } else {
      assert u == last;
    }
  }

  /** In `a + "/" + last`, `last` is the end and a slash stands before it. */
  lemma EndsAfterSlash(u: string, a: string, last: string)
    requires u == a + "/" + last
    ensures |last| < |u| && last == u[|u| - |last|..] && u[|u| - |last| - 1] == '/'
  {
    assert u[|a|] == '/';
    assert u[|a| + 1..] == last;
  }

  /** The id of chunk number `idx` of a page: `f"{slug}-{idx}"`. */
  function ChunkId(slug: string, idx: nat): string
  {
    slug + "-" + Decimal(idx)
  }

  /** Position of the last `c` in `s`, or -1 when there is none. */
  function LastIndexOf(s: string, c: char): (k: int)
    ensures -1 <= k < |s|
    ensures k >= 0 ==> s[k] == c
    ensures forall i :: k < i < |s| ==> s[i] != c
  {
    if |s| == 0 then -1
    else if s[|s| - 1] == c then |s| - 1
    else LastIndexOf(s[..|s| - 1], c)
  }

  /** The last `c` of `s + [c] + d` is the one added, when `d` has none. */
  lemma {:induction false} LastIndexOfAppend(s: string, c: char, d: string)
    requires c !in d
    ensures LastIndexOf(s + [c] + d, c) == |s|
    decreases |d|
  {
    var x := s + [c] + d;
    if |d| > 0 {
      var d' := d[..|d| - 1];
      assert x[..|x| - 1] == s + [c] + d';
      assert x[|x| - 1] == d[|d| - 1];
      LastIndexOfAppend(s, c, d');
    } else {
      assert x[|x| - 1] == c;
    }
  }

  /** Reads an id back: everything before the last `-` is the slug and the
      digits after it the index; anything else is not a chunk id. */
  function ParseChunkId(id: string): (r: Option<(string, nat)>)
    ensures r.Some? ==> |r.value.0| < |id| && id[|r.value.0|] == '-' && id[..|r.value.0|] == r.value.0
  {
    var k := LastIndexOf(id, '-');
    if k < 0 then None
    else
      var digits := id[k + 1..];
      if |digits| == 0 || exists i | 0 <= i < |digits| :: !IsDigit(digits[i]) then None
      else Some((id[..k], ParseDecimal(digits)))
  }

  /** Round trip: an id names its slug and index. */
  lemma ChunkIdRoundTrip(slug: string, idx: nat)
    ensures ParseChunkId(ChunkId(slug, idx)) == Some((slug, idx))
  {
    var d := Decimal(idx);
    var id := ChunkId(slug, idx);
    assert '-' !in d by {
      forall i | 0 <= i < |d| ensures d[i] != '-' {
        assert IsDigit(d[i]);
      }
    }
    LastIndexOfAppend(slug, '-', d);
    assert id == slug + ['-'] + d;
    assert id[|slug| + 1..] == d;
    assert id[..|slug|] == slug;
    DecimalRoundTrip(idx);
  }

  /** Ids determine their slug and index. */
  lemma ChunkIdInjective(s1: string, i1: nat, s2: string, i2: nat)
    requires ChunkId(s1, i1) == ChunkId(s2, i2)
    ensures s1 == s2 && i1 == i2
  {
    ChunkIdRoundTrip(s1, i1);
    ChunkIdRoundTrip(s2, i2);
  }

  /** The texts of records that all carry one. */
  function DocTexts(docs: seq<Doc>): (texts: seq<string>)
    requires forall i :: 0 <= i < |docs| ==> docs[i].text.Some?
    ensures |texts| == |docs|
    ensures forall i :: 0 <= i < |docs| ==> docs[i].text == Some(texts[i])
  {
    seq(|docs|, i requires 0 <= i < |docs| => docs[i].text.value)
  }

  /** The records `main` writes for one page whose readable text is `text`:
      the i-th record's id reads back as the page's slug and i, its url is
      the page's and its title the slug, and the record texts are the
      chunks of the page, so stitching them gives the page text back. */
  function PageDocuments(url: string, text: string): (docs: seq<Doc>)
    ensures forall i :: 0 <= i < |docs| ==>
      && docs[i].id.Some? && ParseChunkId(docs[i].id.value) == Some((Slug(url), i))
      && docs[i].url == Some(url) && docs[i].title == Some(Slug(url))
      && docs[i].text.Some? && 0 < |docs[i].text.value| <= DefaultChunkSize
    ensures DocTexts(docs) == ChunkText(text, DefaultChunkSize, DefaultOverlap)
    ensures Stitch(DocTexts(docs), DefaultOverlap) == text
  {
    var chunks := ChunkText(text, DefaultChunkSize, DefaultOverlap);
    var slug := Slug(url);
    ChunkRoundTrip(text, DefaultChunkSize, DefaultOverlap);
    PageIds(slug, |chunks|);
    seq(|chunks|, i requires 0 <= i < |chunks| =>
      Doc(Some(ChunkId(slug, i)), Some(url), Some(slug), Some(chunks[i])))
  }

  /** Every id of a page's numbering reads back as the slug and its index. */
  lemma PageIds(slug: string, n: nat)
    ensures forall i :: 0 <= i < n ==> ParseChunkId(ChunkId(slug, i)) == Some((slug, i))
  {
    forall i | 0 <= i < n
      ensures ParseChunkId(ChunkId(slug, i)) == Some((slug, i))
    {
      ChunkIdRoundTrip(slug, i);
    }
  }

  /** A scraped page: its URL and the text BeautifulSoup extracted from its
      HTML (`soup.get_text("\n")`), before `clean_text`. */
  datatype Page = Page(url: string, pageText: string)

  /** The document store `main` builds: each page's text is cleaned,
      chunked and turned into records, page after page. */
  function BuildDocuments(pages: seq<Page>): seq<Doc>
  {
    if |pages| == 0 then []
    else PageDocuments(pages[0].url, Clean.CleanText(pages[0].pageText)) + BuildDocuments(pages[1..])
  }

  /** The slugs of the pages' URLs. */
  function SlugSet(pages: seq<Page>): set<string>
  {
    set p | p in pages :: Slug(p.url)
  }

  /** The record's id reads back as a chunk id whose slug is one of `slugs`. */
  predicate IdNamesSlug(d: Doc, slugs: set<string>) {
    d.id.Some? && ParseChunkId(d.id.value).Some? && ParseChunkId(d.id.value).value.0 in slugs
  }

  /** Every record of the store carries an id `{slug}-{index}` whose slug
      is that of one of the pages. */
  lemma {:induction false} DocumentIdShape(pages: seq<Page>)
    ensures forall k :: 0 <= k < |BuildDocuments(pages)| ==> IdNamesSlug(BuildDocuments(pages)[k], SlugSet(pages))
  {
    if |pages| > 0 {
      var docs := BuildDocuments(pages);
      var first := PageDocuments(pages[0].url, Clean.CleanText(pages[0].pageText));
      var rest := BuildDocuments(pages[1..]);
      DocumentIdShape(pages[1..]);
      assert docs == first + rest;
      SlugSetTail(pages);
      IdsNameSlugsConcat(first, rest, SlugSet(pages), SlugSet(pages[1..]));
    }
  }

  /** Records whose ids name slugs of two sets, one inside the other, all
      name slugs of the larger set. */
  lemma IdsNameSlugsConcat(first: seq<Doc>, rest: seq<Doc>, slugs: set<string>, restSlugs: set<string>)
    requires restSlugs <= slugs
    requires forall k :: 0 <= k < |first| ==> IdNamesSlug(first[k], slugs)
    requires forall k :: 0 <= k < |rest| ==> IdNamesSlug(rest[k], restSlugs)
    ensures forall k :: 0 <= k < |first + rest| ==> IdNamesSlug((first + rest)[k], slugs)
  {
    forall k | 0 <= k < |first + rest|
      ensures IdNamesSlug((first + rest)[k], slugs)
    {
      if k >= |first| {
        assert IdNamesSlug(rest[k - |first|], restSlugs);
      }
    }
  }

  /** The slugs of the pages: the first page's and those of the rest. */
  lemma SlugSetTail(pages: seq<Page>)
    requires |pages| > 0
    ensures SlugSet(pages) == {Slug(pages[0].url)} + SlugSet(pages[1..])
  {
    assert pages == [pages[0]] + pages[1..];
  }

  /** Ids are unique across the whole store as long as the pages' slugs
      are pairwise different. */
  lemma {:induction false} DocumentIdsUnique(pages: seq<Page>)
    requires forall p, q :: 0 <= p < q < |pages| ==> Slug(pages[p].url) != Slug(pages[q].url)
    ensures forall a, b :: 0 <= a < b < |BuildDocuments(pages)| ==>
      BuildDocuments(pages)[a].id != BuildDocuments(pages)[b].id
  {
    if |pages| > 0 {
      var docs := BuildDocuments(pages);
      var slug := Slug(pages[0].url);
      var first := PageDocuments(pages[0].url, Clean.CleanText(pages[0].pageText));
      var rest := BuildDocuments(pages[1..]);
      assert forall p, q :: 0 <= p < q < |pages[1..]| ==> Slug(pages[1..][p].url) != Slug(pages[1..][q].url) by {
        forall p, q | 0 <= p < q < |pages[1..]| ensures Slug(pages[1..][p].url) != Slug(pages[1..][q].url) {
          assert pages[1..][p] == pages[p + 1] && pages[1..][q] == pages[q + 1];
        }
      }
      DocumentIdsUnique(pages[1..]);
      DocumentIdShape(pages[1..]);
      assert slug !in SlugSet(pages[1..]);
      assert docs == first + rest;
      DistinctIdsConcat(first, rest, slug, SlugSet(pages[1..]));
    }
  }

  /** The records of one page, numbered under a slug that no later record
      names, followed by records with distinct ids, have distinct ids. */
  lemma DistinctIdsConcat(first: seq<Doc>, rest: seq<Doc>, slug: string, restSlugs: set<string>)
    requires forall i :: 0 <= i < |first| ==> first[i].id.Some? && ParseChunkId(first[i].id.value) == Some((slug, i))
    requires slug !in restSlugs
    requires forall k :: 0 <= k < |rest| ==> IdNamesSlug(rest[k], restSlugs)
    requires forall a, b :: 0 <= a < b < |rest| ==> rest[a].id != rest[b].id
    ensures forall a, b :: 0 <= a < b < |first + rest| ==> (first + rest)[a].id != (first + rest)[b].id
  {
    var docs := first + rest;
    forall a, b | 0 <= a < b < |docs|
      ensures docs[a].id != docs[b].id
    {
      if b < |first| {
        assert ParseChunkId(docs[a].id.value) != ParseChunkId(docs[b].id.value);
      } else if a < |first| {
        assert docs[b] == rest[b - |first|];
        assert IdNamesSlug(docs[b], restSlugs);
      } else {
        assert docs[a] == rest[a - |first|] && docs[b] == rest[b - |first|];
      }
    }
  }
}
