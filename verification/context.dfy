/** `_format_context`: packs the stripped, non-blank chunks retrieved for a
    question into one context string under a character budget. */
module Context {
  import opened Seqs
  import opened Text

  /** The separator placed between packed chunks. */
  const Separator: string := "\n\n---\n\n"

  /** Default budget `max_total_chars`. */
  const DefaultCap := 8000

  /** A stripped chunk the loop does not skip. */
  predicate NotBlank(s: string) { |s| > 0 }

  /** The non-empty ones among the stripped chunks, in input order: what
      the packer would take with an unlimited budget. */
  function NonBlank(stripped: seq<string>): seq<string>
  {
    Filter(stripped, NotBlank)
  }

  /** `pieces` line up with `whole`: each piece is a non-empty prefix of the
      chunk at the same position, and all but the last are the full chunk. */
  predicate PiecesOf(pieces: seq<string>, whole: seq<string>) {
    && |pieces| <= |whole|
    && (forall i :: 0 <= i < |pieces| ==> 0 < |pieces[i]| <= |whole[i]| && pieces[i] == whole[i][..|pieces[i]|])
    && (forall i :: 0 <= i < |pieces| - 1 ==> pieces[i] == whole[i])
  }

  /** The list `taken` built by the loop over the stripped chunks when it
      resumes with the running total `total`: stop once the total reaches
      the cap, skip blank chunks, and otherwise take the chunk cut to the
      remaining budget. The pieces never exceed the budget. */
  function Pieces(stripped: seq<string>, cap: int, total: int): (r: seq<string>)
    ensures SumLens(r) <= Max(0, cap - total)
  {
    if |stripped| == 0 || total >= cap then []
    else
      var ch := stripped[0];
      if |ch| == 0 then Pieces(stripped[1..], cap, total)
      else
        var piece := PyTake(ch, cap - total);
        var more := Pieces(stripped[1..], cap, total + |piece|);
        assert ([piece] + more)[1..] == more;
        [piece] + more
  }

  /** The pieces line up with the non-blank chunks: each is a non-empty
      prefix of its chunk, and all but the last are the whole chunk. */
  lemma {:induction false} PiecesLineUp(stripped: seq<string>, cap: int, total: int)
    ensures PiecesOf(Pieces(stripped, cap, total), NonBlank(stripped))
  {
    if |stripped| > 0 && total < cap {
      var ch := stripped[0];
      var rest := NonBlank(stripped[1..]);
      PiecesLineUp(stripped[1..], cap, total);
      if |ch| == 0 {
        assert NonBlank(stripped) == rest;
      } else {
        var piece := PyTake(ch, cap - total);
        var more := Pieces(stripped[1..], cap, total + |piece|);
        PiecesLineUp(stripped[1..], cap, total + |piece|);
        assert NonBlank(stripped) == [ch] + rest;
        PiecesCons(piece, more, ch, rest, cap - total);
      }
    }
  }

  /** A piece cut from the front of a chunk, followed by the pieces of the
      following chunks (none once a piece is cut short), are pieces of the chunks. */
  lemma PiecesCons(piece: string, more: seq<string>, ch: string, rest: seq<string>, budget: int)
    requires 0 < |piece| <= |ch| && piece == ch[..|piece|]
    requires |piece| < |ch| ==> more == []
    requires PiecesOf(more, rest)
    ensures PiecesOf([piece] + more, [ch] + rest)
  {
    var r, w := [piece] + more, [ch] + rest;
    forall i | 0 <= i < |r|
      ensures 0 < |r[i]| <= |w[i]| && r[i] == w[i][..|r[i]|]
    {
      if i > 0 {
        assert r[i] == more[i - 1] && w[i] == rest[i - 1];
      }
    }
    forall i | 0 <= i < |r| - 1
      ensures r[i] == w[i]
    {
      if i > 0 {
        assert r[i] == more[i - 1] && w[i] == rest[i - 1];
      } else {
        assert |more| > 0;
      }
    }
  }

  /** `_format_context(chunks, max_total_chars)`. */
  function FormatContext(chunks: seq<string>, cap: int): string
  {
    Join(Pieces(StripAll(chunks), cap, 0), Separator)
  }

  /** The pieces leave part of `whole` out: a later chunk, or the end of
      the last chunk they take. */
  predicate LeavesOut(pieces: seq<string>, whole: seq<string>) {
    || |pieces| < |whole|
    || (0 < |pieces| <= |whole| && |pieces[|pieces| - 1]| < |whole[|pieces| - 1]|)
  }

  /** Once the budget is exhausted nothing more is taken: when some
      non-blank chunk, or the end of the last one taken, is left out, the
      pieces fill the budget exactly. */
  lemma {:induction false} PiecesStopAtCap(stripped: seq<string>, cap: int, total: int)
    requires total <= cap
    ensures LeavesOut(Pieces(stripped, cap, total), NonBlank(stripped)) ==> SumLens(Pieces(stripped, cap, total)) == cap - total
  {
    if |stripped| > 0 && total < cap {
      var ch := stripped[0];
      if |ch| == 0 {
        assert NonBlank(stripped) == NonBlank(stripped[1..]);
        PiecesStopAtCap(stripped[1..], cap, total);
      } else {
        var piece := PyTake(ch, cap - total);
        var more := Pieces(stripped[1..], cap, total + |piece|);
        var rest := NonBlank(stripped[1..]);
        assert NonBlank(stripped) == [ch] + rest;
        assert Pieces(stripped, cap, total) == [piece] + more;
        assert SumLens([piece] + more) == |piece| + SumLens(more) by {
          assert ([piece] + more)[1..] == more;
        }
        if |piece| < |ch| {
          assert |piece| == cap - total;
        } else {
          assert piece == ch;
          PiecesStopAtCap(stripped[1..], cap, total + |piece|);
          if LeavesOut([piece] + more, [ch] + rest) {
            LeavesOutTail(ch, more, rest);
          }
        }
      }
    }
  }

  /** Leaving part of the chunks out after a whole first chunk leaves part
      of the remaining chunks out. */
  lemma LeavesOutTail(ch: string, more: seq<string>, rest: seq<string>)
    requires LeavesOut([ch] + more, [ch] + rest)
    ensures LeavesOut(more, rest)
  {
    if |more| > 0 && |more| <= |rest| {
      assert ([ch] + more)[|more|] == more[|more| - 1];
      assert ([ch] + rest)[|more|] == rest[|more| - 1];
    }
  }

  /** When all non-blank chunks fit in the budget, every one of them is
      taken whole. */
  lemma {:induction false} PiecesFitAll(stripped: seq<string>, cap: int, total: int)
    requires SumLens(NonBlank(stripped)) <= cap - total
    ensures Pieces(stripped, cap, total) == NonBlank(stripped)
  {
    if |stripped| > 0 {
      var ch := stripped[0];
      var rest := NonBlank(stripped[1..]);
      if |ch| == 0 {
        assert NonBlank(stripped) == rest;
        if total < cap {
          PiecesStep(stripped, cap, total);
        }
        PiecesFitAll(stripped[1..], cap, total);
      } else {
        assert NonBlank(stripped) == [ch] + rest;
        assert ([ch] + rest)[1..] == rest;
        assert |ch| + SumLens(rest) <= cap - total;
        PiecesStep(stripped, cap, total);
        assert PyTake(ch, cap - total) == ch;
        PiecesFitAll(stripped[1..], cap, total + |ch|);
      }
    }
  }

  /** A budget of zero or less, or no non-blank chunk, gives the empty
      context. */
  lemma FormatContextEmpty(chunks: seq<string>, cap: int)
    requires cap <= 0 || NonBlank(StripAll(chunks)) == []
    ensures FormatContext(chunks, cap) == ""
  {
    PiecesLineUp(StripAll(chunks), cap, 0);
    assert Pieces(StripAll(chunks), cap, 0) == [];
  }

  /** The context holds every non-blank stripped chunk joined by the
      separator when their total length fits the budget. */
  lemma FormatContextFits(chunks: seq<string>, cap: int)
    requires SumLens(NonBlank(StripAll(chunks))) <= cap
    ensures FormatContext(chunks, cap) == Join(NonBlank(StripAll(chunks)), Separator)
  {
    PiecesFitAll(StripAll(chunks), cap, 0);
  }

  /** The length of the context: exactly the characters of the taken
      pieces plus seven (the length of `Separator`) for each separator
      between them. */
  lemma FormatContextLength(chunks: seq<string>, cap: int)
    ensures |FormatContext(chunks, cap)| ==
      SumLens(Pieces(StripAll(chunks), cap, 0)) + 7 * Max(0, |Pieces(StripAll(chunks), cap, 0)| - 1)
  {
    var pieces := Pieces(StripAll(chunks), cap, 0);
    var n := |FormatContext(chunks, cap)|;
    assert |Separator| == 7;
    if pieces == [] {
      assert n == 0 && SumLens(pieces) == 0;
    } else {
      var k := |pieces| - 1;
      JoinLength(pieces, Separator);
      assert n == SumLens(pieces) + |Separator| * k;
      assert |Separator| * k == 7 * k;
      assert Max(0, k) == k;
    }
  }

  /** The budget bounds only the piece characters: the context is at most
      the cap plus the separators between the taken pieces, and so at most
      the cap plus one separator per gap between non-blank chunks. */
  lemma FormatContextBound(chunks: seq<string>, cap: int)
    ensures |FormatContext(chunks, cap)| <= Max(0, cap) + 7 * Max(0, |Pieces(StripAll(chunks), cap, 0)| - 1)
    ensures |FormatContext(chunks, cap)| <= Max(0, cap) + 7 * Max(0, |NonBlank(StripAll(chunks))| - 1)
  {
    var pieces := Pieces(StripAll(chunks), cap, 0);
    var whole := NonBlank(StripAll(chunks));
    FormatContextLength(chunks, cap);
    PiecesLineUp(StripAll(chunks), cap, 0);
    assert |pieces| <= |whole| && SumLens(pieces) <= Max(0, cap);
    assert 7 * Max(0, |pieces| - 1) <= 7 * Max(0, |whole| - 1);
  }

  /** The budget does not bound the context itself: two chunks of two
      characters under a budget of four give an eleven-character context. */
  lemma FormatContextExceedsCap()
    ensures FormatContext(["ab", "cd"], 4) == "ab" + Separator + "cd"
    ensures |FormatContext(["ab", "cd"], 4)| == 11 > 4
  {
    var chunks := ["ab", "cd"];
    ExampleChunksKept(chunks);
    FormatContextFits(chunks, 4);
    ExampleJoin(chunks);
  }

  /** The two example chunks survive stripping and the blank filter, and
      together are exactly four characters long. */
  lemma ExampleChunksKept(chunks: seq<string>)
    requires chunks == ["ab", "cd"]
    ensures NonBlank(StripAll(chunks)) == chunks && SumLens(chunks) == 4
  {
    ExampleStripped(chunks);
    ExampleNonBlank(chunks);
    ExampleLength(chunks);
  }

  /** Neither example chunk is blank. */
  lemma ExampleNonBlank(chunks: seq<string>)
    requires chunks == ["ab", "cd"]
    ensures NonBlank(chunks) == chunks
  {
    assert |chunks| == 2 && |chunks[0]| == 2 && |chunks[1]| == 2;
    NonBlankAll(chunks);
  }

  /** Chunks none of which is empty all pass the blank filter. */
  lemma NonBlankAll(xs: seq<string>)
    requires forall i :: 0 <= i < |xs| ==> |xs[i]| > 0
    ensures NonBlank(xs) == xs
  {
    FilterAll(xs, NotBlank);
  }

  /** The example's chunks have no surrounding whitespace. */
  lemma ExampleStripped(chunks: seq<string>)
    requires chunks == ["ab", "cd"]
    ensures StripAll(chunks) == chunks
  {
    assert chunks[0] == "ab" && chunks[1] == "cd";
    assert !IsSpace('a') && !IsSpace('b') && !IsSpace('c') && !IsSpace('d');
    StripAllUnchanged(chunks);
  }

  /** The example's chunks hold four characters together. */
  lemma ExampleLength(chunks: seq<string>)
    requires chunks == ["ab", "cd"]
    ensures SumLens(chunks) == 4
  {
    assert chunks[1..] == ["cd"] && chunks[1..][1..] == [];
    assert SumLens(chunks) == 2 + SumLens(["cd"]);
    assert SumLens(["cd"]) == 2 + SumLens([]);
  }

  /** Joining the two example chunks puts one separator between them. */
  lemma ExampleJoin(chunks: seq<string>)
    requires chunks == ["ab", "cd"]
    ensures Join(chunks, Separator) == "ab" + Separator + "cd"
  {
    assert chunks[1..] == ["cd"];
  }

  /** One turn of the loop while the budget lasts. */
  lemma PiecesStep(stripped: seq<string>, cap: int, total: int)
    requires |stripped| > 0 && total < cap
    ensures |stripped[0]| == 0 ==> Pieces(stripped, cap, total) == Pieces(stripped[1..], cap, total)
    ensures |stripped[0]| > 0 ==>
      Pieces(stripped, cap, total)
        == [PyTake(stripped[0], cap - total)] + Pieces(stripped[1..], cap, total + |PyTake(stripped[0], cap - total)|)
  {
  }

  /** One turn of the packing loop: the piece taken from the next chunk
      joins the pieces taken so far. */
  lemma TakeStep(taken: seq<string>, tail: seq<string>, cap: int, total: int, piece: string, all: seq<string>)
    requires |tail| > 0 && |tail[0]| > 0 && total < cap
    requires piece == PyTake(tail[0], cap - total)
    requires taken + Pieces(tail, cap, total) == all
    ensures (taken + [piece]) + Pieces(tail[1..], cap, total + |piece|) == all
  {
    var later := Pieces(tail[1..], cap, total + |piece|);
    PiecesStep(tail, cap, total);
    assert (taken + [piece]) + later == taken + ([piece] + later);
  }

  /** The loop of `_format_context` over the already stripped chunks (the
      source strips each chunk as it reaches it; stripping has no effect
      on anything else, so stripping them first is the same). */
  method PackLoop(stripped: seq<string>, cap: int) returns (taken: seq<string>)
    ensures taken == Pieces(stripped, cap, 0)
  {
    taken := [];
    var total := 0;
    var i := 0;
    while i < |stripped|
      invariant 0 <= i <= |stripped|
      invariant taken + Pieces(stripped[i..], cap, total) == Pieces(stripped, cap, 0)
    {
      if total >= cap {
        break;
      }
      var ch := stripped[i];
      ghost var tail := stripped[i..];
      assert tail[0] == ch && tail[1..] == stripped[i + 1..];
      PiecesStep(tail, cap, total);
      if |ch| == 0 {
        i := i + 1;
        continue;
      }
      var budget := cap - total;
      var piece := PyTake(ch, budget);
      TakeStep(taken, tail, cap, total, piece, Pieces(stripped, cap, 0));
      taken := taken + [piece];
      total := total + |piece|;
      i := i + 1;
    }
    assert taken == Pieces(stripped, cap, 0) by {
      if i < |stripped| {
        assert Pieces(stripped[i..], cap, total) == [];
      } else {
        assert stripped[i..] == [];
      }
    }
  }

  /** `_format_context(chunks, max_total_chars)` as the loop computes it. */
  method FormatContextLoop(chunks: seq<string>, cap: int) returns (context: string)
    ensures context == FormatContext(chunks, cap)
  {
    var taken := PackLoop(StripAll(chunks), cap);
    context := Join(taken, Separator);
  }
}
