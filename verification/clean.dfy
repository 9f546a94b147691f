/** `clean_text`: normalises line breaks, strips every line, drops lines
    shorter than two characters, collapses whitespace runs to one space and
    removes repeated lines, keeping the first occurrence of each. */
module Clean {
  import opened Seqs
  import opened Text

  predicate IsNewline(c: char) { c == '\n' }

  /** `text.replace('\r', '\n')`. */
  function ReplaceCarriageReturns(text: string): string
  {
    seq(|text|, i requires 0 <= i < |text| => if text[i] == '\r' then '\n' else text[i])
  }

  /** The input's lines: the pieces between line breaks once every `\r` is a
      line break. */
  function SourceLines(text: string): seq<string>
  {
    Split(ReplaceCarriageReturns(text), '\n')
  }

  /** `[ln.strip() for ln in re.sub(r"\n+", "\n", text).split("\n")]`
      on the `\r`-normalised text. */
  function StrippedLines(text: string): seq<string>
  {
    StripAll(Split(Squeeze(ReplaceCarriageReturns(text), IsNewline, '\n'), '\n'))
  }

  /** Blank lines between two lines disappear: the whole run of line
      breaks becomes one. */
  lemma BlankLinesSqueezed(a: char, run: string, b: char)
    requires a != '\n' && b != '\n'
    requires |run| > 0 && forall i :: 0 <= i < |run| ==> run[i] == '\n'
    ensures Squeeze([a] + run + [b], IsNewline, '\n') == [a] + "\n" + [b]
  {
    var e: string := [];
    var front := [a] + run;
    SqueezeRun(run, IsNewline, '\n');
    SqueezeUnfold(front, IsNewline, '\n');
    assert front[1..] == run;
    assert Squeeze(front, IsNewline, '\n') == [a] + "\n";
    assert Squeeze(e, IsNewline, '\n') == e;
    assert front + [b] + e == [a] + run + [b];
    SqueezeSplit(front, b, e, IsNewline, '\n');
  }

  /** The length filter `len(ln) >= 2`. */
  predicate LongEnough(line: string) { |line| >= 2 }

  /** `re.sub(r"\s+", " ", ln)`. */
  function CollapseSpaces(line: string): string
  {
    Squeeze(line, IsSpace, ' ')
  }

  /** Every line with its runs of whitespace collapsed to one space. */
  function CollapseAll(lines: seq<string>): (r: seq<string>)
    ensures |r| == |lines| && forall i :: 0 <= i < |lines| ==> r[i] == CollapseSpaces(lines[i])
  {
    seq(|lines|, i requires 0 <= i < |lines| => CollapseSpaces(lines[i]))
  }

  /** The lines that survive the length filter, whitespace-collapsed, before
      duplicates are removed. */
  function Survivors(text: string): seq<string>
  {
    CollapseAll(Filter(StrippedLines(text), LongEnough))
  }

  /** What every output line of `clean_text` looks like: at least two
      characters, no whitespace at either end, and inside only single
      spaces (so no `\n` or `\r` either). */
  predicate CleanLine(line: string) {
    && |line| >= 2
    && !IsSpace(line[0]) && !IsSpace(line[|line| - 1])
    && (forall i :: 0 <= i < |line| && IsSpace(line[i]) ==> line[i] == ' ')
    && NoAdjacent(line, IsSpace)
  }

  /** Position of the first occurrence of `x` in `xs`. */
  function FirstIndex(xs: seq<string>, x: string): (k: nat)
    requires x in xs
    ensures k < |xs| && xs[k] == x && x !in xs[..k]
  {
    if xs[0] == x then 0 else 1 + FirstIndex(xs[1..], x)
  }

  /** Appending a line does not move the first occurrence of a line already present. */
  lemma {:induction false} FirstIndexSnoc(xs: seq<string>, y: string, x: string)
    requires x in xs
    ensures FirstIndex(xs + [y], x) == FirstIndex(xs, x)
  {
    if xs[0] != x {
      assert (xs + [y])[1..] == xs[1..] + [y];
      FirstIndexSnoc(xs[1..], y, x);
    }
  }

  /** Each distinct line once: the reference meaning of the `seen`-set
      loop. `FirstOccurrencesOrder` adds that each line stands at the place
      of its first occurrence. */
  function FirstOccurrences(xs: seq<string>): (r: seq<string>)
    ensures Distinct(r)
    ensures forall x | x in r :: x in xs
    ensures forall i | 0 <= i < |xs| :: xs[i] in r
  {
    if |xs| == 0 then []
    else
      var init := xs[..|xs| - 1];
      var x := xs[|xs| - 1];
      var r0 := FirstOccurrences(init);
      assert xs == init + [x];
      assert forall i | 0 <= i < |xs| - 1 :: xs[i] == init[i];
      if x in init then r0 else r0 + [x]
  }

  /** The lines of `r` appear in the order of their first occurrence in `xs`. */
  predicate InFirstOrder(r: seq<string>, xs: seq<string>)
    requires forall x | x in r :: x in xs
  {
    forall i, j :: 0 <= i < j < |r| ==> FirstIndex(xs, r[i]) < FirstIndex(xs, r[j])
  }

  /** Each kept line stands at the place of its first occurrence. */
  lemma {:induction false} FirstOccurrencesOrder(xs: seq<string>)
    ensures InFirstOrder(FirstOccurrences(xs), xs)
  {
    if |xs| > 0 {
      var init := xs[..|xs| - 1];
      var x := xs[|xs| - 1];
      FirstOccurrencesOrder(init);
      assert xs == init + [x];
      OrderSnoc(init, x, FirstOccurrences(init));
    }
  }

  /** Appending a line keeps the first-occurrence order of the lines seen so
      far, and a new line goes after all of them. */
  lemma OrderSnoc(init: seq<string>, x: string, r0: seq<string>)
    requires forall y | y in r0 :: y in init
    requires InFirstOrder(r0, init)
    ensures InFirstOrder(r0, init + [x])
    ensures x !in init ==> InFirstOrder(r0 + [x], init + [x])
  {
    OrderKept(init, x, r0);
    if x !in init {
      OrderAppend(init, x, r0);
    }
  }

  /** The lines seen so far keep their first positions when a line is appended. */
  lemma OrderKept(init: seq<string>, x: string, r0: seq<string>)
    requires forall y | y in r0 :: y in init
    requires InFirstOrder(r0, init)
    ensures InFirstOrder(r0, init + [x])
  {
    forall i, j | 0 <= i < j < |r0|
      ensures FirstIndex(init + [x], r0[i]) < FirstIndex(init + [x], r0[j])
    {
      FirstIndexSnoc(init, x, r0[i]);
      FirstIndexSnoc(init, x, r0[j]);
    }
  }

  /** A line not seen before has its first occurrence at the end, after every
      line seen so far. */
  lemma OrderAppend(init: seq<string>, x: string, r0: seq<string>)
    requires forall y | y in r0 :: y in init
    requires InFirstOrder(r0, init + [x])
    requires x !in init
    ensures InFirstOrder(r0 + [x], init + [x])
  {
    var xs := init + [x];
    var r := r0 + [x];
    FirstIndexLast(init, x);
    forall i, j | 0 <= i < j < |r|
      ensures FirstIndex(xs, r[i]) < FirstIndex(xs, r[j])
    {
      assert r[i] == r0[i];
      if j < |r0| {
        assert r[j] == r0[j];
      }
    }
  }

  /** A line that does not occur in `init` first occurs at the end of `init + [x]`. */
  lemma FirstIndexLast(init: seq<string>, x: string)
    requires x !in init
    ensures FirstIndex(init + [x], x) == |init|
  {
    var k := FirstIndex(init + [x], x);
    assert (init + [x])[..k] == init[..k];
  }

  /** A list without repetitions is its own list of first occurrences. */
  lemma {:induction false} FirstOccurrencesOfDistinct(xs: seq<string>)
    requires Distinct(xs)
    ensures FirstOccurrences(xs) == xs
  {
    if |xs| > 0 {
      var init := xs[..|xs| - 1];
      var x := xs[|xs| - 1];
      assert Distinct(init) by {
        forall i, j | 0 <= i < j < |init| ensures init[i] != init[j] {
          assert init[i] == xs[i] && init[j] == xs[j];
        }
      }
      FirstOccurrencesOfDistinct(init);
      assert x !in init by {
        forall i | 0 <= i < |init| ensures init[i] != x {
          assert init[i] == xs[i];
        }
      }
      assert xs == init + [x];
    }
  }

  /** The `seen`-set loop of `clean_text`. */
  method DedupLoop(lines: seq<string>) returns (unique: seq<string>)
    ensures unique == FirstOccurrences(lines)
  {
    var seen: set<string> := {};
    unique := [];
    for i := 0 to |lines|
      invariant unique == FirstOccurrences(lines[..i])
      invariant seen == set x | x in lines[..i]
    {
      var ln := lines[i];
      assert lines[..i + 1] == lines[..i] + [ln];
      FirstOccurrencesSnoc(lines[..i], ln);
      SeenSnoc(lines[..i], ln);
      if ln !in seen {
        seen := seen + {ln};
        unique := unique + [ln];
      }
    }
    assert lines[..|lines|] == lines;
  }

  /** One more line: it is kept exactly when it has not been seen. */
  lemma FirstOccurrencesSnoc(xs: seq<string>, x: string)
    ensures FirstOccurrences(xs + [x]) == if x in xs then FirstOccurrences(xs) else FirstOccurrences(xs) + [x]
  {
    assert (xs + [x])[..|xs|] == xs;
  }

  /** The `seen` set after one more line. */
  lemma SeenSnoc(xs: seq<string>, x: string)
    ensures (set y | y in xs + [x]) == (set y | y in xs) + {x}
  {
  }

  /** The list of unique lines `clean_text` joins. Every one is a clean line,
      none repeats, each is the stripped and whitespace-collapsed form of
      an input line, and they keep the order of first occurrence. */
  function CleanLines(text: string): (lines: seq<string>)
    ensures forall i :: 0 <= i < |lines| ==> CleanLine(lines[i])
    ensures Distinct(lines)
    ensures forall i :: 0 <= i < |lines| ==> FromSourceLine(text, lines[i])
    ensures forall x | x in lines :: x in Survivors(text)
    ensures forall x | x in Survivors(text) :: x in lines
    ensures InFirstOrder(lines, Survivors(text))
  {
    var lines := FirstOccurrences(Survivors(text));
    KeptLinesShape(text);
    FirstOccurrencesOrder(Survivors(text));
    FirstOccurrencesKeepAll(Survivors(text));
    lines
  }

  /** Every line the deduplication keeps is clean and comes from a source line. */
  lemma KeptLinesShape(text: string)
    ensures forall i :: 0 <= i < |FirstOccurrences(Survivors(text))| ==>
      CleanLine(FirstOccurrences(Survivors(text))[i]) && FromSourceLine(text, FirstOccurrences(Survivors(text))[i])
  {
    var xs := Survivors(text);
    var r := FirstOccurrences(xs);
    SurvivorsShape(text);
    forall i | 0 <= i < |r|
      ensures CleanLine(r[i]) && FromSourceLine(text, r[i])
    {
      assert r[i] in xs;
    }
  }

  /** Deduplication drops repeats only: every line of the input is kept. */
  lemma FirstOccurrencesKeepAll(xs: seq<string>)
    ensures forall x | x in xs :: x in FirstOccurrences(xs)
  {
    forall x | x in xs
      ensures x in FirstOccurrences(xs)
    {
      var i :| 0 <= i < |xs| && xs[i] == x;
    }
  }

  /** `clean_text(text)`. */
  function CleanText(text: string): string
  {
    Strip(Join(CleanLines(text), "\n"))
  }

  /** A clean line is non-empty and holds neither `\n` nor `\r`. */
  lemma CleanLineChars(l: string)
    requires CleanLine(l)
    ensures |l| > 0 && '\n' !in l && '\r' !in l
  {
    assert IsSpace('\n') && IsSpace('\r');
    forall k | 0 <= k < |l| ensures l[k] != '\n' && l[k] != '\r' {
      if IsSpace(l[k]) {
        assert l[k] == ' ';
      }
    }
  }

  /** The output of `clean_text`: empty when no line survives, and
      otherwise exactly the surviving lines joined by `\n` (the final
      `strip` removes nothing), so splitting it at `\n` gives them back. */
  lemma CleanTextShape(text: string)
    ensures CleanLines(text) == [] ==> CleanText(text) == ""
    ensures CleanLines(text) != [] ==>
      CleanText(text) == Join(CleanLines(text), "\n") && Split(CleanText(text), '\n') == CleanLines(text)
  {
    var lines := CleanLines(text);
    if lines != [] {
      var joined := Join(lines, "\n");
      forall i | 0 <= i < |lines| ensures |lines[i]| > 0 && '\n' !in lines[i] {
        CleanLineChars(lines[i]);
      }
      JoinEnds(lines, "\n");
      assert !IsSpace(joined[0]) && !IsSpace(joined[|joined| - 1]);
      StripUnchanged(joined);
      SplitJoin(lines, '\n');
    } else {
      assert Join(lines, "\n") == "";
      StripUnchanged("");
    }
  }

  /** Cleaning the empty text gives the empty text. */
  lemma CleanTextEmpty()
    ensures CleanText("") == ""
  {
    assert ReplaceCarriageReturns("") == "";
    assert Squeeze("", IsNewline, '\n') == "";
    assert Split("", '\n') == [""];
    StripUnchanged("");
    assert StrippedLines("") == [""];
    assert Filter([""], LongEnough) == [];
    assert Survivors("") == [];
    assert CleanLines("") == [];
    CleanTextShape("");
  }

  /** Distinct clean lines joined by `\n` clean to the same lines. */
  lemma CleanLinesOfClean(lines: seq<string>)
    requires |lines| >= 1 && Distinct(lines)
    requires forall i :: 0 <= i < |lines| ==> CleanLine(lines[i])
    ensures CleanLines(Join(lines, "\n")) == lines
  {
    var joined := Join(lines, "\n");
    JoinedLinesSplit(lines);
    assert StrippedLines(joined) == StripAll(lines);
    CleanLinesFixed(lines);
    assert Survivors(joined) == lines;
    FirstOccurrencesOfDistinct(lines);
  }

  /** Normalising line breaks in clean lines joined by `\n` changes
      nothing, so splitting gives the lines back. */
  lemma JoinedLinesSplit(lines: seq<string>)
    requires |lines| >= 1
    requires forall i :: 0 <= i < |lines| ==> CleanLine(lines[i])
    ensures Split(Squeeze(ReplaceCarriageReturns(Join(lines, "\n")), IsNewline, '\n'), '\n') == lines
  {
    var joined := Join(lines, "\n");
    forall i | 0 <= i < |lines| ensures |lines[i]| > 0 && '\n' !in lines[i] && '\r' !in lines[i] {
      CleanLineChars(lines[i]);
    }
    NoCarriageReturns(lines);
    JoinNoAdjacent(lines, '\n', IsNewline);
    SqueezeUnchanged(joined, IsNewline, '\n');
    SplitJoin(lines, '\n');
  }

  /** Lines without `\r` joined by `\n` have no `\r` to replace. */
  lemma NoCarriageReturns(lines: seq<string>)
    requires forall i :: 0 <= i < |lines| ==> '\r' !in lines[i]
    ensures ReplaceCarriageReturns(Join(lines, "\n")) == Join(lines, "\n")
  {
    var joined := Join(lines, "\n");
    JoinChars(lines, "\n", c => c != '\r');
    assert forall k :: 0 <= k < |joined| ==> joined[k] != '\r';
  }

  /** Stripping and whitespace collapsing leave a clean line as it is. */
  lemma CleanLineFixed(l: string)
    requires CleanLine(l)
    ensures Strip(l) == l && CollapseSpaces(l) == l
  {
    StripUnchanged(l);
    SqueezeUnchanged(l, IsSpace, ' ');
  }

  /** Stripping, the length filter and whitespace collapsing leave clean
      lines as they are. */
  lemma CleanLinesFixed(lines: seq<string>)
    requires forall i :: 0 <= i < |lines| ==> CleanLine(lines[i])
    ensures StripAll(lines) == lines
    ensures Filter(lines, LongEnough) == lines
    ensures CollapseAll(lines) == lines
  {
    forall i | 0 <= i < |lines|
      ensures Strip(lines[i]) == lines[i] && CollapseSpaces(lines[i]) == lines[i]
    {
      CleanLineFixed(lines[i]);
    }
    FilterAll(lines, LongEnough);
  }

  /** `clean_text` is idempotent: its output is already clean. */
  lemma CleanTextIdempotent(text: string)
    ensures CleanText(CleanText(text)) == CleanText(text)
  {
    CleanTextShape(text);
    var lines := CleanLines(text);
    if lines == [] {
      CleanTextEmpty();
    } else {
      CleanLinesOfClean(lines);
      CleanTextShape(Join(lines, "\n"));
    }
  }

  /** `l` is some input line of `text`, stripped and with its runs of
      whitespace collapsed. */
  predicate FromSourceLine(text: string, l: string) {
    exists src :: src in SourceLines(text) && l == CollapseSpaces(Strip(src))
  }

  /** Every surviving line is clean and comes from an input line. */
  lemma SurvivorsShape(text: string)
    ensures forall l | l in Survivors(text) :: CleanLine(l) && FromSourceLine(text, l)
  {
    forall l | l in Survivors(text)
      ensures CleanLine(l) && FromSourceLine(text, l)
    {
      var kept := Filter(StrippedLines(text), LongEnough);
      var all := CollapseAll(kept);
      var k :| 0 <= k < |all| && all[k] == l;
      var s := kept[k];
      assert l == CollapseSpaces(s);
      assert s in StrippedLines(text) && |s| >= 2;
      StrippedLineOrigin(text, s);
      CollapsedIsClean(s);
    }
  }

  /** Each stripped line is the strip of an input line, and a long enough
      one has no whitespace at its ends. */
  lemma StrippedLineOrigin(text: string, s: string)
    requires s in StrippedLines(text) && |s| >= 2
    ensures !IsSpace(s[0]) && !IsSpace(s[|s| - 1])
    ensures exists src :: src in SourceLines(text) && s == Strip(src)
  {
    var t := ReplaceCarriageReturns(text);
    var squeezed := Split(Squeeze(t, IsNewline, '\n'), '\n');
    SplitOfSqueezed(t);
    var stripped := StripAll(squeezed);
    var m :| 0 <= m < |stripped| && stripped[m] == s;
    var src := squeezed[m];
    assert s == Strip(src);
    assert src != [] by {
      StripEmpty(src);
    }
    var b := SourceLines(text);
    assert SqueezedLines(squeezed, b);
    SqueezedLineIn(squeezed, b, m);
  }

  /** A non-empty line that survives squeezing is one of the original lines. */
  lemma SqueezedLineIn(a: seq<string>, b: seq<string>, m: nat)
    requires SqueezedLines(a, b) && m < |a| && a[m] != []
    ensures a[m] in b
  {
    if m > 0 {
      var q :| 0 <= q < |b[1..]| && b[1..][q] == a[m];
      assert b[q + 1] == a[m];
    }
  }

  /** A stripped line of at least two characters collapses to a clean line. */
  lemma CollapsedIsClean(s: string)
    requires |s| >= 2 && !IsSpace(s[0]) && !IsSpace(s[|s| - 1])
    ensures CleanLine(CollapseSpaces(s))
  {
    var r := CollapseSpaces(s);
    SqueezeChars(s, IsSpace, ' ');
    SqueezeNoAdjacent(s, IsSpace, ' ');
    assert r == [s[0]] + Squeeze(s[1..], IsSpace, ' ');
  }

  /** `a` is the split of the newline-squeezed text and `b` the split of the
      original: same first line, and every later line of `a` is empty or a
      later line of `b`. */
  predicate SqueezedLines(a: seq<string>, b: seq<string>) {
    && |a| >= 1 && |b| >= 1 && a[0] == b[0]
    && forall k :: 1 <= k < |a| ==> a[k] == [] || a[k] in b[1..]
  }

  /** Squeezing line-break runs only removes empty lines. */
  lemma {:induction false} SplitOfSqueezed(w: string)
    ensures SqueezedLines(Split(Squeeze(w, IsNewline, '\n'), '\n'), Split(w, '\n'))
    decreases |w|
  {
    if |w| > 0 {
      if w[0] == '\n' {
        SplitOfSqueezed(TrimStart(w[1..], IsNewline));
        SqueezedAfterBreak(w);
      } else {
        SplitOfSqueezed(w[1..]);
        SqueezedAfterChar(w);
      }
    }
  }

  /** The step of `SplitOfSqueezed` for a text starting with a line break. */
  lemma SqueezedAfterBreak(w: string)
    requires |w| > 0 && w[0] == '\n'
    requires SqueezedLines(Split(Squeeze(TrimStart(w[1..], IsNewline), IsNewline, '\n'), '\n'),
                           Split(TrimStart(w[1..], IsNewline), '\n'))
    ensures SqueezedLines(Split(Squeeze(w, IsNewline, '\n'), '\n'), Split(w, '\n'))
  {
    var sq := Squeeze(w, IsNewline, '\n');
    var a := Split(sq, '\n');
    var b := Split(w, '\n');
    var t := TrimStart(w[1..], IsNewline);
    var at := Split(Squeeze(t, IsNewline, '\n'), '\n');
    SqueezeUnfold(w, IsNewline, '\n');
    assert sq == [] + ['\n'] + Squeeze(t, IsNewline, '\n');
    SplitAfterPiece([], Squeeze(t, IsNewline, '\n'), '\n');
    assert a == [""] + at;
    assert w == [] + ['\n'] + w[1..];
    SplitAfterPiece([], w[1..], '\n');
    assert b == [""] + Split(w[1..], '\n');
    var m := SplitOfTrimmed(w[1..]);
    SqueezedLinesAfterBreak(at, Split(t, '\n'), Split(w[1..], '\n'), m);
  }

  /** A leading empty line on both sides, where the squeezed side had its
      leading empty lines dropped. */
  lemma SqueezedLinesAfterBreak(at: seq<string>, bt: seq<string>, b1: seq<string>, m: nat)
    requires SqueezedLines(at, bt)
    requires m < |b1| && bt == b1[m..]
    ensures SqueezedLines([""] + at, [""] + b1)
  {
    var a := [""] + at;
    forall k | 1 <= k < |a|
      ensures a[k] == [] || a[k] in ([""] + b1)[1..]
    {
      assert a[k] == at[k - 1];
      assert ([""] + b1)[1..] == b1;
      if k == 1 {
        assert at[0] == b1[m];
      } else if at[k - 1] != [] {
        var q :| 0 <= q < |bt[1..]| && bt[1..][q] == at[k - 1];
        assert b1[m + 1 + q] == at[k - 1];
      }
    }
  }

  /** The step of `SplitOfSqueezed` for a text starting with another character. */
  lemma SqueezedAfterChar(w: string)
    requires |w| > 0 && w[0] != '\n'
    requires SqueezedLines(Split(Squeeze(w[1..], IsNewline, '\n'), '\n'), Split(w[1..], '\n'))
    ensures SqueezedLines(Split(Squeeze(w, IsNewline, '\n'), '\n'), Split(w, '\n'))
  {
    var sq := Squeeze(w, IsNewline, '\n');
    var a := Split(sq, '\n');
    var b := Split(w, '\n');
    var sq1 := Squeeze(w[1..], IsNewline, '\n');
    SqueezeUnfold(w, IsNewline, '\n');
    assert sq == [w[0]] + sq1;
    assert sq[1..] == sq1;
    var a1 := Split(sq1, '\n');
    var b1 := Split(w[1..], '\n');
    assert a == [[w[0]] + a1[0]] + a1[1..];
    assert b == [[w[0]] + b1[0]] + b1[1..];
    SqueezedLinesExtend(a1, b1, w[0]);
  }

  /** Extending the first line on both sides keeps the correspondence. */
  lemma SqueezedLinesExtend(a1: seq<string>, b1: seq<string>, c: char)
    requires SqueezedLines(a1, b1)
    ensures SqueezedLines([[c] + a1[0]] + a1[1..], [[c] + b1[0]] + b1[1..])
  {
    var a := [[c] + a1[0]] + a1[1..];
    var b := [[c] + b1[0]] + b1[1..];
    assert b[1..] == b1[1..];
    forall k | 1 <= k < |a|
      ensures a[k] == [] || a[k] in b[1..]
    {
      assert a[k] == a1[k];
    }
  }

  /** Dropping leading line breaks drops leading empty lines: the lines of
      the trimmed text are a suffix of the original's. */
  lemma {:induction false} SplitOfTrimmed(u: string) returns (m: nat)
    ensures m < |Split(u, '\n')|
    ensures Split(TrimStart(u, IsNewline), '\n') == Split(u, '\n')[m..]
    decreases |u|
  {
    if |u| > 0 && u[0] == '\n' {
      var m1 := SplitOfTrimmed(u[1..]);
      assert Split(u, '\n') == [""] + Split(u[1..], '\n');
      m := m1 + 1;
    } else {
      m := 0;
    }
  }
}
