/** String operations with the meaning Python gives them: `str.isspace`,
    `str.lower` (restricted), `in` on strings, `strip`, `split`, `join`,
    `re.sub(r"X+", ...)` run collapsing, and decimal formatting of integers. */
module Text {
  import opened Seqs

  /** Python's `str.isspace()` for one character; the regular expression
      class `\s` on `str` patterns matches the same characters. */
  predicate IsSpace(c: char) {
    || ('\U{0009}' <= c <= '\U{000D}')
    || ('\U{001C}' <= c <= '\U{0020}')
    || c == '\U{0085}' || c == '\U{00A0}' || c == '\U{1680}'
    || ('\U{2000}' <= c <= '\U{200A}')
    || c == '\U{2028}' || c == '\U{2029}' || c == '\U{202F}' || c == '\U{205F}' || c == '\U{3000}'
  }

  /** The capital letters the program's tables care about: ASCII `A`-`Z`
      and the Cyrillic capitals U+0400-U+042F. */
  predicate IsCapital(c: char) {
    ('A' <= c <= 'Z') || ('\U{0400}' <= c <= '\U{042F}')
  }

  /** Lower-casing of one character, for those alphabets: a capital becomes
      the small letter of its own alphabet, anything else is left alone. */
  function LowerChar(c: char): (l: char)
    ensures !IsCapital(l)
    ensures !IsCapital(c) ==> l == c
    ensures 'A' <= c <= 'Z' ==> 'a' <= l <= 'z'
    ensures '\U{0400}' <= c <= '\U{042F}' ==> '\U{0430}' <= l <= '\U{045F}'
    ensures '\U{0400}' <= c <= '\U{040F}' ==> '\U{0450}' <= l <= '\U{045F}'
    ensures '\U{0410}' <= c <= '\U{042F}' ==> '\U{0430}' <= l <= '\U{044F}'
  {
    if 'A' <= c <= 'Z' then (c as int + 32) as char
    else if '\U{0410}' <= c <= '\U{042F}' then (c as int + 32) as char
    else if '\U{0400}' <= c <= '\U{040F}' then (c as int + 80) as char
    else c
  }

  /** Capitals in the same run of an alphabet, in order: `A`-`Z`, the
      Cyrillic capitals with diacritics U+0400-U+040F, or the basic Cyrillic
      capitals U+0410-U+042F. */
  predicate SameRun(c: char, d: char) {
    || ('A' <= c <= 'Z' && 'A' <= d <= 'Z')
    || ('\U{0400}' <= c <= '\U{040F}' && '\U{0400}' <= d <= '\U{040F}')
    || ('\U{0410}' <= c <= '\U{042F}' && '\U{0410}' <= d <= '\U{042F}')
  }

  /** Lower-casing keeps the alphabetical order within each run of
      capitals. Each run is sent onto a run of small letters of the same
      size, so this fixes the image of every capital: `A` goes to `a`, `M`
      to `m`, and so on. */
  lemma LowerCharOrder(c: char, d: char)
    requires SameRun(c, d) && c < d
    ensures LowerChar(c) < LowerChar(d)
    ensures LowerChar(d) as int - LowerChar(c) as int == d as int - c as int
  {
  }

  /** `s.lower()`, character by character: no capital is left, every other
      character stays where it was, and each capital turns into a small
      letter of its own alphabet. */
  function Lower(s: string): (r: string)
    ensures |r| == |s|
    ensures forall i :: 0 <= i < |r| ==> !IsCapital(r[i])
    ensures forall i :: 0 <= i < |s| && !IsCapital(s[i]) ==> r[i] == s[i]
    ensures forall i :: 0 <= i < |s| && 'A' <= s[i] <= 'Z' ==> 'a' <= r[i] <= 'z'
    ensures forall i :: 0 <= i < |s| && '\U{0400}' <= s[i] <= '\U{042F}' ==> '\U{0430}' <= r[i] <= '\U{045F}'
  {
    seq(|s|, i requires 0 <= i < |s| => LowerChar(s[i]))
  }

  /** Lower-casing twice is lower-casing once, so anything computed from
      `text.lower()` gives the same answer on an already lower-cased text. */
  lemma LowerIdempotent(s: string)
    ensures Lower(Lower(s)) == Lower(s)
  {
    var t := Lower(s);
    assert forall i :: 0 <= i < |t| ==> !IsCapital(t[i]);
    assert Lower(t) == t;
  }

  /** Python's `sub in s`: `sub` occurs at some position (the empty string
      occurs everywhere). */
  predicate Contains(s: string, sub: string) {
    exists i | 0 <= i <= |s| - |sub| :: OccursAt(s, sub, i)
  }

  /** `sub` occurs in `s` starting at position `i`. */
  predicate OccursAt(s: string, sub: string, i: nat) {
    i + |sub| <= |s| && s[i..i + |sub|] == sub
  }

  /** A string without the first character of `sub` does not contain it. */
  lemma AbsentHead(s: string, sub: string)
    requires |sub| > 0 && sub[0] !in s
    ensures !Contains(s, sub)
  {
    forall i | 0 <= i <= |s| - |sub|
      ensures !OccursAt(s, sub, i)
    {
      assert s[i] in s;
    }
  }

  /** `s` with its longest prefix of `p`-characters removed. */
  function TrimStart(s: string, p: char -> bool): (r: string)
    ensures |r| <= |s| && r == s[|s| - |r|..]
    ensures forall k :: 0 <= k < |s| - |r| ==> p(s[k])
    ensures |r| > 0 ==> !p(r[0])
  {
    if |s| > 0 && p(s[0]) then TrimStart(s[1..], p) else s
  }

  /** `s` with its longest suffix of `p`-characters removed (`s.rstrip(chars)`). */
  function TrimEnd(s: string, p: char -> bool): (r: string)
    ensures |r| <= |s| && r == s[..|r|]
    ensures forall k :: |r| <= k < |s| ==> p(s[k])
    ensures |r| > 0 ==> !p(r[|r| - 1])
  {
    if |s| > 0 && p(s[|s| - 1]) then TrimEnd(s[..|s| - 1], p) else s
  }

  /** Python's `s.strip()`. */
  function Strip(s: string): (r: string)
    ensures |r| > 0 ==> !IsSpace(r[0]) && !IsSpace(r[|r| - 1])
    ensures exists a :: StrippedAt(s, r, a)
  {
    var t := TrimStart(s, IsSpace);
    var r := TrimEnd(t, IsSpace);
    TrimmedAt(s, t, r);
    r
  }

  /** A string cut from whitespace at the front and then at the back sits
      where the front cut ended, with whitespace on either side. */
  lemma TrimmedAt(s: string, t: string, r: string)
    requires |t| <= |s| && t == s[|s| - |t|..]
    requires forall k :: 0 <= k < |s| - |t| ==> IsSpace(s[k])
    requires |r| <= |t| && r == t[..|r|]
    requires forall k :: |r| <= k < |t| ==> IsSpace(t[k])
    ensures StrippedAt(s, r, |s| - |t|)
  {
    var a := |s| - |t|;
    assert r == t[..|r|] && t == s[a..];
    assert r == s[a..a + |r|];
    forall k | a + |r| <= k < |s|
      ensures IsSpace(s[k])
    {
      assert s[k] == t[k - a];
    }
  }

  /** `r` is the part of `s` starting at `a`, and everything of `s` around it
      is whitespace. */
  predicate StrippedAt(s: string, r: string, a: nat) {
    && a + |r| <= |s| && r == s[a..a + |r|]
    && (forall k :: 0 <= k < a ==> IsSpace(s[k]))
    && (forall k :: a + |r| <= k < |s| ==> IsSpace(s[k]))
  }

  /** Every string stripped (`[s.strip() for s in xs]`). */
  function StripAll(xs: seq<string>): (r: seq<string>)
    ensures |r| == |xs| && forall i :: 0 <= i < |xs| ==> r[i] == Strip(xs[i])
  {
    seq(|xs|, i requires 0 <= i < |xs| => Strip(xs[i]))
  }

  /** Stripping a string that neither starts nor ends with whitespace changes nothing. */
  lemma StripUnchanged(s: string)
    requires |s| > 0 ==> !IsSpace(s[0]) && !IsSpace(s[|s| - 1])
    ensures Strip(s) == s
  {
  }

  /** Stripping strings that neither start nor end with whitespace changes
      none of them. */
  lemma StripAllUnchanged(xs: seq<string>)
    requires forall i :: 0 <= i < |xs| && |xs[i]| > 0 ==> !IsSpace(xs[i][0]) && !IsSpace(xs[i][|xs[i]| - 1])
    ensures StripAll(xs) == xs
  {
    forall i | 0 <= i < |xs|
      ensures StripAll(xs)[i] == xs[i]
    {
      StripUnchanged(xs[i]);
    }
  }

  /** A string strips to nothing exactly when it is all whitespace. */
  lemma StripEmpty(s: string)
    ensures Strip(s) == [] <==> forall k :: 0 <= k < |s| ==> IsSpace(s[k])
  {
    var r := Strip(s);
    if r != [] {
      var a: nat :| StrippedAt(s, r, a);
      assert s[a] == r[0];
    }
  }

  /** `sep.join(parts)`. */
  function Join(parts: seq<string>, sep: string): string
  {
    if |parts| == 0 then ""
    else if |parts| == 1 then parts[0]
    else parts[0] + sep + Join(parts[1..], sep)
  }

  /** Python's `s.split(sep)` for a one-character separator: the pieces
      between separators, `[""]` for the empty string. Joining the pieces
      back gives `s`. */
  function Split(s: string, sep: char): (r: seq<string>)
    ensures |r| >= 1
    ensures forall i :: 0 <= i < |r| ==> sep !in r[i]
    ensures Join(r, [sep]) == s
  {
    if |s| == 0 then [""]
    else if s[0] == sep then
      var rest := Split(s[1..], sep);
      assert Join([""] + rest, [sep]) == [sep] + Join(rest, [sep]) by {
        assert ([""] + rest)[1..] == rest;
      }
      [""] + rest
    else
      var rest := Split(s[1..], sep);
      JoinConsHead([s[0]], rest, [sep]);
      [[s[0]] + rest[0]] + rest[1..]
  }

  /** Extending the first piece extends the joined string. */
  lemma JoinConsHead(a: string, parts: seq<string>, sep: string)
    requires |parts| >= 1
    ensures Join([a + parts[0]] + parts[1..], sep) == a + Join(parts, sep)
  {
    var ps := [a + parts[0]] + parts[1..];
    if |parts| > 1 {
      assert ps[1..] == parts[1..];
    }
  }

  /** Splitting a string made of a separator-free prefix, the separator and a
      tail yields the prefix followed by the pieces of the tail. */
  lemma {:induction false} SplitAfterPiece(a: string, t: string, sep: char)
    requires sep !in a
    ensures Split(a + [sep] + t, sep) == [a] + Split(t, sep)
  {
    if |a| == 0 {
      assert a + [sep] + t == [sep] + t;
      assert ([sep] + t)[1..] == t;
    } else {
      assert (a + [sep] + t)[1..] == a[1..] + [sep] + t;
      SplitAfterPiece(a[1..], t, sep);
      assert [a[0]] + a[1..] == a;
    }
  }

  /** A separator-free string splits into itself. */
  lemma {:induction false} SplitNoSep(a: string, sep: char)
    requires sep !in a
    ensures Split(a, sep) == [a]
  {
    if |a| > 0 {
      SplitNoSep(a[1..], sep);
      assert [a[0]] + a[1..] == a;
    }
  }

  /** The other half of the `split`/`join` round trip: joining separator-free
      pieces and splitting again gives the pieces back. */
  lemma {:induction false} SplitJoin(parts: seq<string>, sep: char)
    requires |parts| >= 1
    requires forall i :: 0 <= i < |parts| ==> sep !in parts[i]
    ensures Split(Join(parts, [sep]), sep) == parts
  {
    if |parts| == 1 {
      SplitNoSep(parts[0], sep);
    } else {
      SplitJoin(parts[1..], sep);
      SplitAfterPiece(parts[0], Join(parts[1..], [sep]), sep);
      assert [parts[0]] + parts[1..] == parts;
    }
  }

  /** Joining ends with the last piece, preceded by the separator. */
  lemma {:induction false} JoinSnoc(parts: seq<string>, sep: string)
    requires |parts| >= 2
    ensures Join(parts, sep) == Join(parts[..|parts| - 1], sep) + sep + parts[|parts| - 1]
  {
    if |parts| > 2 {
      JoinSnoc(parts[1..], sep);
      assert parts[1..][..|parts| - 2] == parts[..|parts| - 1][1..];
    }
  }

  /** A join of non-empty pieces starts with the first piece's first
      character and ends with the last piece's last character. */
  lemma {:induction false} JoinEnds(parts: seq<string>, sep: string)
    requires |parts| >= 1 && forall i :: 0 <= i < |parts| ==> |parts[i]| > 0
    ensures |Join(parts, sep)| > 0
    ensures Join(parts, sep)[0] == parts[0][0]
    ensures Join(parts, sep)[|Join(parts, sep)| - 1] == parts[|parts| - 1][|parts[|parts| - 1]| - 1]
  {
    if |parts| > 1 {
      JoinEnds(parts[1..], sep);
    }
  }

  /** A joined string only has characters of the pieces and the separator:
      a property every one of those has holds of all its characters. */
  lemma {:induction false} JoinChars(parts: seq<string>, sep: string, q: char -> bool)
    requires forall i, k :: 0 <= i < |parts| && 0 <= k < |parts[i]| ==> q(parts[i][k])
    requires forall k :: 0 <= k < |sep| ==> q(sep[k])
    ensures forall k :: 0 <= k < |Join(parts, sep)| ==> q(Join(parts, sep)[k])
  {
    if |parts| > 1 {
      JoinChars(parts[1..], sep, q);
      var j := Join(parts, sep);
      var a, b := parts[0], Join(parts[1..], sep);
      assert j == a + sep + b;
      forall k | 0 <= k < |j| ensures q(j[k]) {
        if k < |a| {
          assert j[k] == a[k];
        } else if k < |a| + |sep| {
          assert j[k] == sep[k - |a|];
        } else {
          assert j[k] == b[k - |a| - |sep|];
        }
      }
    } else if |parts| == 1 {
      assert Join(parts, sep) == parts[0];
    }
  }

  /** Concatenating strings without class runs keeps them apart unless the
      seam joins two class characters. */
  lemma NoAdjacentConcat(a: string, b: string, p: char -> bool)
    requires NoAdjacent(a, p) && NoAdjacent(b, p)
    requires |a| > 0 && |b| > 0 ==> !(p(a[|a| - 1]) && p(b[0]))
    ensures NoAdjacent(a + b, p)
  {
    var r := a + b;
    forall i, j | 0 <= i < |r| && 0 <= j < |r| && j == i + 1
      ensures !(p(r[i]) && p(r[j]))
    {
      if j < |a| {
        assert r[i] == a[i] && r[j] == a[j];
      } else if i >= |a| {
        assert r[i] == b[i - |a|] && r[j] == b[j - |a|];
      } else {
        assert r[i] == a[|a| - 1] && r[j] == b[0];
      }
    }
  }

  /** Joining non-empty pieces free of class characters with a one-character
      separator leaves no two class characters side by side. */
  lemma {:induction false} JoinNoAdjacent(parts: seq<string>, sep: char, p: char -> bool)
    requires forall i :: 0 <= i < |parts| ==> |parts[i]| > 0
    requires forall i, k :: 0 <= i < |parts| && 0 <= k < |parts[i]| ==> !p(parts[i][k])
    ensures NoAdjacent(Join(parts, [sep]), p)
  {
    if |parts| == 1 {
      assert Join(parts, [sep]) == parts[0];
      assert NoAdjacent(parts[0], p);
    } else if |parts| > 1 {
      var a, b := parts[0], Join(parts[1..], [sep]);
      JoinNoAdjacent(parts[1..], sep, p);
      JoinEnds(parts[1..], [sep]);
      assert !p(b[0]) by {
        assert b[0] == parts[1][0];
      }
      assert NoAdjacent([sep], p);
      NoAdjacentConcat([sep], b, p);
      assert NoAdjacent(a, p);
      assert !p(a[|a| - 1]);
      NoAdjacentConcat(a, [sep] + b, p);
      assert Join(parts, [sep]) == a + ([sep] + b);
    }
  }

  /** Total number of characters of the pieces. */
  function SumLens(parts: seq<string>): nat
  {
    if |parts| == 0 then 0 else |parts[0]| + SumLens(parts[1..])
  }

  /** The length of a joined string: all pieces plus one separator between
      each adjacent pair. */
  lemma {:induction false} JoinLength(parts: seq<string>, sep: string)
    requires |parts| >= 1
    ensures |Join(parts, sep)| == SumLens(parts) + |sep| * (|parts| - 1)
  {
    if |parts| > 1 {
      JoinLength(parts[1..], sep);
    }
  }

  /** `re.sub(P + "+", rep, s)` where the character class `P` is given as `p`:
      every maximal run of `p`-characters becomes the single character `rep`.
      First and last characters outside the class are kept. */
  function Squeeze(s: string, p: char -> bool, rep: char): (r: string)
    ensures |r| <= |s|
    ensures |s| > 0 ==> |r| > 0
    ensures |s| > 0 && !p(s[0]) ==> r[0] == s[0]
    ensures |s| > 0 && !p(s[|s| - 1]) ==> r[|r| - 1] == s[|s| - 1]
    decreases |s|
  {
    if |s| == 0 then ""
    else if p(s[0]) then
      var t := TrimStart(s[1..], p);
      assert !p(s[|s| - 1]) ==> |t| > 0 && t[|t| - 1] == s[|s| - 1];
      [rep] + Squeeze(t, p, rep)
    else
      [s[0]] + Squeeze(s[1..], p, rep)
  }

  /** Every class character of `r` is `rep`; every other one occurs in `s`. */
  predicate CharsFrom(r: string, s: string, p: char -> bool, rep: char) {
    forall i :: 0 <= i < |r| ==> (p(r[i]) && r[i] == rep) || (!p(r[i]) && r[i] in s)
  }

  /** No two class characters are adjacent in `r`. */
  predicate NoAdjacent(r: string, p: char -> bool) {
    forall i, j :: 0 <= i < |r| && 0 <= j < |r| && j == i + 1 ==> !(p(r[i]) && p(r[j]))
  }

  /** After squeezing, a class character is always `rep` and every other
      character comes from the input. */
  lemma {:induction false} SqueezeChars(s: string, p: char -> bool, rep: char)
    requires p(rep)
    ensures CharsFrom(Squeeze(s, p, rep), s, p, rep)
    decreases |s|
  {
    if |s| > 0 {
      var t := if p(s[0]) then TrimStart(s[1..], p) else s[1..];
      SqueezeUnfold(s, p, rep);
      SqueezeChars(t, p, rep);
      SuffixChars(s[1..], t);
      SuffixChars(s, s[1..]);
      CharsFromCons(if p(s[0]) then rep else s[0], Squeeze(t, p, rep), t, s[1..], s, p, rep);
    }
  }

  /** One step of `Squeeze`: the first character or `rep`, then the rest. */
  lemma SqueezeUnfold(s: string, p: char -> bool, rep: char)
    requires |s| > 0
    ensures Squeeze(s, p, rep)
      == [if p(s[0]) then rep else s[0]] + Squeeze(if p(s[0]) then TrimStart(s[1..], p) else s[1..], p, rep)
  {
  }

  /** A non-empty run of class characters squeezes to the single `rep`. */
  lemma SqueezeRun(run: string, p: char -> bool, rep: char)
    requires |run| > 0 && forall i :: 0 <= i < |run| ==> p(run[i])
    ensures Squeeze(run, p, rep) == [rep]
  {
    assert |TrimStart(run[1..], p)| == 0;
    SqueezeUnfold(run, p, rep);
  }

  /** A character outside the class is kept where it stands and separates
      the squeezing of what comes before it from what comes after. With
      `SqueezeRun` and the empty case this fixes `Squeeze` on every input. */
  lemma {:induction false} SqueezeSplit(x: string, c: char, y: string, p: char -> bool, rep: char)
    requires !p(c)
    ensures Squeeze(x + [c] + y, p, rep) == Squeeze(x, p, rep) + [c] + Squeeze(y, p, rep)
    decreases |x|
  {
    var s := x + [c] + y;
    if |x| == 0 {
      assert s == [c] + y;
      SqueezeUnfold(s, p, rep);
      assert s[1..] == y;
    } else {
      var x' := if p(x[0]) then TrimStart(x[1..], p) else x[1..];
      var head := if p(x[0]) then rep else x[0];
      SqueezeHead(x, c, y, p, rep, x');
      SqueezeSplit(x', c, y, p, rep);
      SqueezeUnfold(x, p, rep);
      ConcatAssoc(head, Squeeze(x', p, rep), c, Squeeze(y, p, rep));
    }
  }

  /** The first step of squeezing `x + [c] + y` is the first step of
      squeezing `x`, when `c` is outside the class. */
  lemma SqueezeHead(x: string, c: char, y: string, p: char -> bool, rep: char, x': string)
    requires |x| > 0 && !p(c)
    requires x' == if p(x[0]) then TrimStart(x[1..], p) else x[1..]
    ensures Squeeze(x + [c] + y, p, rep) == [if p(x[0]) then rep else x[0]] + Squeeze(x' + [c] + y, p, rep)
  {
    var s := x + [c] + y;
    SqueezeUnfold(s, p, rep);
    TailAfterHead(x, c, y, p, x');
  }

  /** What squeezing continues with after the first character of
      `x + [c] + y`: the same as for `x`, followed by `[c] + y`. */
  lemma TailAfterHead(x: string, c: char, y: string, p: char -> bool, x': string)
    requires |x| > 0 && !p(c)
    requires x' == if p(x[0]) then TrimStart(x[1..], p) else x[1..]
    ensures (x + [c] + y)[0] == x[0]
    ensures (if p(x[0]) then TrimStart((x + [c] + y)[1..], p) else (x + [c] + y)[1..]) == x' + [c] + y
  {
    var rest := [c] + y;
    HeadAndTail(x, c, y);
    ConcatRest(x', c, y);
    if p(x[0]) {
      TrimStartConcat(x[1..], rest, p);
    }
  }

  /** The first character and the tail of `x + [c] + y` when `x` is not empty. */
  lemma HeadAndTail(x: string, c: char, y: string)
    requires |x| > 0
    ensures (x + [c] + y)[0] == x[0] && (x + [c] + y)[1..] == x[1..] + ([c] + y)
  {
  }

  /** Regrouping a concatenation around one character. */
  lemma ConcatRest(x: string, c: char, y: string)
    ensures x + ([c] + y) == x + [c] + y
  {
  }

  /** Regrouping a concatenation. */
  lemma ConcatAssoc(h: char, a: string, c: char, b: string)
    ensures [h] + (a + [c] + b) == ([h] + a) + [c] + b
  {
  }

  /** Trimming stops at a character outside the class. */
  lemma {:induction false} TrimStartConcat(a: string, b: string, p: char -> bool)
    requires |b| > 0 && !p(b[0])
    ensures TrimStart(a + b, p) == TrimStart(a, p) + b
    decreases |a|
  {
    if |a| == 0 {
      assert a + b == b;
    } else {
      assert (a + b)[0] == a[0] && (a + b)[1..] == a[1..] + b;
      if p(a[0]) {
        TrimStartConcat(a[1..], b, p);
      }
    }
  }

  /** The characters of a suffix occur in the whole. */
  lemma SuffixChars(u: string, t: string)
    requires |t| <= |u| && t == u[|u| - |t|..]
    ensures forall c | c in t :: c in u
  {
    forall c | c in t
      ensures c in u
    {
      var j :| 0 <= j < |t| && t[j] == c;
      assert u[|u| - |t| + j] == c;
    }
  }

  /** Prepending a character that is `rep` or comes from `s` keeps
      `CharsFrom`, when the tail's characters come from a part `t` of `s`
      (by way of `mid`). */
  lemma CharsFromCons(head: char, rest: string, t: string, mid: string, s: string, p: char -> bool, rep: char)
    requires (p(head) && head == rep) || (!p(head) && head in s)
    requires CharsFrom(rest, t, p, rep)
    requires forall c | c in t :: c in mid
    requires forall c | c in mid :: c in s
    ensures CharsFrom([head] + rest, s, p, rep)
  {
    var r := [head] + rest;
    forall i | 0 <= i < |r|
      ensures (p(r[i]) && r[i] == rep) || (!p(r[i]) && r[i] in s)
    {
      if i > 0 {
        assert r[i] == rest[i - 1];
      }
    }
  }

  /** After squeezing, no two class characters are adjacent. */
  lemma {:induction false} SqueezeNoAdjacent(s: string, p: char -> bool, rep: char)
    ensures NoAdjacent(Squeeze(s, p, rep), p)
    decreases |s|
  {
    if |s| > 0 {
      var t := if p(s[0]) then TrimStart(s[1..], p) else s[1..];
      var head := if p(s[0]) then rep else s[0];
      SqueezeUnfold(s, p, rep);
      SqueezeNoAdjacent(t, p, rep);
      assert p(s[0]) && |t| > 0 ==> !p(t[0]) && Squeeze(t, p, rep)[0] == t[0];
      NoAdjacentConcat([head], Squeeze(t, p, rep), p);
    }
  }

  /** Dropping the first character keeps `NoAdjacent`. */
  lemma NoAdjacentTail(s: string, p: char -> bool)
    requires |s| > 0 && NoAdjacent(s, p)
    ensures NoAdjacent(s[1..], p)
  {
    forall i, j | 0 <= i < |s| - 1 && 0 <= j < |s| - 1 && j == i + 1
      ensures !(p(s[1..][i]) && p(s[1..][j]))
    {
      assert s[1..][i] == s[i + 1] && s[1..][j] == s[j + 1];
    }
  }

  /** Squeezing a string whose runs are already single `rep` characters
      changes nothing. */
  lemma {:induction false} SqueezeUnchanged(s: string, p: char -> bool, rep: char)
    requires forall i :: 0 <= i < |s| && p(s[i]) ==> s[i] == rep
    requires NoAdjacent(s, p)
    ensures Squeeze(s, p, rep) == s
    decreases |s|
  {
    if |s| > 0 {
      var u := s[1..];
      SqueezeUnfold(s, p, rep);
      NoAdjacentTail(s, p);
      assert forall i :: 0 <= i < |u| ==> u[i] == s[i + 1];
      SqueezeUnchanged(u, p, rep);
      if p(s[0]) {
        assert |u| > 0 ==> !p(u[0]);
        assert TrimStart(u, p) == u;
      }
      assert [s[0]] + u == s;
    }
  }

  predicate IsDigit(c: char) { '0' <= c <= '9' }

  /** Python's `str(n)` / `f"{n}"` for a non-negative integer: decimal digits,
      no leading zero. */
  function Decimal(n: nat): (r: string)
    ensures |r| >= 1
    ensures forall i :: 0 <= i < |r| ==> IsDigit(r[i])
    decreases n
  {
    if n < 10 then [(48 + n) as char]
    else Decimal(n / 10) + [(48 + n % 10) as char]
  }

  /** The value of a string of decimal digits. */
  function ParseDecimal(s: string): nat
    requires forall i :: 0 <= i < |s| ==> IsDigit(s[i])
  {
    if |s| == 0 then 0
    else
      assert IsDigit(s[|s| - 1]);
      10 * ParseDecimal(s[..|s| - 1]) + (s[|s| - 1] as int - 48)
  }

  /** Reading back a formatted number gives the number. */
  lemma {:induction false} DecimalRoundTrip(n: nat)
    ensures ParseDecimal(Decimal(n)) == n
    decreases n
  {
    var d := Decimal(n);
    if n >= 10 {
      DecimalRoundTrip(n / 10);
      assert d[..|d| - 1] == Decimal(n / 10);
    }
  }

  /** Different numbers have different decimal forms. */
  lemma DecimalInjective(m: nat, n: nat)
    requires Decimal(m) == Decimal(n)
    ensures m == n
  {
    DecimalRoundTrip(m);
    DecimalRoundTrip(n);
  }
}
