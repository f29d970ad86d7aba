/**
  The editor's live word counter: `content.split(/\s+/).filter(Boolean).length`.

  `Split` is the regular-expression split, `NonEmpty` the `filter(Boolean)`, and
  `WordCount` the length of what remains. The lemmas relate the count to an
  independent definition (the number of maximal runs of non-whitespace
  characters) and state how it behaves under concatenation and whitespace.
 */
module Words {

  /** The JavaScript `\s` class: ECMAScript WhiteSpace and LineTerminator code points. */
  predicate IsSpace(c: char) {
    || c == '\t' || c == '\n' || c == '\U{000B}' || c == '\U{000C}' || c == '\r'
    || c == ' ' || c == '\U{00A0}' || c == '\U{1680}'
    || ('\U{2000}' <= c <= '\U{200A}')
    || c == '\U{2028}' || c == '\U{2029}' || c == '\U{202F}' || c == '\U{205F}'
    || c == '\U{3000}' || c == '\U{FEFF}'
  }

  predicate AllSpace(s: string) {
    forall i :: 0 <= i < |s| ==> IsSpace(s[i])
  }

  predicate NoSpace(s: string) {
    forall i :: 0 <= i < |s| ==> !IsSpace(s[i])
  }

  /** What a split on maximal whitespace runs can produce: at least one piece,
      no piece holds whitespace, and only the first and the last may be empty. */
  predicate Splittable(pieces: seq<string>) {
    && |pieces| >= 1
    && (forall k :: 0 <= k < |pieces| ==> NoSpace(pieces[k]))
    && (forall k :: 0 < k < |pieces| - 1 ==> pieces[k] != [])
  }

  /** Drops the whitespace run at the front of `s`. */
  function DropSpaces(s: string): (rest: string)
    ensures |rest| <= |s| && rest == s[|s| - |rest|..]
    ensures AllSpace(s[..|s| - |rest|])
    ensures rest == [] || !IsSpace(rest[0])
  {
    if s != [] && IsSpace(s[0]) then
      var rest := DropSpaces(s[1..]);
      var prefix := s[..|s| - |rest|];
      assert prefix[0] == s[0] && prefix[1..] == s[1..][..|s| - 1 - |rest|];
      AllSpaceCons(prefix);
      rest
    else
      s
  }

  /** `s.split(/\s+/)`: the pieces between maximal whitespace runs. A run at the
      very start (end) yields an empty first (last) piece; "" yields [""]. */
  function Split(s: string): (pieces: seq<string>)
    ensures Splittable(pieces)
    ensures pieces[0] == [] <==> s == [] || IsSpace(s[0])
    decreases |s|
  {
    if s == [] then [""]
    else if IsSpace(s[0]) then [""] + Split(DropSpaces(s[1..]))
    else
      var rest := Split(s[1..]);
      [[s[0]] + rest[0]] + rest[1..]
  }

  /** `filter(Boolean)` on strings: the non-empty pieces, in order. */
  function NonEmpty(pieces: seq<string>): (kept: seq<string>)
    ensures |kept| <= |pieces|
    ensures forall k :: 0 <= k < |kept| ==> kept[k] != [] && kept[k] in pieces
  {
    if pieces == [] then []
    else if pieces[0] == [] then NonEmpty(pieces[1..])
    else [pieces[0]] + NonEmpty(pieces[1..])
  }

  /** `filter(Boolean)` keeps every non-empty piece as often as it occurs and
      drops every empty one. */
  lemma {:induction false} NonEmptyMultiset(pieces: seq<string>)
    ensures multiset(NonEmpty(pieces)) == multiset(pieces)["" := 0]
  {
    if pieces != [] {
      var head, tail := pieces[0], pieces[1..];
      NonEmptyMultiset(tail);
      assert pieces == [head] + tail;
      var before := multiset(tail)["" := 0];
      if head == [] {
        assert NonEmpty(pieces) == NonEmpty(tail);
        assert multiset(pieces)["" := 0] == before;
      } else {
        assert NonEmpty(pieces) == [head] + NonEmpty(tail);
        assert multiset(pieces)["" := 0] == multiset{head} + before;
      }
    }
  }

  /** Every non-empty piece survives `filter(Boolean)`. */
  lemma NonEmptyKeepsWords(pieces: seq<string>)
    ensures forall k :: 0 <= k < |pieces| && pieces[k] != [] ==> pieces[k] in NonEmpty(pieces)
  {
    NonEmptyMultiset(pieces);
    forall k | 0 <= k < |pieces| && pieces[k] != [] ensures pieces[k] in NonEmpty(pieces) {
      assert multiset(pieces)[pieces[k]] > 0;
      assert multiset(NonEmpty(pieces))[pieces[k]] > 0;
    }
  }

  /** `filter(Boolean)` keeps the order: filtering a concatenation is the
      concatenation of the filtered parts. */
  lemma {:induction false} NonEmptyAppend(a: seq<string>, b: seq<string>)
    ensures NonEmpty(a + b) == NonEmpty(a) + NonEmpty(b)
  {
    if a != [] {
      assert (a + b)[0] == a[0] && (a + b)[1..] == a[1..] + b;
      NonEmptyAppend(a[1..], b);
    } else {
      assert a + b == b;
    }
  }

  /** `wc` at ChapterGenerator.jsx line 59. */
  function WordCount(s: string): nat {
    |NonEmpty(Split(s))|
  }

  /** Joins pieces with one space each: the inverse of `Split` on splittable pieces. */
  function Join(pieces: seq<string>): string
    requires |pieces| >= 1
  {
    if |pieces| == 1 then pieces[0] else pieces[0] + (" " + Join(pieces[1..]))
  }

  /** `s` with every maximal whitespace run replaced by a single space. */
  function Squeeze(s: string): string
    decreases |s|
  {
    if s == [] then []
    else if IsSpace(s[0]) then " " + Squeeze(DropSpaces(s[1..]))
    else [s[0]] + Squeeze(s[1..])
  }

  // ---------------------------------------------------------------------------
  // Reference definition: maximal runs of non-whitespace characters.

  /** Position `i` is the last character of a maximal non-whitespace run. */
  predicate IsRunEnd(s: string, i: nat)
    requires i < |s|
  {
    !IsSpace(s[i]) && (i + 1 == |s| || IsSpace(s[i + 1]))
  }

  /** `s[i..j]` is a maximal run of non-whitespace characters. */
  predicate IsMaximalRun(s: string, i: nat, j: nat) {
    && i < j <= |s|
    && (forall k :: i <= k < j ==> !IsSpace(s[k]))
    && (i == 0 || IsSpace(s[i - 1]))
    && (j == |s| || IsSpace(s[j]))
  }

  /** The number of run ends at positions `i`, `i + 1`, ... of `s`. */
  function RunEndsFrom(s: string, i: nat): nat
    requires i <= |s|
    decreases |s| - i
  {
    if i == |s| then 0 else (if IsRunEnd(s, i) then 1 else 0) + RunEndsFrom(s, i + 1)
  }

  /** The number of maximal non-whitespace runs of `s` (each has one last character). */
  function RunCount(s: string): nat {
    RunEndsFrom(s, 0)
  }

  /** The first position of the run that holds non-whitespace position `k`. */
  function RunStartOf(s: string, k: nat): (i: nat)
    requires k < |s| && !IsSpace(s[k])
    ensures i <= k && forall m :: i <= m <= k ==> !IsSpace(s[m])
    ensures i == 0 || IsSpace(s[i - 1])
  {
    if k == 0 || IsSpace(s[k - 1]) then k else RunStartOf(s, k - 1)
  }

  lemma MaximalRunEndsAtRunEnd(s: string, i: nat, j: nat)
    requires IsMaximalRun(s, i, j)
    ensures IsRunEnd(s, j - 1)
  {
  }

  lemma RunEndClosesMaximalRun(s: string, k: nat)
    requires k < |s| && IsRunEnd(s, k)
    ensures IsMaximalRun(s, RunStartOf(s, k), k + 1)
  {
  }

  /** Two maximal runs that end at the same place start at the same place. */
  lemma MaximalRunUnique(s: string, i1: nat, i2: nat, j: nat)
    requires IsMaximalRun(s, i1, j) && IsMaximalRun(s, i2, j)
    ensures i1 == i2
  {
  }

  // ---------------------------------------------------------------------------
  // The count, one character at a time.

  lemma {:induction false} RunEndsShift(s: string, i: nat)
    requires 1 <= |s| && i < |s|
    ensures RunEndsFrom(s, i + 1) == RunEndsFrom(s[1..], i)
    decreases |s| - i
  {
    if i + 1 < |s| {
      assert IsRunEnd(s, i + 1) == IsRunEnd(s[1..], i);
      RunEndsShift(s, i + 1);
    }
  }

  /** The first character adds one word exactly when it ends a run. */
  lemma WordCountCons(c: char, rest: string)
    ensures WordCount([c] + rest) ==
            WordCount(rest) + (if !IsSpace(c) && (rest == [] || IsSpace(rest[0])) then 1 else 0)
  {
    var s := [c] + rest;
    assert s[0] == c && s[1..] == rest;
    if IsSpace(c) {
      assert Split(s) == [""] + Split(DropSpaces(rest));
      assert NonEmpty(Split(s)) == NonEmpty(Split(DropSpaces(rest)));
      if rest != [] && IsSpace(rest[0]) {
        assert Split(rest) == [""] + Split(DropSpaces(rest[1..]));
        assert NonEmpty(Split(rest)) == NonEmpty(Split(DropSpaces(rest[1..])));
      }
    } else {
      var r := Split(rest);
      assert Split(s) == [[c] + r[0]] + r[1..];
      assert NonEmpty(Split(s)) == [[c] + r[0]] + NonEmpty(r[1..]);
      assert r == [r[0]] + r[1..];
    }
  }

  /** The first position contributes one run end exactly when it ends a run. */
  lemma RunCountCons(s: string)
    requires s != []
    ensures RunCount(s) ==
            RunCount(s[1..]) + (if !IsSpace(s[0]) && (s[1..] == [] || IsSpace(s[1..][0])) then 1 else 0)
  {
    RunEndsShift(s, 0);
    assert RunCount(s) == (if IsRunEnd(s, 0) then 1 else 0) + RunEndsFrom(s, 1);
  }

  /** The word count is the number of maximal runs of non-whitespace characters. */
  lemma {:induction false} WordCountIsRunCount(s: string)
    ensures WordCount(s) == RunCount(s)
  {
    if s != [] {
      assert s == [s[0]] + s[1..];
      WordCountCons(s[0], s[1..]);
      RunCountCons(s);
      WordCountIsRunCount(s[1..]);
    }
  }

  lemma AllSpaceCons(s: string)
    requires s != []
    ensures AllSpace(s) <==> IsSpace(s[0]) && AllSpace(s[1..])
  {
    if IsSpace(s[0]) && AllSpace(s[1..]) {
      forall i | 0 < i < |s| ensures IsSpace(s[i]) {
        assert s[i] == s[1..][i - 1];
      }
    }
  }

  /** Empty and whitespace-only text counts 0, and nothing else does. */
  lemma {:induction false} WordCountZeroIff(s: string)
    ensures WordCount(s) == 0 <==> AllSpace(s)
  {
    if s != [] {
      WordCountIsRunCount(s);
      WordCountIsRunCount(s[1..]);
      RunCountCons(s);
      AllSpaceCons(s);
      WordCountZeroIff(s[1..]);
    }
  }

  /** Leading whitespace does not change the count. */
  lemma {:induction false} LeadingSpaceIgnored(w: string, s: string)
    requires AllSpace(w)
    ensures WordCount(w + s) == WordCount(s)
  {
    if w != [] {
      assert IsSpace(w[0]);
      assert w + s == [w[0]] + (w[1..] + s);
      WordCountCons(w[0], w[1..] + s);
      LeadingSpaceIgnored(w[1..], s);
    } else {
      assert w + s == s;
    }
  }

  /** Trailing whitespace does not change the count. */
  lemma {:induction false} TrailingSpaceIgnored(s: string, w: string)
    requires AllSpace(w)
    ensures WordCount(s + w) == WordCount(s)
  {
    if s == [] {
      assert s + w == w;
      WordCountZeroIff(w);
      WordCountZeroIff(s);
    } else {
      assert s + w == [s[0]] + (s[1..] + w);
      assert s == [s[0]] + s[1..];
      WordCountCons(s[0], s[1..] + w);
      WordCountCons(s[0], s[1..]);
      TrailingSpaceIgnored(s[1..], w);
    }
  }

  /** There is one piece exactly when the text has no whitespace. */
  lemma {:induction false} SplitSingle(s: string)
    ensures |Split(s)| == 1 <==> NoSpace(s)
    decreases |s|
  {
    if s != [] && !IsSpace(s[0]) {
      var tail := s[1..];
      SplitSingle(tail);
      assert |Split(s)| == |Split(tail)|;
      if NoSpace(tail) {
        forall i | 0 < i < |s| ensures !IsSpace(s[i]) {
          assert s[i] == tail[i - 1];
        }
      }
    }
  }

  /** The last piece is empty exactly when the text is empty or ends with whitespace. */
  lemma {:induction false} SplitLast(s: string)
    ensures LastEmpty(Split(s)) <==> EndsBlank(s)
    decreases |s|
  {
    if s != [] {
      SplitLast(s[1..]);
      if IsSpace(s[0]) && |s| >= 2 && IsSpace(s[1]) {
        SplitLastSpaceSpace(s);
      } else if IsSpace(s[0]) {
        SplitSpaceWord(s);
        SplitLastSpaceWord(s, Split(s[1..]), Split(s));
      } else {
        SplitSingle(s[1..]);
        SplitLastAfterWord(s, Split(s[1..]), Split(s));
      }
    }
  }

  predicate LastEmpty(pieces: seq<string>)
    requires |pieces| >= 1
  {
    pieces[|pieces| - 1] == []
  }

  predicate EndsBlank(s: string) {
    s == [] || IsSpace(s[|s| - 1])
  }

  lemma SplitLastSpaceSpace(s: string)
    requires |s| >= 2 && IsSpace(s[0]) && IsSpace(s[1])
    requires LastEmpty(Split(s[1..])) <==> EndsBlank(s[1..])
    ensures LastEmpty(Split(s)) <==> EndsBlank(s)
  {
    SplitSpaceSpace(s);
    assert s[|s| - 1] == s[1..][|s| - 2];
  }

  lemma SplitLastSpaceWord(s: string, pieces: seq<string>, whole: seq<string>)
    requires s != [] && IsSpace(s[0]) && |pieces| >= 1 && whole == [""] + pieces
    requires LastEmpty(pieces) <==> EndsBlank(s[1..])
    ensures LastEmpty(whole) <==> EndsBlank(s)
  {
    assert whole[|whole| - 1] == pieces[|pieces| - 1];
    if |s| > 1 {
      assert s[|s| - 1] == s[1..][|s| - 2];
    }
  }


  lemma SplitLastAfterWord(s: string, pieces: seq<string>, whole: seq<string>)
    requires s != [] && !IsSpace(s[0]) && |pieces| >= 1
    requires whole == [[s[0]] + pieces[0]] + pieces[1..]
    requires LastEmpty(pieces) <==> EndsBlank(s[1..])
    requires |pieces| == 1 <==> NoSpace(s[1..])
    ensures LastEmpty(whole) <==> EndsBlank(s)
  {
    var tail := s[1..];
    if |pieces| == 1 {
      assert whole[0] == [s[0]] + pieces[0];
      if tail != [] {
        assert !IsSpace(tail[|tail| - 1]);
        assert s[|s| - 1] == tail[|tail| - 1];
      }
    } else {
      assert whole[|whole| - 1] == pieces[|pieces| - 1];
      assert tail != [];
      assert s[|s| - 1] == tail[|tail| - 1];
    }
  }

  /** Text joined by a non-empty whitespace run counts the words of both sides. */
  lemma {:induction false} JoinedBySpace(a: string, w: string, b: string)
    requires w != [] && AllSpace(w)
    ensures WordCount(a + w + b) == WordCount(a) + WordCount(b)
  {
    if a == [] {
      assert a + w + b == w + b;
      LeadingSpaceIgnored(w, b);
      WordCountZeroIff(a);
    } else {
      assert a + w + b == [a[0]] + (a[1..] + w + b);
      assert a == [a[0]] + a[1..];
      WordCountCons(a[0], a[1..] + w + b);
      WordCountCons(a[0], a[1..]);
      JoinedBySpace(a[1..], w, b);
    }
  }

  /** `wc(a + " " + b) == wc(a) + wc(b)` for any `a` and `b`. */
  lemma JoinedBySingleSpace(a: string, b: string)
    ensures WordCount(a + " " + b) == WordCount(a) + WordCount(b)
  {
    JoinedBySpace(a, " ", b);
  }

  /** The length of a whitespace run between two texts does not matter. */
  lemma SpaceRunLengthIgnored(a: string, w1: string, w2: string, b: string)
    requires w1 != [] && AllSpace(w1) && w2 != [] && AllSpace(w2)
    ensures WordCount(a + w1 + b) == WordCount(a + w2 + b)
  {
    JoinedBySpace(a, w1, b);
    JoinedBySpace(a, w2, b);
  }

  // ---------------------------------------------------------------------------
  // Split and Join are inverse on splittable pieces.

  lemma {:induction false} SplitAfterWord(w: string, t: string)
    requires NoSpace(w)
    ensures Split(w + t) == [w + Split(t)[0]] + Split(t)[1..]
  {
    if w == [] {
      assert w + t == t && w + Split(t)[0] == Split(t)[0];
      assert Split(t) == [Split(t)[0]] + Split(t)[1..];
    } else {
      assert (w + t)[0] == w[0] && (w + t)[1..] == w[1..] + t;
      SplitAfterWord(w[1..], t);
      assert [w[0]] + (w[1..] + Split(t)[0]) == w + Split(t)[0];
    }
  }

  /** After a space, a text that does not start with whitespace is split as it is. */
  lemma SplitAfterSpace(j: string)
    requires j == [] || !IsSpace(j[0])
    ensures Split(" " + j) == [""] + Split(j)
  {
    assert (" " + j)[0] == ' ' && (" " + j)[1..] == j;
    assert DropSpaces(j) == j;
  }

  /** A join whose first piece is a word, or which has one piece, does not start with whitespace. */
  lemma JoinStart(pieces: seq<string>)
    requires |pieces| >= 1 && NoSpace(pieces[0]) && (|pieces| == 1 || pieces[0] != [])
    ensures Join(pieces) == [] || !IsSpace(Join(pieces)[0])
  {
    if |pieces| > 1 {
      var first := pieces[0];
      var joined := Join(pieces);
      assert joined == first + (" " + Join(pieces[1..]));
      assert joined[0] == first[0];
      assert !IsSpace(first[0]);
    }
  }

  lemma SplittableTail(pieces: seq<string>)
    requires Splittable(pieces) && |pieces| >= 2
    ensures Splittable(pieces[1..])
  {
    var tail := pieces[1..];
    forall k | 0 < k < |tail| - 1 ensures tail[k] != [] {
      assert tail[k] == pieces[k + 1];
    }
  }

  /** Splitting a join gives back the pieces. */
  lemma {:induction false} SplitJoin(pieces: seq<string>)
    requires Splittable(pieces)
    ensures Split(Join(pieces)) == pieces
  {
    if |pieces| == 1 {
      SplitAfterWord(pieces[0], "");
      assert pieces[0] + "" == pieces[0];
    } else {
      SplittableTail(pieces);
      SplitJoin(pieces[1..]);
      SplitJoinStep(pieces);
    }
  }

  /** One step of `SplitJoin`: a first word in front of a join that splits back. */
  lemma SplitJoinStep(pieces: seq<string>)
    requires Splittable(pieces) && |pieces| >= 2
    requires Split(Join(pieces[1..])) == pieces[1..]
    ensures Split(Join(pieces)) == pieces
  {
    var tail := pieces[1..];
    assert NoSpace(tail[0]);
    assert |tail| > 1 ==> tail[0] != [] by {
      if |tail| > 1 { assert tail[0] == pieces[1]; }
    }
    JoinStart(tail);
    var j := Join(tail);
    SplitAfterSpace(j);
    var after := " " + j;
    assert Split(after) == [""] + tail;
    assert NoSpace(pieces[0]);
    SplitAfterWord(pieces[0], after);
    assert Join(pieces) == pieces[0] + after;
    assert Split(after)[0] == "" && Split(after)[1..] == tail;
    assert pieces[0] + "" == pieces[0];
    assert pieces == [pieces[0]] + tail;
  }


  // ---------------------------------------------------------------------------
  // What the pieces are: the split is the only splittable sequence whose
  // single-space join is the squeezed text.

  lemma JoinConsChar(c: char, pieces: seq<string>)
    requires |pieces| >= 1
    ensures Join([[c] + pieces[0]] + pieces[1..]) == [c] + Join(pieces)
  {
    var longer := [[c] + pieces[0]] + pieces[1..];
    if |pieces| > 1 {
      assert longer[1..] == pieces[1..];
      assert Join(longer) == ([c] + pieces[0]) + (" " + Join(pieces[1..]));
    }
  }

  /** Joining the pieces with single spaces gives the text with every
      whitespace run squeezed to one space. */
  lemma {:induction false} JoinSplit(s: string)
    ensures Join(Split(s)) == Squeeze(s)
    decreases |s|
  {
    if s != [] && IsSpace(s[0]) {
      var rest := DropSpaces(s[1..]);
      var pieces := Split(rest);
      JoinSplit(rest);
      assert Split(s) == [""] + pieces;
      assert ([""] + pieces)[1..] == pieces;
      assert Join(Split(s)) == "" + (" " + Join(pieces));
    } else if s != [] {
      JoinSplit(s[1..]);
      JoinConsChar(s[0], Split(s[1..]));
    }
  }

  /** Any pieces of the shape a split produces, whose single-space join is the
      squeezed text, are exactly the split: `Split` is determined by its
      contract and `JoinSplit`. */
  lemma SplitUnique(s: string, pieces: seq<string>)
    requires Splittable(pieces) && Join(pieces) == Squeeze(s)
    ensures pieces == Split(s)
  {
    SplitJoin(pieces);
    JoinSplit(s);
    SplitJoin(Split(s));
  }

  // ---------------------------------------------------------------------------
  // The non-empty pieces are exactly the maximal non-whitespace runs.

  /** The first piece is the text up to its first whitespace character. */
  lemma {:induction false} SplitFirstPiece(s: string)
    ensures var first := Split(s)[0];
      |first| <= |s| && first == s[..|first|] && (|first| == |s| || IsSpace(s[|first|]))
    decreases |s|
  {
    if s != [] && !IsSpace(s[0]) {
      SplitFirstPiece(s[1..]);
      SplitWordFirst(s);
      FirstPieceStep(s, Split(s[1..])[0], Split(s)[0]);
    }
  }

  lemma SplitWordFirst(s: string)
    requires s != [] && !IsSpace(s[0])
    ensures Split(s)[0] == [s[0]] + Split(s[1..])[0]
  {
  }

  lemma FirstPieceStep(s: string, rest: string, first: string)
    requires s != [] && first == [s[0]] + rest
    requires |rest| <= |s| - 1 && rest == s[1..][..|rest|]
    requires |rest| == |s| - 1 || IsSpace(s[1..][|rest|])
    ensures |first| <= |s| && first == s[..|first|] && (|first| == |s| || IsSpace(s[|first|]))
  {
    assert s[..1 + |rest|] == [s[0]] + s[1..][..|rest|];
    if |rest| < |s| - 1 {
      assert s[|first|] == s[1..][|rest|];
    }
  }


  /** The first piece, when it is not empty, is a maximal run. */
  lemma FirstPieceIsRun(s: string)
    requires Split(s)[0] != []
    ensures IsMaximalRun(s, 0, |Split(s)[0]|) && Split(s)[0] == s[0..|Split(s)[0]|]
  {
    SplitFirstPiece(s);
    var first := Split(s)[0];
    assert NoSpace(first);
    forall m | 0 <= m < |first| ensures !IsSpace(s[m]) {
      assert s[m] == first[m];
    }
  }

  /** The first piece of a text that starts with a maximal run is that run. */
  lemma FirstRunIsFirstPiece(s: string, j: nat)
    requires IsMaximalRun(s, 0, j)
    ensures Split(s)[0] == s[0..j]
  {
    SplitFirstPiece(s);
  }

  /** A whitespace character followed by whitespace adds nothing to the split. */
  lemma SplitSpaceSpace(s: string)
    requires |s| >= 2 && IsSpace(s[0]) && IsSpace(s[1])
    ensures Split(s) == Split(s[1..])
  {
    var t := s[1..];
    assert t != [] && IsSpace(t[0]);
    assert DropSpaces(t) == DropSpaces(t[1..]);
    assert Split(s) == [""] + Split(DropSpaces(t));
    assert Split(t) == [""] + Split(DropSpaces(t[1..]));
  }

  /** A whitespace character not followed by whitespace starts an empty piece. */
  lemma SplitSpaceWord(s: string)
    requires s != [] && IsSpace(s[0]) && (|s| == 1 || !IsSpace(s[1]))
    ensures Split(s) == [""] + Split(s[1..])
  {
    assert s[1..] == [] || s[1..][0] == s[1];
    assert DropSpaces(s[1..]) == s[1..];
  }

  /** A word character at the front joins the first piece and leaves the others. */
  lemma SplitWordAhead(s: string)
    requires s != [] && !IsSpace(s[0])
    ensures |Split(s)| == |Split(s[1..])|
    ensures forall k :: 0 < k < |Split(s)| ==> Split(s)[k] == Split(s[1..])[k]
  {
    var r := Split(s[1..]);
    assert Split(s) == [[s[0]] + r[0]] + r[1..];
  }

  /** A maximal run of `s[1..]` is one of `s`, one position further on, unless
      it starts the tail right after a word character. */
  lemma RunInTail(s: string, i': nat, j': nat, piece: string) returns (i: nat, j: nat)
    requires s != [] && IsMaximalRun(s[1..], i', j') && piece == s[1..][i'..j']
    requires i' == 0 ==> IsSpace(s[0])
    ensures IsMaximalRun(s, i, j) && piece == s[i..j] && i == i' + 1 && j == j' + 1
  {
    var t := s[1..];
    i, j := i' + 1, j' + 1;
    forall m | i <= m < j ensures !IsSpace(s[m]) {
      assert s[m] == t[m - 1];
    }
    if i' > 0 {
      assert s[i - 1] == t[i' - 1];
    }
    if j' < |t| {
      assert s[j] == t[j'];
    }
    assert t[i'..j'] == s[i..j];
  }


  /** A maximal run of `s` that does not start at 0 is one of `s[1..]`. */
  lemma RunOfTail(s: string, i: nat, j: nat)
    requires 0 < i && IsMaximalRun(s, i, j)
    ensures IsMaximalRun(s[1..], i - 1, j - 1) && s[1..][i - 1..j - 1] == s[i..j]
  {
    var t := s[1..];
    forall m | i - 1 <= m < j - 1 ensures !IsSpace(t[m]) {
      assert t[m] == s[m + 1];
    }
    if i > 1 {
      assert t[i - 2] == s[i - 1];
    }
    if j - 1 < |t| {
      assert t[j - 1] == s[j];
    }
    assert t[i - 1..j - 1] == s[i..j];
  }

  /** The position in `Split(s[1..])` of the `k`-th piece of `s`, for `k > 0`. */
  lemma TailIndex(s: string, k: nat) returns (k': nat)
    requires 0 < k < |Split(s)|
    ensures k' < |Split(s[1..])| && Split(s)[k] == Split(s[1..])[k']
    ensures k' == 0 ==> IsSpace(s[0])
  {
    if IsSpace(s[0]) && |s| >= 2 && IsSpace(s[1]) {
      SplitSpaceSpace(s);
      k' := k;
    } else if IsSpace(s[0]) {
      SplitSpaceWord(s);
      k' := k - 1;
    } else {
      SplitWordAhead(s);
      k' := k;
    }
  }

  /** Where the `k`-th piece, when it is not empty, lies in the text: a maximal
      run, which starts after whitespace unless it is the first piece. */
  lemma {:induction false} PieceRun(s: string, k: nat) returns (i: nat, j: nat)
    requires k < |Split(s)| && Split(s)[k] != []
    ensures IsMaximalRun(s, i, j) && Split(s)[k] == s[i..j] && (k > 0 ==> i > 0)
    decreases |s|
  {
    if k == 0 {
      FirstPieceIsRun(s);
      i, j := 0, |Split(s)[0]|;
    } else {
      var k' := TailIndex(s, k);
      var i', j' := PieceRun(s[1..], k');
      i, j := RunInTail(s, i', j', Split(s)[k]);
    }
  }


  /** Every non-empty piece is a maximal run of the text. */
  lemma PieceIsMaximalRun(s: string, k: nat)
    requires k < |Split(s)| && Split(s)[k] != []
    ensures exists i: nat, j: nat :: IsMaximalRun(s, i, j) && Split(s)[k] == s[i..j]
  {
    var i, j := PieceRun(s, k);
  }

  /** `TailIndex` for two pieces at once: it keeps their order. */
  lemma TailIndexPair(s: string, k1: nat, k2: nat) returns (k1': nat, k2': nat)
    requires 0 < k1 < k2 < |Split(s)|
    ensures k1' < k2' < |Split(s[1..])|
    ensures Split(s)[k1] == Split(s[1..])[k1'] && Split(s)[k2] == Split(s[1..])[k2']
    ensures k1' == 0 ==> IsSpace(s[0])
  {
    if IsSpace(s[0]) && |s| >= 2 && IsSpace(s[1]) {
      SplitSpaceSpace(s);
      k1', k2' := k1, k2;
    } else if IsSpace(s[0]) {
      SplitSpaceWord(s);
      k1', k2' := k1 - 1, k2 - 1;
    } else {
      SplitWordAhead(s);
      k1', k2' := k1, k2;
    }
  }

  /** A piece after the first one starts beyond the end of the first piece. */
  lemma FirstPieceBefore(s: string, j1: nat, i2: nat, j2: nat)
    requires IsMaximalRun(s, 0, j1) && IsMaximalRun(s, i2, j2) && i2 > 0
    ensures j1 < i2
  {
  }

  /** The non-empty pieces lie in the text in the order of the split: a later
      piece is a maximal run that starts after an earlier one ends. */
  lemma {:induction false} PiecesInOrder(s: string, k1: nat, k2: nat) returns (i1: nat, j1: nat, i2: nat, j2: nat)
    requires k1 < k2 < |Split(s)| && Split(s)[k1] != [] && Split(s)[k2] != []
    ensures IsMaximalRun(s, i1, j1) && Split(s)[k1] == s[i1..j1]
    ensures IsMaximalRun(s, i2, j2) && Split(s)[k2] == s[i2..j2]
    ensures j1 < i2 && (k1 > 0 ==> i1 > 0)
    decreases |s|
  {
    if k1 == 0 {
      FirstPieceIsRun(s);
      i1, j1 := 0, |Split(s)[0]|;
      i2, j2 := PieceRun(s, k2);
      FirstPieceBefore(s, j1, i2, j2);
    } else {
      var k1', k2' := TailIndexPair(s, k1, k2);
      var i1', j1', i2', j2' := PiecesInOrder(s[1..], k1', k2');
      i1, j1 := RunInTail(s, i1', j1', Split(s)[k1]);
      i2, j2 := RunInTail(s, i2', j2', Split(s)[k2]);
    }
  }

  /** The position in `Split(s)` of the `k'`-th piece of `Split(s[1..])`, when
      that piece does not start `s[1..]` right after a word character. */
  lemma HeadIndex(s: string, k': nat) returns (k: nat)
    requires s != [] && k' < |Split(s[1..])|
    requires k' == 0 ==> IsSpace(s[0]) && |s| >= 2 && !IsSpace(s[1])
    ensures 0 < k < |Split(s)| && Split(s)[k] == Split(s[1..])[k']
  {
    if IsSpace(s[0]) && |s| >= 2 && IsSpace(s[1]) {
      SplitSpaceSpace(s);
      k := k';
    } else if IsSpace(s[0]) {
      SplitSpaceWord(s);
      k := k' + 1;
    } else {
      SplitWordAhead(s);
      k := k';
    }
  }

  /** Which piece a maximal run is: not the first one when whitespace precedes it. */
  lemma {:induction false} RunPiece(s: string, i: nat, j: nat) returns (k: nat)
    requires IsMaximalRun(s, i, j)
    ensures k < |Split(s)| && Split(s)[k] == s[i..j] && (i > 0 ==> k > 0)
    decreases |s|
  {
    if i == 0 {
      FirstRunIsFirstPiece(s, j);
      k := 0;
    } else {
      RunOfTail(s, i, j);
      var k' := RunPiece(s[1..], i - 1, j - 1);
      assert k' == 0 ==> i == 1 && !IsSpace(s[1]);
      k := HeadIndex(s, k');
    }
  }


  /** Every maximal run of the text is a piece. */
  lemma MaximalRunIsPiece(s: string, i: nat, j: nat)
    requires IsMaximalRun(s, i, j)
    ensures s[i..j] in Split(s)
  {
    var k := RunPiece(s, i, j);
  }
}
