/** Splitting a schedule at its top-level commas (reference/diffusers/deforum_schedules.py, _entries). */
module ScheduleEntries {
  import opened Options
  import opened Texts

  function Weight(c: char): int {
    if c == '(' then 1 else if c == ')' then -1 else 0
  }

  /** Opening minus closing parentheses. */
  function Depth(s: string): int {
    if s == "" then 0 else Depth(s[..|s| - 1]) + Weight(s[|s| - 1])
  }

  /** No prefix closes more than it opened, and every comma is inside parentheses. */
  predicate Open(s: string) {
    s == "" || (
      && Open(s[..|s| - 1]) && Depth(s) >= 0
      && (s[|s| - 1] == ',' ==> Depth(s[..|s| - 1]) > 0))
  }

  predicate Piece(s: string) { Open(s) && Depth(s) == 0 }

  function Stripped(pieces: seq<string>): seq<string> {
    if pieces == [] then [] else Stripped(pieces[..|pieces| - 1]) + [Strip(pieces[|pieces| - 1])]
  }

  /** The text is these pieces, separated by commas. */
  ghost predicate Decomposes(text: string, pieces: seq<string>) {
    pieces != [] && (forall p <- pieces :: Piece(p)) && Join(pieces) == text
  }

  function Occurrences(s: string, c: char): int { multiset(s)[c] }

  /** The depth is what its name says: opening less closing parentheses. */
  lemma {:induction false} DepthCounts(s: string)
    ensures Depth(s) == Occurrences(s, '(') - Occurrences(s, ')')
  {
    if s != "" {
      var init, last := s[..|s| - 1], s[|s| - 1];
      DepthCounts(init);
      assert s == init + [last];
      assert multiset(s) == multiset(init) + multiset{last};
    }
  }

  lemma {:induction false} DepthAdds(a: string, b: string)
    ensures Depth(a + b) == Depth(a) + Depth(b)
  {
    if b == "" {
      assert a + b == a;
    } else {
      assert (a + b)[..|a + b| - 1] == a + b[..|b| - 1];
      DepthAdds(a, b[..|b| - 1]);
    }
  }

  lemma {:induction false} OpenPrefix(s: string, k: nat)
    requires Open(s) && k <= |s|
    ensures Open(s[..k]) && Depth(s[..k]) >= 0
    ensures k < |s| && s[k] == ',' ==> Depth(s[..k]) > 0
  {
    if k == |s| {
      assert s[..k] == s;
    } else if k == |s| - 1 {
      OpenPrefix(s[..k], k);
      assert s[..k][..k] == s[..k];
    } else {
      OpenPrefix(s[..|s| - 1], k);
      assert s[..|s| - 1][..k] == s[..k];
    }
  }

  /** A decomposed text is balanced: no prefix closes too much, and nothing stays open. */
  lemma {:induction false} DecomposedIsBalanced(text: string, pieces: seq<string>, k: nat)
    requires Decomposes(text, pieces) && k <= |text|
    ensures Depth(text) == 0 && Depth(text[..k]) >= 0
    decreases |pieces|
  {
    var init, last := pieces[..|pieces| - 1], pieces[|pieces| - 1];
    assert last in pieces;
    if |pieces| == 1 {
      OpenPrefix(last, k);
    } else {
      var front := Join(init);
      DecomposedIsBalanced(front, init, if k <= |front| then k else |front|);
      BalancedAppend(front, last, k);
    }
  }

  lemma BalancedAppend(front: string, last: string, k: nat)
    requires Depth(front) == 0 && Piece(last) && k <= |front| + 1 + |last|
    requires Depth(front[..if k <= |front| then k else |front|]) >= 0
    ensures Depth(front + "," + last) == 0 && Depth((front + "," + last)[..k]) >= 0
  {
    AppendedDepth(front, last);
    hide Depth;
    CutAppended(front, last, k);
    if k > |front| {
      var part := last[..k - |front| - 1];
      OpenPrefix(last, |part|);
      hide Open;
      AppendedDepth(front, part);
    }
  }

  lemma AppendedDepth(front: string, last: string)
    requires Depth(front) == 0
    ensures Depth(front + "," + last) == Depth(last)
  {
    assert Depth(",") == 0 by { assert ","[..0] == ""; }
    hide Depth;
    DepthAdds(front, ",");
    DepthAdds(front + ",", last);
  }

  lemma CutAppended(front: string, last: string, k: nat)
    requires k <= |front| + 1 + |last|
    ensures (front + "," + last)[..k] == if k <= |front| then front[..k] else front + "," + last[..k - |front| - 1]
  {
  }

  /** A comma before the last piece cannot lie inside a longer last piece. */
  lemma LastPieceEnds(front: string, last: string, other: string, text: string)
    requires Piece(last) && Piece(other) && text == front + "," + last
    requires |other| <= |text| && text[|text| - |other|..] == other
    ensures |other| <= |last|
  {
    if |other| > |last| {
      var k := |other| - |last| - 1;
      SuffixSplits(front, last, other, text, k);
      OpenPrefix(other, k);
      DepthAdds(other[..k], ",");
      DepthAdds(other[..k] + ",", last);
      assert false;
    }
  }

  lemma SuffixSplits(front: string, last: string, other: string, text: string, k: nat)
    requires text == front + "," + last && |other| <= |text| && text[|text| - |other|..] == other
    requires |other| == k + 1 + |last|
    ensures other == other[..k] + "," + last
  {
    assert other[k] == text[|front|];
    assert other[k + 1..] == text[|front| + 1..] == last;
  }

  /** There is at most one way to cut a text into pieces. */
  lemma {:induction false} DecompositionIsUnique(text: string, a: seq<string>, b: seq<string>)
    requires Decomposes(text, a) && Decomposes(text, b)
    ensures a == b
  {
    var initA, lastA := a[..|a| - 1], a[|a| - 1];
    var initB, lastB := b[..|b| - 1], b[|b| - 1];
    if |a| > 1 {
      LastPieceEnds(Join(initA), lastA, lastB, text);
    }
    if |b| > 1 {
      LastPieceEnds(Join(initB), lastB, lastA, text);
    }
    assert |lastA| == |lastB|;
    assert lastA == text[|text| - |lastA|..] == lastB;
    if |a| > 1 && |b| > 1 {
      assert Join(initA) == text[..|text| - |lastA| - 1] == Join(initB);
      DecompositionIsUnique(Join(initA), initA, initB);
    }
    assert a == initA + [lastA] && b == initB + [lastB];
  }

  ghost predicate NoneBlank(pieces: seq<string>) {
    forall p <- Stripped(pieces) :: p != ""
  }

  lemma JoinAppends(pieces: seq<string>, last: string)
    requires pieces != []
    ensures Join(pieces + [last]) == Join(pieces) + "," + last
    ensures Stripped(pieces + [last]) == Stripped(pieces) + [Strip(last)]
  {
    assert (pieces + [last])[..|pieces|] == pieces;
  }

  /** The text read so far: finished pieces and the open one. */
  ghost function Read(pieces: seq<string>, current: string): string {
    if pieces == [] then current else Join(pieces) + "," + current
  }

  lemma ReadIsJoin(pieces: seq<string>, current: string)
    ensures Read(pieces, current) == Join(pieces + [current])
    ensures Stripped(pieces + [current]) == Stripped(pieces) + [Strip(current)]
  {
    if pieces == [] {
      assert pieces + [current] == [current];
      assert Stripped([current]) == Stripped([]) + [Strip(current)];
    } else {
      JoinAppends(pieces, current);
    }
  }

  lemma ReadDepth(pieces: seq<string>, current: string)
    requires forall p <- pieces :: Piece(p)
    ensures Depth(Read(pieces, current)) == Depth(current)
  {
    if pieces != [] {
      var text := Join(pieces);
      DecomposedIsBalanced(text, pieces, 0);
      DepthAdds(text, ",");
      DepthAdds(text + ",", current);
    }
  }

  /** No prefix closes more than it opened, and nothing stays open. */
  ghost predicate Balanced(text: string) {
    Depth(text) == 0 && forall k :: 0 <= k <= |text| ==> Depth(text[..k]) >= 0
  }

  /** Cutting at every comma outside parentheses. */
  lemma {:induction false} PiecesOf(text: string, n: nat) returns (pieces: seq<string>, current: string)
    requires n <= |text| && forall k :: 0 <= k <= n ==> Depth(text[..k]) >= 0
    ensures (forall p <- pieces :: Piece(p)) && text[..n] == Read(pieces, current)
    ensures Open(current) && Depth(current) == Depth(text[..n])
  {
    if n == 0 {
      pieces, current := [], "";
      StartsEmpty();
    } else {
      hide Depth, Open, Read;
      var before, open := PiecesOf(text, n - 1);
      if text[n - 1] == ',' && Depth(open) == 0 {
        Cut(text, n - 1, before, open);
        pieces, current := before + [open], "";
        ReadDepth(pieces, current);
      } else {
        Grow(text, n - 1, before, open);
        pieces, current := before, open + [text[n - 1]];
      }
    }
  }

  /** A text splits at its top-level commas into balanced pieces if and only if it is balanced. */
  lemma BalancedExactly(text: string)
    ensures Balanced(text) <==> exists pieces :: Decomposes(text, pieces)
  {
    if Balanced(text) {
      assert text[..|text|] == text;
      var pieces, current := PiecesOf(text, |text|);
      ReadIsJoin(pieces, current);
      assert Decomposes(text, pieces + [current]);
    }
    if pieces :| Decomposes(text, pieces) {
      forall k | 0 <= k <= |text| ensures Depth(text) == 0 && Depth(text[..k]) >= 0 {
        DecomposedIsBalanced(text, pieces, k);
      }
      assert Depth(text[..0]) >= 0 && Depth(text) == 0;
    }
  }

  /**
   The entries of a text are the stripped pieces of its only decomposition. They are found exactly
   when its parentheses are balanced and no piece is blank.
   */
  method Entries(text: string) returns (result: Option<seq<string>>)
    ensures result.Some? <==> Balanced(text) && forall pieces :: Decomposes(text, pieces) ==> NoneBlank(pieces)
    ensures forall pieces :: Decomposes(text, pieces) ==>
                               result == if NoneBlank(pieces) then Some(Stripped(pieces)) else None
    ensures result.Some? ==> exists pieces :: Decomposes(text, pieces)
  {
    hide Decomposes, NoneBlank, Open, Depth, Read, Stripped, Join, Balanced;
    BalancedExactly(text);
    var depth, start := 0, 0;
    var entries: seq<string> := [];
    ghost var pieces: seq<string> := [];
    StartsEmpty();
    for index := 0 to |text|
      invariant 0 <= start <= index
      invariant forall p <- pieces :: Piece(p)
      invariant entries == Stripped(pieces)
      invariant text[..index] == Read(pieces, text[start..index])
      invariant Open(text[start..index]) && depth == Depth(text[start..index]) && depth >= 0
    {
      var character := text[index];
      ghost var current := text[start..index];
      if character == ',' && depth == 0 {
        Cut(text, index, pieces, current);
        entries := entries + [Strip(text[start..index])];
        pieces := pieces + [current];
        start := index + 1;
        assert text[start..index + 1] == "";
      } else {
        depth := depth + Weight(character);
        assert text[start..index + 1] == current + [character];
        Grow(text, index, pieces, current);
        if depth < 0 {
          NotDecomposable(text, index + 1);
          return None;
        }
      }
    }
    assert text[..|text|] == text && text[start..|text|] == text[start..];
    ReadDepth(pieces, text[start..]);
    if depth != 0 {
      NotDecomposable(text, |text|);
      return None;
    }
    ReadIsJoin(pieces, text[start..]);
    entries := entries + [Strip(text[start..])];
    pieces := pieces + [text[start..]];
    assert Read(pieces[..|pieces| - 1], text[start..]) == text;
    Finished(text, pieces);
    if "" in entries {
      return None;
    }
    return Some(entries);
  }

  lemma StartsEmpty()
    ensures Stripped([]) == [] && Read([], "") == "" && Open("") && Depth("") == 0
  {
  }

  lemma Cut(text: string, index: nat, pieces: seq<string>, current: string)
    requires index < |text| && text[index] == ',' && text[..index] == Read(pieces, current)
    requires Open(current) && Depth(current) == 0 && forall p <- pieces :: Piece(p)
    ensures text[..index + 1] == Read(pieces + [current], "") && Piece(current)
    ensures Stripped(pieces + [current]) == Stripped(pieces) + [Strip(current)]
    ensures Open("") && Depth("") == 0
  {
    StartsEmpty();
    hide Depth, Open, Stripped, Join;
    ReadIsJoin(pieces, current);
    assert text[..index + 1] == text[..index] + ",";
    assert pieces + [current] != [];
  }

  lemma Grow(text: string, index: nat, pieces: seq<string>, current: string)
    requires index < |text| && text[..index] == Read(pieces, current) && Open(current)
    requires forall p <- pieces :: Piece(p)
    requires text[index] == ',' ==> Depth(current) != 0
    ensures text[..index + 1] == Read(pieces, current + [text[index]])
    ensures Depth(current + [text[index]]) == Depth(current) + Weight(text[index])
    ensures Depth(text[..index + 1]) == Depth(current + [text[index]])
    ensures Depth(current + [text[index]]) >= 0 ==> Open(current + [text[index]])
  {
    var next := current + [text[index]];
    OneMoreCharacter(current, text[index]);
    hide Depth, Open, Join;
    assert text[..index + 1] == text[..index] + [text[index]];
    ReadDepth(pieces, next);
  }

  lemma OneMoreCharacter(current: string, c: char)
    requires Open(current) && (c == ',' ==> Depth(current) != 0)
    ensures Depth(current + [c]) == Depth(current) + Weight(c)
    ensures Depth(current + [c]) >= 0 ==> Open(current + [c])
  {
    assert (current + [c])[..|current|] == current;
    OpenPrefix(current, |current|);
    assert current[..|current|] == current;
  }

  lemma NotDecomposable(text: string, k: nat)
    requires k <= |text| && (Depth(text[..k]) < 0 || Depth(text) != 0)
    ensures forall pieces :: !Decomposes(text, pieces)
  {
    forall pieces: seq<string> ensures !Decomposes(text, pieces) {
      if Decomposes(text, pieces) {
        DecomposedIsBalanced(text, pieces, k);
      }
    }
  }

  lemma Finished(text: string, pieces: seq<string>)
    requires pieces != [] && (forall p <- pieces :: Piece(p)) && Join(pieces) == text
    ensures Decomposes(text, pieces)
    ensures forall other :: Decomposes(text, other) ==> other == pieces
    ensures NoneBlank(pieces) <==> "" !in Stripped(pieces)
  {
    forall other | Decomposes(text, other) ensures other == pieces {
      DecompositionIsUnique(text, other, pieces);
    }
  }
}
