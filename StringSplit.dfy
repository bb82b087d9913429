/**
 * JavaScript's `String.prototype.split` with a non-empty string separator and
 * `Array.prototype.join`, on strings as sequences of characters.
 *
 * Splitting follows the ECMAScript algorithm: from the current position p,
 * find the leftmost occurrence q of the separator at or after p; the text from
 * p up to q is a piece and the search resumes at q + |sep|. When no occurrence
 * is left, the rest of the text is the last piece. Occurrences are therefore
 * found left to right and never overlap. Here the search that resumes at
 * q + |sep| is written as a split of the text from q + |sep| on, which yields
 * the same pieces.
 */
module StringSplit {
  import opened Optional

  /** sep occurs in s starting at position i. */
  predicate OccursAt(s: string, sep: string, i: int)
  {
    0 <= i && i + |sep| <= |s| && s[i..i + |sep|] == sep
  }

  /** No occurrence of sep in s starts at a position from lo up to, not including, hi. */
  predicate NoneBetween(s: string, sep: string, lo: int, hi: int)
  {
    forall j :: lo <= j < hi ==> !OccursAt(s, sep, j)
  }

  /** s contains no occurrence of sep. */
  predicate Free(s: string, sep: string)
  {
    NoneBetween(s, sep, 0, |s| + 1)
  }

  /**
   * When piece is followed by sep, no occurrence of sep starts inside piece:
   * the first occurrence in piece + sep is the appended one.
   */
  predicate NoOccurrenceStartsIn(piece: string, sep: string)
  {
    NoneBetween(piece + sep, sep, 0, |piece|)
  }

  /** `s.indexOf(sep, p)`: the position of the leftmost occurrence of sep at or after p, if any. */
  function IndexOf(s: string, sep: string, p: nat): (q: Option<nat>)
    requires sep != [] && p <= |s|
    ensures q.Some? ==> p <= q.value && OccursAt(s, sep, q.value)
    decreases |s| - p
  {
    if p + |sep| > |s| then None
    else if OccursAt(s, sep, p) then Some(p)
    else IndexOf(s, sep, p + 1)
  }

  /**
   * `s.split(sep)`: the text before the leftmost occurrence is the first
   * piece, and the split goes on with the text after that occurrence.
   */
  function Split(s: string, sep: string): (pieces: seq<string>)
    requires sep != []
    ensures |pieces| >= 1
    decreases |s|
  {
    match IndexOf(s, sep, 0)
    case None => [s]
    case Some(q) => [s[..q]] + Split(s[q + |sep|..], sep)
  }

  /** Every position of ps moved on by d. */
  function Offset(ps: seq<nat>, d: nat): (r: seq<nat>)
    ensures |r| == |ps|
    ensures forall k :: 0 <= k < |ps| ==> r[k] == ps[k] + d
  {
    seq(|ps|, k requires 0 <= k < |ps| => ps[k] + d)
  }

  /** The positions in s of the occurrences the split of s consumes, left to right. */
  function Occurrences(s: string, sep: string): seq<nat>
    requires sep != []
    decreases |s|
  {
    match IndexOf(s, sep, 0)
    case None => []
    case Some(q) => [q] + Offset(Occurrences(s[q + |sep|..], sep), q + |sep|)
  }

  /** `pieces.join(sep)`. */
  function Join(pieces: seq<string>, sep: string): string
    decreases |pieces|
  {
    if |pieces| == 0 then ""
    else if |pieces| == 1 then pieces[0]
    else pieces[0] + sep + Join(pieces[1..], sep)
  }

  /**
   * The pieces could be those of splitting s: they join back to s, no
   * occurrence starts inside a piece that the separator follows, and the last
   * piece holds none.
   */
  ghost predicate IsSplitOf(pieces: seq<string>, s: string, sep: string)
  {
    && |pieces| >= 1
    && Join(pieces, sep) == s
    && (forall k :: 0 <= k < |pieces| - 1 ==> NoOccurrenceStartsIn(pieces[k], sep))
    && Free(pieces[|pieces| - 1], sep)
  }

  /** Consecutive positions of ps are at least gap apart. */
  predicate Spaced(ps: seq<nat>, gap: nat)
  {
    forall k :: 0 <= k < |ps| - 1 ==> ps[k] + gap <= ps[k + 1]
  }

  /**
   * No occurrence of sep starts between the end of one position of ps and the
   * next, nor after the end of the last.
   */
  predicate NoneSkipped(s: string, sep: string, ps: seq<nat>)
  {
    && (forall k :: 0 <= k < |ps| - 1 ==> NoneBetween(s, sep, ps[k] + |sep|, ps[k + 1]))
    && (|ps| > 0 ==> NoneBetween(s, sep, ps[|ps| - 1] + |sep|, |s| + 1))
  }

  /** sep occurs in s at every position of ps. */
  predicate AllOccur(s: string, sep: string, ps: seq<nat>)
  {
    forall k :: 0 <= k < |ps| ==> OccursAt(s, sep, ps[k])
  }

  // ---------------------------------------------------------------------
  // Searching

  /** IndexOf finds the leftmost occurrence at or after p, and finds none only when there is none. */
  lemma {:induction false} IndexOfIsLeftmost(s: string, sep: string, p: nat)
    requires sep != [] && p <= |s|
    ensures IndexOf(s, sep, p).None? ==> NoneBetween(s, sep, p, |s| + 1)
    ensures IndexOf(s, sep, p).Some? ==> NoneBetween(s, sep, p, IndexOf(s, sep, p).value)
    decreases |s| - p
  {
    if p + |sep| <= |s| && !OccursAt(s, sep, p) {
      IndexOfIsLeftmost(s, sep, p + 1);
    }
  }

  /** The occurrences inside a slice of s are those of s that fit in it, moved by where it starts. */
  lemma OccursInSlice(s: string, lo: nat, hi: nat, sep: string, j: nat)
    requires lo <= hi <= |s|
    requires j + |sep| <= hi - lo
    ensures OccursAt(s[lo..hi], sep, j) <==> OccursAt(s, sep, lo + j)
  {
    var inner := s[lo..hi][j..j + |sep|];
    forall k | 0 <= k < |sep| ensures inner[k] == s[lo + j + k] {
      assert inner[k] == s[lo..hi][j + k];
    }
    assert inner == s[lo + j..lo + j + |sep|];
  }

  // ---------------------------------------------------------------------
  // Split and Join

  /** Joining a piece in front of at least one more piece puts the separator between them. */
  lemma JoinCons(a: string, rest: seq<string>, sep: string)
    requires |rest| >= 1
    ensures Join([a] + rest, sep) == a + sep + Join(rest, sep)
  {
    assert ([a] + rest)[1..] == rest;
  }

  /** From p on, a text is the part up to an occurrence, the separator, and the part after it. */
  lemma AroundOccurrence(s: string, sep: string, p: nat, q: nat)
    requires p <= q && OccursAt(s, sep, q)
    ensures s[p..] == s[p..q] + sep + s[q + |sep|..]
  {
    assert s[p..q] + s[q..q + |sep|] == s[p..q + |sep|];
    assert s[p..q + |sep|] + s[q + |sep|..] == s[p..];
  }

  /** Joining the pieces of a split with the separator gives back the text exactly. */
  lemma {:induction false} SplitJoin(s: string, sep: string)
    requires sep != []
    ensures Join(Split(s, sep), sep) == s
    decreases |s|
  {
    match IndexOf(s, sep, 0)
    case None =>
    case Some(q) =>
      var rest := s[q + |sep|..];
      SplitJoin(rest, sep);
      JoinCons(s[..q], Split(rest, sep), sep);
      AroundOccurrence(s, sep, 0, q);
      assert s[0..] == s && s[0..q] == s[..q];
  }

  /** The text from p up to the leftmost occurrence q has no occurrence starting inside it. */
  lemma PieceBeforeOccurrence(s: string, sep: string, p: nat, q: nat)
    requires p <= q && OccursAt(s, sep, q)
    requires NoneBetween(s, sep, p, q)
    ensures NoOccurrenceStartsIn(s[p..q], sep)
  {
    var piece := s[p..q];
    assert piece + sep == s[p..q + |sep|];
    forall j: nat | j < |piece| ensures !OccursAt(piece + sep, sep, j) {
      OccursInSlice(s, p, q + |sep|, sep, j);
    }
  }

  /** A piece with no occurrence starting inside it, in front of a split of rest, is a split of piece + sep + rest. */
  lemma IsSplitOfCons(piece: string, pieces: seq<string>, rest: string, sep: string)
    requires NoOccurrenceStartsIn(piece, sep)
    requires IsSplitOf(pieces, rest, sep)
    ensures IsSplitOf([piece] + pieces, piece + sep + rest, sep)
  {
    var ps := [piece] + pieces;
    JoinCons(piece, pieces, sep);
    assert ps[1..] == pieces;
    assert ps[|ps| - 1] == pieces[|pieces| - 1];
  }

  /** The pieces of a split meet IsSplitOf. */
  lemma {:induction false} SplitIsSplitOf(s: string, sep: string)
    requires sep != []
    ensures IsSplitOf(Split(s, sep), s, sep)
    decreases |s|
  {
    IndexOfIsLeftmost(s, sep, 0);
    match IndexOf(s, sep, 0)
    case None =>
    case Some(q) =>
      var rest := s[q + |sep|..];
      SplitIsSplitOf(rest, sep);
      PieceBeforeOccurrence(s, sep, 0, q);
      assert s[0..q] == s[..q];
      IsSplitOfCons(s[..q], Split(rest, sep), rest, sep);
      AroundOccurrence(s, sep, 0, q);
      assert s[0..] == s;
  }

  /** A piece followed by the separator with no occurrence starting inside it contains none. */
  lemma NoOccurrenceStartsInIsFree(piece: string, sep: string)
    requires sep != []
    requires NoOccurrenceStartsIn(piece, sep)
    ensures Free(piece, sep)
  {
    assert (piece + sep)[0..|piece|] == piece;
    forall j: nat | j + |sep| <= |piece| ensures !OccursAt(piece, sep, j) {
      OccursInSlice(piece + sep, 0, |piece|, sep, j);
    }
  }

  /** No piece of a split contains the separator. */
  lemma SplitPiecesFree(s: string, sep: string, k: nat)
    requires sep != []
    requires k < |Split(s, sep)|
    ensures Free(Split(s, sep)[k], sep)
  {
    SplitIsSplitOf(s, sep);
    var ps := Split(s, sep);
    if k < |ps| - 1 {
      NoOccurrenceStartsInIsFree(ps[k], sep);
    }
  }

  /** A text without the separator, the empty text included, is one piece. */
  lemma SplitFree(s: string, sep: string)
    requires sep != []
    requires Free(s, sep)
    ensures Split(s, sep) == [s]
  {
  }

  /** An occurrence at q with none from p up to q is what the search from p finds. */
  lemma {:induction false} IndexOfFinds(s: string, sep: string, p: nat, q: nat)
    requires sep != [] && p <= q
    requires OccursAt(s, sep, q)
    requires NoneBetween(s, sep, p, q)
    ensures IndexOf(s, sep, p) == Some(q)
    decreases q - p
  {
    if p < q {
      IndexOfFinds(s, sep, p + 1, q);
    }
  }

  /**
   * A piece with no occurrence starting inside it, followed by the separator,
   * is the first piece, and the split goes on with what follows.
   */
  lemma SplitPrefix(piece: string, t: string, sep: string)
    requires sep != []
    requires NoOccurrenceStartsIn(piece, sep)
    ensures Split(piece + sep + t, sep) == [piece] + Split(t, sep)
  {
    var x := piece + sep;
    var s := x + t;
    assert s[0..|x|] == x;
    assert s[|piece|..|piece| + |sep|] == sep;
    forall j: nat | j < |piece| ensures !OccursAt(s, sep, j) {
      OccursInSlice(s, 0, |x|, sep, j);
    }
    IndexOfFinds(s, sep, 0, |piece|);
    assert s[..|piece|] == piece;
    assert s[|piece| + |sep|..] == t;
  }

  /** IsSplitOf characterises Split: the split is the one sequence of pieces it admits. */
  lemma {:induction false} SplitCharacterised(pieces: seq<string>, s: string, sep: string)
    requires sep != []
    ensures Split(s, sep) == pieces <==> IsSplitOf(pieces, s, sep)
    decreases |pieces|
  {
    SplitIsSplitOf(s, sep);
    if IsSplitOf(pieces, s, sep) {
      if |pieces| == 1 {
        SplitFree(s, sep);
      } else {
        var rest := Join(pieces[1..], sep);
        assert [pieces[0]] + pieces[1..] == pieces;
        JoinCons(pieces[0], pieces[1..], sep);
        assert IsSplitOf(pieces[1..], rest, sep);
        SplitCharacterised(pieces[1..], rest, sep);
        SplitPrefix(pieces[0], rest, sep);
      }
    }
  }

  /** The first piece is the text before the leftmost occurrence, or the whole text if there is none. */
  lemma SplitFirstPiece(s: string, sep: string)
    requires sep != []
    ensures IndexOf(s, sep, 0).None? ==> Split(s, sep)[0] == s
    ensures IndexOf(s, sep, 0).Some? ==> Split(s, sep)[0] == s[..IndexOf(s, sep, 0).value]
  {
    assert s[0..] == s;
  }

  // ---------------------------------------------------------------------
  // Counting occurrences

  /** The number of pieces is one more than the number of occurrences. */
  lemma {:induction false} SplitCount(s: string, sep: string)
    requires sep != []
    ensures |Split(s, sep)| == |Occurrences(s, sep)| + 1
    decreases |s|
  {
    match IndexOf(s, sep, 0)
    case None =>
    case Some(q) => SplitCount(s[q + |sep|..], sep);
  }

  /** Occurrences in s[d..], moved on by d, after an occurrence at q, are occurrences in s. */
  lemma AllOccurCons(s: string, sep: string, q: nat, d: nat, tail: seq<nat>)
    requires d <= |s| && OccursAt(s, sep, q)
    requires AllOccur(s[d..], sep, tail)
    ensures AllOccur(s, sep, [q] + Offset(tail, d))
  {
    var ps := [q] + Offset(tail, d);
    forall k | 0 <= k < |ps| ensures OccursAt(s, sep, ps[k]) {
      if k > 0 {
        assert OccursAt(s[d..], sep, tail[k - 1]);
        OccursInSlice(s, d, |s|, sep, tail[k - 1]);
      }
    }
  }

  /** Spaced positions, moved on past q + gap, stay spaced behind q. */
  lemma SpacedCons(q: nat, d: nat, tail: seq<nat>, gap: nat)
    requires q + gap <= d
    requires Spaced(tail, gap)
    ensures Spaced([q] + Offset(tail, d), gap)
  {
    var ps := [q] + Offset(tail, d);
    forall k | 0 <= k < |ps| - 1 ensures ps[k] + gap <= ps[k + 1] {
      if k > 0 {
        assert ps[k] == tail[k - 1] + d && ps[k + 1] == tail[k] + d;
      }
    }
  }

  /** No occurrence in s[d..] between lo and hi means none in s between d + lo and d + hi. */
  lemma NoneBetweenShift(s: string, sep: string, d: nat, lo: nat, hi: nat)
    requires d <= |s|
    requires NoneBetween(s[d..], sep, lo, hi)
    ensures NoneBetween(s, sep, d + lo, d + hi)
  {
    assert s[d..|s|] == s[d..];
    forall j | d + lo <= j < d + hi ensures !OccursAt(s, sep, j) {
      if j + |sep| <= |s| {
        OccursInSlice(s, d, |s|, sep, j - d);
      }
    }
  }

  /**
   * After an occurrence at q ending at d with none before it, occurrences of
   * s[d..] that skip none, moved on by d, skip none in s.
   */
  lemma NoneSkippedCons(s: string, sep: string, q: nat, d: nat, tail: seq<nat>)
    requires d == q + |sep| <= |s|
    requires NoneSkipped(s[d..], sep, tail)
    requires |tail| == 0 ==> Free(s[d..], sep)
    requires |tail| > 0 ==> NoneBetween(s[d..], sep, 0, tail[0])
    ensures NoneSkipped(s, sep, [q] + Offset(tail, d))
  {
    var ps := [q] + Offset(tail, d);
    var rest := s[d..];
    forall k | 0 <= k < |ps| - 1 ensures NoneBetween(s, sep, ps[k] + |sep|, ps[k + 1]) {
      if k == 0 {
        NoneBetweenShift(s, sep, d, 0, tail[0]);
      } else {
        NoneBetweenShift(s, sep, d, tail[k - 1] + |sep|, tail[k]);
      }
    }
    if |tail| == 0 {
      NoneBetweenShift(s, sep, d, 0, |rest| + 1);
    } else {
      NoneBetweenShift(s, sep, d, tail[|tail| - 1] + |sep|, |rest| + 1);
    }
  }

  /**
   * The counted occurrences are real, in increasing order and without
   * overlap, and no occurrence is skipped: none starts before the first,
   * between the end of one and the next, or after the end of the last. None
   * counted means none at all.
   */
  lemma {:induction false} OccurrencesSound(s: string, sep: string)
    requires sep != []
    ensures AllOccur(s, sep, Occurrences(s, sep))
    ensures Spaced(Occurrences(s, sep), |sep|)
    ensures NoneSkipped(s, sep, Occurrences(s, sep))
    ensures |Occurrences(s, sep)| == 0 ==> Free(s, sep)
    ensures |Occurrences(s, sep)| > 0 ==> NoneBetween(s, sep, 0, Occurrences(s, sep)[0])
    decreases |s|
  {
    IndexOfIsLeftmost(s, sep, 0);
    match IndexOf(s, sep, 0)
    case None =>
    case Some(q) =>
      var d := q + |sep|;
      var rest := s[d..];
      OccurrencesSound(rest, sep);
      var tail := Occurrences(rest, sep);
      assert Occurrences(s, sep) == [q] + Offset(tail, d);
      AllOccurCons(s, sep, q, d, tail);
      SpacedCons(q, d, tail, |sep|);
      NoneSkippedCons(s, sep, q, d, tail);
  }
}
