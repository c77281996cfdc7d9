/**
  The few JavaScript string and array operations the editor's actions rely on:
  `indexOf`, `split` with a non-empty separator, `includes`, `join`, and
  `slice(-2)`. Strings are sequences of Unicode scalar values.
 */
module JsString {
  import opened Wrappers

  /** `pat` occurs in `s` starting at index `i`. */
  predicate OccursAt(s: string, pat: string, i: nat) {
    i + |pat| <= |s| && s[i..i + |pat|] == pat
  }

  /** `s.indexOf(pat, from)` for a non-negative start: the first occurrence at or after `from`. */
  function IndexOf(s: string, pat: string, from: nat): (r: Option<nat>)
    ensures r.Some? ==> from <= r.value && OccursAt(s, pat, r.value)
    ensures r.Some? ==> forall j :: from <= j < r.value ==> !OccursAt(s, pat, j)
    ensures r.None? ==> forall j :: from <= j ==> !OccursAt(s, pat, j)
    decreases |s| - from
  {
    if from + |pat| > |s| then None
    else if OccursAt(s, pat, from) then Some(from)
    else IndexOf(s, pat, from + 1)
  }

  /** JavaScript truthiness of a string that may be `undefined`: neither `undefined` nor `""`. */
  predicate Truthy(s: Option<string>) {
    s.Some? && s.value != ""
  }

  /** `s.includes(pat)`. */
  predicate Includes(s: string, pat: string) {
    IndexOf(s, pat, 0).Some?
  }

  lemma IncludesAt(s: string, pat: string, i: nat)
    requires OccursAt(s, pat, i)
    ensures Includes(s, pat)
  {
  }

  /**
    `s.split(sep)` for a non-empty separator, as String.prototype.split in
    section 22.1.3.23 of ECMA-262 computes it: scanning left to right, each
    occurrence of `sep` ends the current piece and the scan resumes after it;
    `"".split(sep)` is `[""]`. Written one character at a time: an occurrence
    at the front cuts off an empty piece, and otherwise the first character
    joins the first piece of the rest.
   */
  function Split(s: string, sep: string): (r: seq<string>)
    requires |sep| > 0
    ensures |r| >= 1
    decreases |s|
  {
    if OccursAt(s, sep, 0) then [""] + Split(s[|sep|..], sep)
    else if s == [] then [""]
    else
      var rest := Split(s[1..], sep);
      [[s[0]] + rest[0]] + rest[1..]
  }

  /** The text before the first occurrence of `sep` (all of `s` if there is none). */
  ghost predicate IsFirstPiece(s: string, sep: string, piece: string) {
    |piece| <= |s| && s[..|piece|] == piece
    && (forall j :: 0 <= j < |piece| ==> !OccursAt(s, sep, j))
    && (|piece| == |s| || OccursAt(s, sep, |piece|))
  }

  /**
    `first` is the text before the first occurrence of `sep` in `s`, and
    `second` the text between that occurrence and the next one (or the end).
   */
  ghost predicate IsFirstTwoPieces(s: string, sep: string, first: string, second: string) {
    var start := |first| + |sep|;
    var end := start + |second|;
    end <= |s| && s[..|first|] == first && OccursAt(s, sep, |first|) && s[start..end] == second
    && (forall j :: 0 <= j < |first| ==> !OccursAt(s, sep, j))
    && (forall j :: start <= j < end ==> !OccursAt(s, sep, j))
    && (end == |s| || OccursAt(s, sep, end))
  }

  /** An occurrence past the first `k` characters is an occurrence in what follows them. */
  lemma OccursAtDrop(s: string, sep: string, k: nat, j: nat)
    requires k <= |s|
    ensures OccursAt(s, sep, k + j) <==> OccursAt(s[k..], sep, j)
  {
    if k + j + |sep| <= |s| {
      assert s[k + j..k + j + |sep|] == s[k..][j..j + |sep|];
    }
  }

  /** Without the first character, the first piece loses its first character. */
  lemma FirstPieceTail(s: string, sep: string, piece: string)
    requires IsFirstPiece(s, sep, piece) && piece != []
    ensures IsFirstPiece(s[1..], sep, piece[1..])
  {
    var t := s[1..];
    forall j | 0 <= j < |piece| - 1
      ensures !OccursAt(t, sep, j)
    {
      OccursAtDrop(s, sep, 1, j);
    }
    OccursAtDrop(s, sep, 1, |piece| - 1);
    assert t[..|piece| - 1] == piece[1..];
  }

  /** A split that does not start with the separator puts the first character in front of the rest's first piece. */
  lemma SplitFirstChar(s: string, sep: string)
    requires |sep| > 0 && s != [] && !OccursAt(s, sep, 0)
    ensures Split(s, sep) == [[s[0]] + Split(s[1..], sep)[0]] + Split(s[1..], sep)[1..]
  {
  }

  /** One step of `SplitCut`: from the rest's cut to the cut of the whole. */
  lemma SplitCutStep(s: string, sep: string, piece: string)
    requires |sep| > 0
    requires IsFirstPiece(s, sep, piece) && piece != []
    requires |piece| == |s| ==> Split(s[1..], sep) == [s[1..]]
    requires |piece| < |s| ==> |piece| + |sep| <= |s| && Split(s[1..], sep) == [piece[1..]] + Split(s[1..][|piece| - 1 + |sep|..], sep)
    ensures |piece| == |s| ==> Split(s, sep) == [s]
    ensures |piece| < |s| ==> |piece| + |sep| <= |s| && Split(s, sep) == [piece] + Split(s[|piece| + |sep|..], sep)
  {
    assert !OccursAt(s, sep, 0);
    SplitFirstChar(s, sep);
    assert [s[0]] + piece[1..] == piece;
    if |piece| < |s| {
      assert s[1..][|piece| - 1 + |sep|..] == s[|piece| + |sep|..];
    } else {
      assert [s[0]] + s[1..] == s;
    }
  }

  /** Splitting cuts off the first piece, then splits what follows the separator after it. */
  lemma {:induction false} SplitCut(s: string, sep: string, piece: string)
    requires |sep| > 0
    requires IsFirstPiece(s, sep, piece)
    ensures |piece| == |s| ==> Split(s, sep) == [s]
    ensures |piece| < |s| ==> |piece| + |sep| <= |s| && Split(s, sep) == [piece] + Split(s[|piece| + |sep|..], sep)
    decreases |piece|
  {
    if piece == [] {
      if s == [] {
        assert !OccursAt(s, sep, 0);
      }
    } else {
      FirstPieceTail(s, sep, piece);
      SplitCut(s[1..], sep, piece[1..]);
      SplitCutStep(s, sep, piece);
    }
  }

  /** The first piece exists: the text up to the first occurrence found by `indexOf`, or all of `s`. */
  lemma FirstPieceOf(s: string, sep: string) returns (piece: string)
    requires |sep| > 0
    ensures IsFirstPiece(s, sep, piece)
    ensures IndexOf(s, sep, 0).None? ==> piece == s
    ensures IndexOf(s, sep, 0).Some? ==> piece == s[..IndexOf(s, sep, 0).value]
  {
    match IndexOf(s, sep, 0)
    case None =>
      piece := s;
      assert s[..|s|] == s;
    case Some(i) =>
      piece := s[..i];
  }

  /** At most one text can be the first piece. */
  lemma FirstPieceUnique(s: string, sep: string, a: string, b: string)
    requires IsFirstPiece(s, sep, a) && IsFirstPiece(s, sep, b)
    ensures a == b
  {
    assert |a| == |b|;
  }

  /** The piece that `s.split(sep)` puts first. */
  lemma SplitFirstPiece(s: string, sep: string)
    requires |sep| > 0
    ensures IsFirstPiece(s, sep, Split(s, sep)[0])
    ensures forall p :: IsFirstPiece(s, sep, p) ==> p == Split(s, sep)[0]
  {
    var piece := FirstPieceOf(s, sep);
    SplitCut(s, sep, piece);
    forall p | IsFirstPiece(s, sep, p)
      ensures p == Split(s, sep)[0]
    {
      FirstPieceUnique(s, sep, p, piece);
    }
  }

  /** At most one pair of texts can be the first two pieces. */
  lemma FirstTwoPiecesUnique(s: string, sep: string, a: string, b: string, c: string, d: string)
    requires IsFirstTwoPieces(s, sep, a, b) && IsFirstTwoPieces(s, sep, c, d)
    ensures a == c && b == d
  {
    assert |a| == |c|;
    assert a == s[..|a|] && c == s[..|c|];
    var start := |a| + |sep|;
    assert |b| == |d|;
    assert b == s[start..start + |b|] && d == s[start..start + |d|];
  }

  /** The first piece of `s`, then the first piece of what follows its separator, are the first two pieces. */
  lemma FirstTwoFromPieces(s: string, sep: string, first: string, second: string)
    requires |sep| > 0
    requires IsFirstPiece(s, sep, first) && |first| < |s|
    requires |first| + |sep| <= |s| && IsFirstPiece(s[|first| + |sep|..], sep, second)
    ensures IsFirstTwoPieces(s, sep, first, second)
  {
    var start := |first| + |sep|;
    var t := s[start..];
    var end := start + |second|;
    assert s[start..end] == t[..|second|];
    forall j | start <= j < end
      ensures !OccursAt(s, sep, j)
    {
      OccursAtDrop(s, sep, start, j - start);
    }
    OccursAtDrop(s, sep, start, |second|);
  }

  /**
    `s.split(sep)` yields a second piece exactly when `sep` occurs in `s`, and
    its first two pieces are then the text before the first occurrence and the
    text between the first and second occurrences. Nothing else of `s` is in them.
   */
  lemma SplitFirstTwoPieces(s: string, sep: string)
    requires |sep| > 0
    ensures |Split(s, sep)| >= 2 <==> Includes(s, sep)
    ensures |Split(s, sep)| >= 2 ==> IsFirstTwoPieces(s, sep, Split(s, sep)[0], Split(s, sep)[1])
    ensures forall a, b :: IsFirstTwoPieces(s, sep, a, b) ==> |Split(s, sep)| >= 2 && a == Split(s, sep)[0] && b == Split(s, sep)[1]
  {
    var first := FirstPieceOf(s, sep);
    SplitCut(s, sep, first);
    if IndexOf(s, sep, 0).None? {
      forall a, b
        ensures !IsFirstTwoPieces(s, sep, a, b)
      {
      }
    } else {
      var t := s[|first| + |sep|..];
      SplitFirstPiece(t, sep);
      var parts := Split(s, sep);
      FirstTwoFromPieces(s, sep, first, Split(t, sep)[0]);
      forall a, b | IsFirstTwoPieces(s, sep, a, b)
        ensures |parts| >= 2 && a == parts[0] && b == parts[1]
      {
        FirstTwoPiecesUnique(s, sep, a, b, parts[0], parts[1]);
      }
    }
  }

  /** Searching in `p + s` past `p` finds what searching in `s` finds, moved along by `|p|`. */
  lemma IndexOfShift(p: string, s: string, pat: string, from: nat)
    ensures IndexOf(p + s, pat, |p| + from) ==
      match IndexOf(s, pat, from) case None => None case Some(j) => Some(|p| + j)
  {
    forall i: nat
      ensures OccursAt(p + s, pat, |p| + i) <==> OccursAt(s, pat, i)
    {
      OccursAtDrop(p + s, pat, |p|, i);
      assert (p + s)[|p|..] == s;
    }
    var r := IndexOf(p + s, pat, |p| + from);
    if r.Some? {
      assert OccursAt(s, pat, r.value - |p|);
    }
  }

  /** A one-character separator occurs exactly where that character is. */
  lemma OccursAtChar(s: string, sep: string, i: nat)
    requires |sep| == 1
    ensures OccursAt(s, sep, i) <==> i < |s| && s[i] == sep[0]
  {
    if i < |s| {
      assert s[i..i + 1] == [s[i]];
    }
  }

  /** A text without the one-character separator is split into itself alone. */
  lemma SplitNoSeparator(s: string, sep: string)
    requires |sep| == 1 && sep[0] !in s
    ensures Split(s, sep) == [s]
  {
    forall j | 0 <= j < |s|
      ensures !OccursAt(s, sep, j)
    {
      OccursAtChar(s, sep, j);
    }
    assert s[..|s|] == s;
    SplitCut(s, sep, s);
  }

  /** One step of `SplitAppend` when `a` starts with the separator: both splits begin with an empty piece. */
  lemma SplitAppendAtSeparator(a: string, b: string, sep: string)
    requires |sep| == 1 && a != [] && a[0] == sep[0]
    requires Split(a[1..] + sep + b, sep) == Split(a[1..], sep) + Split(b, sep)
    ensures Split(a + sep + b, sep) == Split(a, sep) + Split(b, sep)
  {
    var s := a + sep + b;
    OccursAtChar(s, sep, 0);
    OccursAtChar(a, sep, 0);
    assert s[1..] == a[1..] + sep + b;
    var A := Split(a[1..], sep);
    assert [""] + (A + Split(b, sep)) == ([""] + A) + Split(b, sep);
  }

  /** One step of `SplitAppend` when `a` starts with another character: it joins the first piece on both sides. */
  lemma SplitAppendAtChar(a: string, b: string, sep: string)
    requires |sep| == 1 && a != [] && a[0] != sep[0]
    requires Split(a[1..] + sep + b, sep) == Split(a[1..], sep) + Split(b, sep)
    ensures Split(a + sep + b, sep) == Split(a, sep) + Split(b, sep)
  {
    var s := a + sep + b;
    OccursAtChar(s, sep, 0);
    OccursAtChar(a, sep, 0);
    assert s[0] == a[0] && s[1..] == a[1..] + sep + b;
    SplitFirstChar(s, sep);
    SplitFirstChar(a, sep);
    PrependToFirst(a[0], Split(a[1..], sep), Split(b, sep));
  }

  /** Putting a character in front of the first piece commutes with appending more pieces. */
  lemma PrependToFirst(c: char, xs: seq<string>, ys: seq<string>)
    requires xs != []
    ensures [[c] + (xs + ys)[0]] + (xs + ys)[1..] == ([[c] + xs[0]] + xs[1..]) + ys
  {
    assert (xs + ys)[1..] == xs[1..] + ys;
  }

  /** Splitting at a one-character separator cuts `a + sep + b` into the pieces of `a`, then those of `b`. */
  lemma {:induction false} SplitAppend(a: string, b: string, sep: string)
    requires |sep| == 1
    ensures Split(a + sep + b, sep) == Split(a, sep) + Split(b, sep)
  {
    if a == [] {
      var s := a + sep + b;
      OccursAtChar(s, sep, 0);
      assert s[1..] == b;
    } else {
      SplitAppend(a[1..], b, sep);
      if a[0] == sep[0] {
        SplitAppendAtSeparator(a, b, sep);
      } else {
        SplitAppendAtChar(a, b, sep);
      }
    }
  }

  /**
    Splitting at a one-character separator undoes joining with it, as long as
    no piece holds that character.
   */
  lemma {:induction false} SplitJoin(xs: seq<string>, sep: string)
    requires |xs| >= 1 && |sep| == 1
    requires forall k :: 0 <= k < |xs| ==> sep[0] !in xs[k]
    ensures Split(Join(xs, sep), sep) == xs
  {
    SplitNoSeparator(xs[0], sep);
    if |xs| > 1 {
      SplitJoin(xs[1..], sep);
      SplitAppend(xs[0], Join(xs[1..], sep), sep);
      assert [xs[0]] + xs[1..] == xs;
    }
  }

  /** `xs.join(sep)`: the pieces with `sep` between neighbours; `[].join(sep)` is `""`. */
  function Join(xs: seq<string>, sep: string): (r: string)
    ensures |xs| == 1 ==> r == xs[0]
    ensures xs == [] ==> r == ""
  {
    if xs == [] then ""
    else if |xs| == 1 then xs[0]
    else xs[0] + sep + Join(xs[1..], sep)
  }

  /** Joining splits over a cut in the list of pieces. */
  lemma {:induction false} JoinAppend(xs: seq<string>, ys: seq<string>, sep: string)
    requires xs != [] && ys != []
    ensures Join(xs + ys, sep) == Join(xs, sep) + sep + Join(ys, sep)
    decreases |xs|
  {
    if |xs| == 1 {
      assert (xs + ys)[1..] == ys;
    } else {
      JoinAppend(xs[1..], ys, sep);
      assert (xs + ys)[1..] == xs[1..] + ys;
    }
  }

  /** Joining one more piece appends the separator and that piece. */
  lemma JoinPush(xs: seq<string>, x: string, sep: string)
    requires xs != []
    ensures Join(xs + [x], sep) == Join(xs, sep) + sep + x
  {
    JoinAppend(xs, [x], sep);
  }

  /** `xs.slice(-2)`: the last two elements, or all of them when there are fewer. */
  function LastTwo<T>(xs: seq<T>): (r: seq<T>)
    ensures |r| == if |xs| < 2 then |xs| else 2
    ensures forall k :: 0 <= k < |r| ==> r[k] == xs[|xs| - |r| + k]
  {
    if |xs| <= 2 then xs else xs[|xs| - 2..]
  }
}
