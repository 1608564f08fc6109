/**
 * The three ways ApplicationUtilities splits a string: `split(output, str, char)` and
 * `split(output, str, string)` append to the caller's vector, and the template
 * `split<Delimiter>(str)` returns a fresh vector of the non-empty pieces.
 */
module Split {
  import opened Results
  import opened StringUtil

  /** The caller's std::vector<std::string>, which the two split overloads append to in place. */
  class StringVector {
    var items: seq<string>

    constructor (items: seq<string>)
      ensures this.items == items
    {
      this.items := items;
    }

    method PushBack(s: string)
      modifies this
      ensures items == old(items) + [s]
    {
      items := items + [s];
    }
  }

  // ---------------------------------------------------------------- std::getline

  /** Index of the first `c` in `s` from index `from` on, or |s| when `c` does not occur there. */
  function IndexOfFrom(s: string, c: char, from: nat): (i: nat)
    requires from <= |s|
    ensures from <= i <= |s| && (forall k :: from <= k < i ==> s[k] != c) && (i < |s| ==> s[i] == c)
    decreases |s| - from
  {
    if from == |s| || s[from] == c then from else IndexOfFrom(s, c, from + 1)
  }

  /** Index of the first `c` in `s`, or |s| when `c` does not occur. */
  function IndexOf(s: string, c: char): (i: nat)
    ensures i <= |s| && c !in s[..i] && (i < |s| ==> s[i] == c)
  {
    var i := IndexOfFrom(s, c, 0);
    assert forall k :: 0 <= k < i ==> s[..i][k] == s[k];
    i
  }

  /** `IndexOf` is the only index with its defining property. */
  lemma {:induction false} IndexOfUnique(s: string, c: char, k: nat)
    requires k <= |s| && c !in s[..k] && (k < |s| ==> s[k] == c)
    ensures IndexOf(s, c) == k
  {
  }

  /**
   * The pieces that repeated `std::getline(stream, piece, delimiter)` extracts from `s`: the
   * text up to each delimiter, which is consumed and dropped; a last piece only if text follows
   * the last delimiter.
   */
  function GetlinePieces(s: string, delimiter: char): seq<string>
    decreases |s|
  {
    if s == [] then []
    else
      var i := IndexOf(s, delimiter);
      if i == |s| then [s] else [s[..i]] + GetlinePieces(s[i + 1..], delimiter)
  }

  /** The pieces glued back together with one delimiter between neighbours. */
  function Join(pieces: seq<string>, delimiter: char): string
  {
    if pieces == [] then []
    else if |pieces| == 1 then pieces[0]
    else pieces[0] + [delimiter] + Join(pieces[1..], delimiter)
  }

  /** No extracted piece contains the delimiter. */
  lemma {:induction false} GetlinePiecesDelimiterFree(s: string, delimiter: char)
    ensures forall k :: 0 <= k < |GetlinePieces(s, delimiter)| ==> delimiter !in GetlinePieces(s, delimiter)[k]
    decreases |s|
  {
    if s != [] {
      var i := IndexOf(s, delimiter);
      if i < |s| { GetlinePiecesDelimiterFree(s[i + 1..], delimiter); }
    }
  }

  /** Joining a piece in front of a non-empty list puts one delimiter between them. */
  lemma {:induction false} JoinCons(piece: string, pieces: seq<string>, delimiter: char)
    requires pieces != []
    ensures Join([piece] + pieces, delimiter) == piece + [delimiter] + Join(pieces, delimiter)
  {
    assert ([piece] + pieces)[1..] == pieces;
  }

  /** The pieces of a text whose first delimiter is at `i`. */
  lemma {:induction false} GetlinePiecesFound(s: string, delimiter: char, i: nat)
    requires i < |s| && i == IndexOf(s, delimiter)
    ensures GetlinePieces(s, delimiter) == [s[..i]] + GetlinePieces(s[i + 1..], delimiter)
    ensures s == s[..i] + [delimiter] + s[i + 1..]
  {
  }

  /** A non-empty text yields at least one piece. */
  lemma {:induction false} GetlinePiecesNonEmpty(s: string, delimiter: char)
    requires s != []
    ensures GetlinePieces(s, delimiter) != []
  {
  }

  /** Joining the pieces gives the input back, except for a delimiter that ended it. */
  lemma {:induction false} GetlineRoundTrip(s: string, delimiter: char)
    ensures Join(GetlinePieces(s, delimiter), delimiter) + (if EndsWithChar(s, delimiter) then [delimiter] else []) == s
    decreases |s|
  {
    if s != [] {
      var i := IndexOf(s, delimiter);
      if i < |s| {
        var rest := s[i + 1..];
        GetlineRoundTrip(rest, delimiter);
        GetlinePiecesFound(s, delimiter, i);
        if rest == [] {
          assert GetlinePieces(s, delimiter) == [s[..i]];
          assert EndsWithChar(s, delimiter);
        } else {
          var pieces := GetlinePieces(rest, delimiter);
          GetlinePiecesNonEmpty(rest, delimiter);
          JoinCons(s[..i], pieces, delimiter);
          assert EndsWithChar(s, delimiter) == EndsWithChar(rest, delimiter);
          Reattach(s[..i], [delimiter], Join(pieces, delimiter),
                   if EndsWithChar(rest, delimiter) then [delimiter] else [], rest, s);
        }
      } else {
        assert GetlinePieces(s, delimiter) == [s];
      }
    }
  }

  /**
   * One piece per delimiter, plus one for text after the last delimiter: a delimiter that ends
   * the input yields no empty piece after it.
   */
  lemma {:induction false} GetlinePieceCount(s: string, delimiter: char)
    ensures |GetlinePieces(s, delimiter)| ==
      multiset(s)[delimiter] + (if s == [] || EndsWithChar(s, delimiter) then 0 else 1)
    decreases |s|
  {
    if s != [] {
      var i := IndexOf(s, delimiter);
      assert multiset(s[..i])[delimiter] == 0;
      if i < |s| {
        var rest := s[i + 1..];
        GetlinePieceCount(rest, delimiter);
        GetlinePiecesFound(s, delimiter, i);
        assert multiset(s)[delimiter] == multiset(s[..i])[delimiter] + 1 + multiset(rest)[delimiter];
        assert rest != [] ==> EndsWithChar(s, delimiter) == EndsWithChar(rest, delimiter);
      } else {
        assert s == s[..i];
      }
    }
  }

  /** Splitting a joined list of delimiter-free pieces gives the pieces back (last one non-empty). */
  lemma {:induction false} GetlineOfJoin(pieces: seq<string>, delimiter: char)
    requires forall k :: 0 <= k < |pieces| ==> delimiter !in pieces[k]
    requires pieces != [] ==> pieces[|pieces| - 1] != []
    ensures GetlinePieces(Join(pieces, delimiter), delimiter) == pieces
    decreases |pieces|
  {
    if pieces != [] {
      var p := pieces[0];
      var s := Join(pieces, delimiter);
      if |pieces| == 1 {
        IndexOfUnique(s, delimiter, |p|);
      } else {
        var rest := Join(pieces[1..], delimiter);
        assert s == p + [delimiter] + rest;
        assert s[..|p|] == p;
        IndexOfUnique(s, delimiter, |p|);
        assert s[|p| + 1..] == rest;
        GetlineOfJoin(pieces[1..], delimiter);
      }
    }
  }

  /** Splitting text at a known first delimiter position. */
  lemma {:induction false} GetlinePiecesStep(str: string, pos: nat, end: nat, delimiter: char)
    requires pos < |str| && pos <= end <= |str|
    requires delimiter !in str[pos..end] && (end < |str| ==> str[end] == delimiter)
    ensures GetlinePieces(str[pos..], delimiter) ==
      [str[pos..end]] + (if end < |str| then GetlinePieces(str[end + 1..], delimiter) else [])
  {
    var t := str[pos..];
    assert t[..end - pos] == str[pos..end];
    IndexOfUnique(t, delimiter, end - pos);
    if end < |str| {
      assert t[end - pos + 1..] == str[end + 1..];
    } else {
      assert t == str[pos..end];
    }
  }

  /**
   * How far std::getline reads from `pos`: up to the first delimiter, or to the end of the
   * stream.
   */
  method GetlineEnd(str: string, pos: nat, delimiter: char) returns (end: nat)
    requires pos < |str|
    ensures pos <= end <= |str|
    ensures delimiter !in str[pos..end] && (end < |str| ==> str[end] == delimiter)
  {
    end := pos;
    while end < |str| && str[end] != delimiter
      invariant pos <= end <= |str|
      invariant delimiter !in str[pos..end]
    {
      assert str[pos..end + 1] == str[pos..end] + [str[end]];
      end := end + 1;
    }
  }

  /**
   * split(output, str, delimiter): appends every getline piece of `str` to `output`, leaving
   * its earlier entries alone, and returns how many it appended.
   */
  method SplitByChar(output: StringVector, str: string, delimiter: char) returns (n: int)
    modifies output
    ensures output.items == old(output.items) + GetlinePieces(str, delimiter)
    ensures n == |GetlinePieces(str, delimiter)|
  {
    n := 0;
    ghost var done: seq<string> := [];
    var pos := 0;  // how much of the stream std::getline has consumed
    assert str[0..] == str;
    while pos < |str|
      invariant GetlineFrom(str, pos, done, delimiter)
      invariant output.items == old(output.items) + done
      invariant n == |done|
    {
      var end := GetlineEnd(str, pos, delimiter);
      var piece := str[pos..end];
      output.PushBack(piece);
      AppendAssociative(old(output.items), done, [piece]);
      var next := if end < |str| then end + 1 else end;
      GetlineStep(str, pos, end, next, delimiter, done, done + [piece]);
      done := done + [piece];
      n := n + 1;
      pos := next;
    }
    GetlineDone(str, pos, done, delimiter);
  }

  /** The getline loop has extracted `done`, the pieces before index `pos` of `str`. */
  predicate GetlineFrom(str: string, pos: nat, done: seq<string>, delimiter: char)
  {
    pos <= |str| && done + GetlinePieces(str[pos..], delimiter) == GetlinePieces(str, delimiter)
  }

  /**
   * One std::getline call: it extracts `str[pos..end]` and leaves the stream after the
   * delimiter, or at the end when there was none.
   */
  lemma {:induction false} GetlineStep(str: string, pos: nat, end: nat, next: nat, delimiter: char, done: seq<string>, done': seq<string>)
    requires GetlineFrom(str, pos, done, delimiter) && pos < |str| && pos <= end <= |str|
    requires delimiter !in str[pos..end] && (end < |str| ==> str[end] == delimiter)
    requires next == (if end < |str| then end + 1 else end) && done' == done + [str[pos..end]]
    ensures pos < next && GetlineFrom(str, next, done', delimiter)
  {
    GetlinePiecesStep(str, pos, end, delimiter);
    if end == |str| {
      assert str[next..] == [];
    }
    AppendAssociative(done, [str[pos..end]], GetlinePieces(str[next..], delimiter));
  }

  /** At the end of the stream the loop has extracted every piece. */
  lemma {:induction false} GetlineDone(str: string, pos: nat, done: seq<string>, delimiter: char)
    requires GetlineFrom(str, pos, done, delimiter) && pos >= |str|
    ensures done == GetlinePieces(str, delimiter)
  {
    assert str[pos..] == [];
    assert done + [] == done;
  }

  // ---------------------------------------------------------------- split on a string delimiter

  /** The text before each left-to-right, non-overlapping occurrence of `delimiter`. */
  function PiecesBefore(s: string, delimiter: string): seq<string>
    requires |delimiter| > 0
    decreases |s|
  {
    match Find(s, delimiter)
    case None => []
    case Some(i) => [s[..i]] + PiecesBefore(s[i + |delimiter|..], delimiter)
  }

  /** The text after the last occurrence of `delimiter` (all of `s` when there is none). */
  function AfterLastDelimiter(s: string, delimiter: string): string
    requires |delimiter| > 0
    decreases |s|
  {
    match Find(s, delimiter)
    case None => s
    case Some(i) => AfterLastDelimiter(s[i + |delimiter|..], delimiter)
  }

  /** Each piece followed by the delimiter, all concatenated. */
  function Terminated(pieces: seq<string>, delimiter: string): string
  {
    if pieces == [] then [] else pieces[0] + delimiter + Terminated(pieces[1..], delimiter)
  }

  /** What split(output, str, delimiter) appends: all of `s` when the delimiter is absent. */
  function SplitOnString(s: string, delimiter: string): seq<string>
    requires |delimiter| > 0
  {
    if Find(s, delimiter).None? then [s] else PiecesBefore(s, delimiter)
  }

  /** An occurrence splits the text into what precedes it, the delimiter and what follows. */
  lemma {:induction false} Decompose(s: string, delimiter: string, i: nat)
    requires OccursAt(s, delimiter, i)
    ensures s == s[..i] + delimiter + s[i + |delimiter|..]
  {
    assert s == s[..i] + s[i..i + |delimiter|] + s[i + |delimiter|..];
  }

  lemma {:induction false} TerminatedCons(piece: string, pieces: seq<string>, delimiter: string)
    ensures Terminated([piece] + pieces, delimiter) == piece + delimiter + Terminated(pieces, delimiter)
  {
    assert ([piece] + pieces)[1..] == pieces;
  }

  /**
   * The pieces, each terminated by the delimiter, followed by the text after the last
   * delimiter, rebuild the input; that last text holds no delimiter and is not among the pieces.
   */
  lemma {:induction false} SplitOnStringReassembles(s: string, delimiter: string)
    requires |delimiter| > 0
    ensures Terminated(PiecesBefore(s, delimiter), delimiter) + AfterLastDelimiter(s, delimiter) == s
    ensures Find(AfterLastDelimiter(s, delimiter), delimiter).None?
    decreases |s|
  {
    var found := Find(s, delimiter);
    if found.Some? {
      var i := found.value;
      var rest := s[i + |delimiter|..];
      SplitOnStringReassembles(rest, delimiter);
      PiecesBeforeFound(s, delimiter, i);
      var pieces := PiecesBefore(rest, delimiter);
      TerminatedCons(s[..i], pieces, delimiter);
      Decompose(s, delimiter, i);
      Reattach(s[..i], delimiter, Terminated(pieces, delimiter), AfterLastDelimiter(rest, delimiter), rest, s);
    }
  }

  /** The text before an occurrence, the delimiter, and a rebuilt rest give the whole text. */
  lemma {:induction false} Reattach(piece: string, delimiter: string, terminated: string, after: string, rest: string, s: string)
    requires terminated + after == rest && s == piece + delimiter + rest
    ensures piece + delimiter + terminated + after == s
  {
  }

  /** An occurrence inside a prefix is an occurrence in the whole text. */
  lemma {:induction false} OccursInPrefix(s: string, delimiter: string, n: nat, j: nat)
    requires n <= |s| && OccursAt(s[..n], delimiter, j)
    ensures OccursAt(s, delimiter, j) && j + |delimiter| <= n
  {
  }

  /** No piece contains the delimiter. */
  lemma {:induction false} PiecesBeforeDelimiterFree(s: string, delimiter: string)
    requires |delimiter| > 0
    ensures forall k :: 0 <= k < |PiecesBefore(s, delimiter)| ==> Find(PiecesBefore(s, delimiter)[k], delimiter).None?
    decreases |s|
  {
    match Find(s, delimiter)
    case None =>
    case Some(i) =>
      var piece := s[..i];
      if Find(piece, delimiter).Some? {
        OccursInPrefix(s, delimiter, i, Find(piece, delimiter).value);
        assert false;
      }
      PiecesBeforeDelimiterFree(s[i + |delimiter|..], delimiter);
  }

  /**
   * split(output, str, delimiter), for a non-empty delimiter: appends `str` itself when the
   * delimiter does not occur, else the text before each occurrence; returns the count appended.
   */
  method SplitByString(output: StringVector, inputString: string, delimiter: string) returns (n: int)
    requires |delimiter| > 0
    modifies output
    ensures output.items == old(output.items) + SplitOnString(inputString, delimiter)
    ensures n == |SplitOnString(inputString, delimiter)|
  {
    var str := inputString;
    n := 0;
    var splitPosition := Find(str, delimiter);
    if splitPosition.None? {
      output.PushBack(str);
      n := n + 1;
      return;
    }
    ghost var done: seq<string> := [];
    ghost var whole := PiecesBefore(inputString, delimiter);
    while splitPosition.Some?
      invariant splitPosition == Find(str, delimiter)
      invariant output.items == old(output.items) + done
      invariant done + PiecesBefore(str, delimiter) == whole
      invariant n == |done|
      decreases |str|
    {
      var piece := str[..splitPosition.value];
      var rest := str[splitPosition.value + |delimiter|..];
      output.PushBack(piece);
      AppendAssociative(old(output.items), done, [piece]);
      PiecesBeforeStep(str, delimiter, splitPosition.value, piece, rest, done, done + [piece], whole);
      done := done + [piece];
      str := rest;
      splitPosition := Find(str, delimiter);
      n := n + 1;
    }
    assert PiecesBefore(str, delimiter) == [];
    assert done + [] == done;
  }

  /** At a found delimiter: the piece before it, then the pieces of the text after it. */
  lemma {:induction false} PiecesBeforeFound(str: string, delimiter: string, i: nat)
    requires |delimiter| > 0 && Find(str, delimiter) == Some(i)
    ensures i + |delimiter| <= |str|
    ensures PiecesBefore(str, delimiter) == [str[..i]] + PiecesBefore(str[i + |delimiter|..], delimiter)
  {
  }

  /** One pass of the loop: the piece before the found delimiter, then the rest after it. */
  lemma {:induction false} PiecesBeforeStep(str: string, delimiter: string, i: nat, piece: string, rest: string,
                         done: seq<string>, done': seq<string>, whole: seq<string>)
    requires |delimiter| > 0 && Find(str, delimiter) == Some(i)
    requires piece == str[..i] && rest == str[i + |delimiter|..] && done' == done + [piece]
    requires done + PiecesBefore(str, delimiter) == whole
    ensures |rest| < |str|
    ensures done' + PiecesBefore(rest, delimiter) == whole
  {
    PiecesBeforeFound(str, delimiter, i);
    AppendAssociative(done, [piece], PiecesBefore(rest, delimiter));
  }

  // ---------------------------------------------------------------- split<Delimiter>

  /** The non-empty entries of `pieces`, in order. */
  function NonEmpty(pieces: seq<string>): (r: seq<string>)
    ensures forall k :: 0 <= k < |r| ==> r[k] != []
  {
    if pieces == [] then []
    else if pieces[0] == [] then NonEmpty(pieces[1..])
    else [pieces[0]] + NonEmpty(pieces[1..])
  }

  lemma {:induction false} NonEmptyKeepsFree(pieces: seq<string>, delimiter: char)
    requires forall k :: 0 <= k < |pieces| ==> delimiter !in pieces[k]
    ensures forall k :: 0 <= k < |NonEmpty(pieces)| ==> delimiter !in NonEmpty(pieces)[k]
    decreases |pieces|
  {
    if pieces != [] { NonEmptyKeepsFree(pieces[1..], delimiter); }
  }

  lemma {:induction false} NonEmptyOfNonEmpty(pieces: seq<string>)
    requires forall k :: 0 <= k < |pieces| ==> pieces[k] != []
    ensures NonEmpty(pieces) == pieces
    decreases |pieces|
  {
    if pieces != [] { NonEmptyOfNonEmpty(pieces[1..]); }
  }

  lemma {:induction false} NonEmptyAppend(xs: seq<string>, x: string)
    ensures NonEmpty(xs + [x]) == NonEmpty(xs) + (if x == [] then [] else [x])
  {
    if xs != [] {
      assert (xs + [x])[1..] == xs[1..] + [x];
      NonEmptyAppend(xs[1..], x);
    }
  }

  /** The non-empty getline pieces hold neither the empty string nor the delimiter. */
  lemma {:induction false} NonEmptyPiecesFree(str: string, delimiter: char)
    ensures forall k :: 0 <= k < |NonEmpty(GetlinePieces(str, delimiter))| ==>
      NonEmpty(GetlinePieces(str, delimiter))[k] != [] && delimiter !in NonEmpty(GetlinePieces(str, delimiter))[k]
  {
    GetlinePiecesDelimiterFree(str, delimiter);
    NonEmptyKeepsFree(GetlinePieces(str, delimiter), delimiter);
  }

  /**
   * split<Delimiter>(str): the non-empty getline pieces in order of occurrence; none holds
   * the delimiter.
   */
  method SplitNonEmpty(str: string, delimiter: char) returns (pieces: seq<string>)
    ensures pieces == NonEmpty(GetlinePieces(str, delimiter))
    ensures forall k :: 0 <= k < |pieces| ==> pieces[k] != [] && delimiter !in pieces[k]
  {
    pieces := [];
    ghost var done: seq<string> := [];
    var pos := 0;
    assert str[0..] == str;
    while pos < |str|
      invariant GetlineFrom(str, pos, done, delimiter)
      invariant pieces == NonEmpty(done)
    {
      var end := GetlineEnd(str, pos, delimiter);
      var s := str[pos..end];
      NonEmptyAppend(done, s);
      if |s| > 0 {
        pieces := pieces + [s];
      }
      var next := if end < |str| then end + 1 else end;
      GetlineStep(str, pos, end, next, delimiter, done, done + [s]);
      done := done + [s];
      pos := next;
    }
    GetlineDone(str, pos, done, delimiter);
    NonEmptyPiecesFree(str, delimiter);
  }

  /** split<Delimiter> of a join of non-empty, delimiter-free pieces gives the pieces back. */
  lemma {:induction false} SplitNonEmptyOfJoin(pieces: seq<string>, delimiter: char)
    requires forall k :: 0 <= k < |pieces| ==> pieces[k] != [] && delimiter !in pieces[k]
    ensures NonEmpty(GetlinePieces(Join(pieces, delimiter), delimiter)) == pieces
  {
    GetlineOfJoin(pieces, delimiter);
    NonEmptyOfNonEmpty(pieces);
  }
}
