/**
 * The variadic `TStringFormat(formatting, first, args...)` of ApplicationUtilities.h: every
 * `{digits}` token whose number is the smallest in the string is replaced by the text of the
 * next argument, and the result goes round again with the remaining arguments.
 *
 * The regular expression `\{[0-9]+\}` is a hand-written scanner here; the arguments are taken
 * as the text `toStdString` gives them.
 */
module Format {
  import opened Results
  import opened StringUtil

  /** The largest value std::stoi returns; a bigger token value makes it throw std::out_of_range. */
  const INT_MAX: nat := 0x7fff_ffff

  /** size_t arithmetic wraps modulo 2^64. */
  const SIZE_T_MODULUS: nat := 0x1_0000_0000_0000_0000

  /** What TStringFormat throws. */
  datatype FormatError =
    | NoToken           // arguments remain but the string holds no token (std::runtime_error)
    | ValueOutOfRange   // std::stoi of a token value above INT_MAX (std::out_of_range)
    | SubstrOutOfRange  // std::string::substr from past the end (std::out_of_range)

  // ---------------------------------------------------------------- the token scanner

  /** A whole token: what `\{[0-9]+\}` matches. */
  predicate IsTokenText(w: string)
  {
    |w| >= 3 && w[0] == '{' && w[|w| - 1] == '}' && AllDigits(w[1..|w| - 1])
  }

  /** Where the run of decimal digits that starts at index `i` of `s` ends. */
  function DigitsEnd(s: string, i: nat): (j: nat)
    requires i <= |s|
    ensures i <= j <= |s|
    decreases |s| - i
  {
    if i < |s| && IsDigit(s[i]) then DigitsEnd(s, i + 1) else i
  }

  /** The run is all digits, and what follows it is not a digit. */
  lemma {:induction false} DigitsEndIsRunEnd(s: string, i: nat)
    requires i <= |s|
    ensures forall k :: i <= k < DigitsEnd(s, i) ==> IsDigit(s[k])
    ensures DigitsEnd(s, i) < |s| ==> !IsDigit(s[DigitsEnd(s, i)])
    decreases |s| - i
  {
    if i < |s| && IsDigit(s[i]) {
      DigitsEndIsRunEnd(s, i + 1);
    }
  }

  /** The length of the token that starts at index `p` of `s`, or 0 when none starts there. */
  function TokenLengthAt(s: string, p: nat): (r: nat)
    requires p <= |s|
    ensures r == 0 || (3 <= r && p + r <= |s|)
  {
    if p < |s| && s[p] == '{' then
      var j := DigitsEnd(s, p + 1);
      if p + 1 < j < |s| && s[j] == '}' then j + 1 - p else 0
    else 0
  }

  /**
   * `TokenLengthAt` is the regular expression's match at index `p`: a token of that length
   * starts there, and no token of another length does. The match is unique because the digits
   * cannot go on past the closing brace.
   */
  lemma {:induction false} TokenLengthIsTheMatch(s: string, p: nat, n: nat)
    requires p + n <= |s|
    ensures IsTokenText(s[p..p + n]) <==> n == TokenLengthAt(s, p) > 0
  {
    var w := s[p..p + n];
    if p < |s| {
      DigitsEndIsRunEnd(s, p + 1);
    }
    if IsTokenText(w) {
      assert s[p] == w[0] && s[p + n - 1] == w[n - 1];
      forall k | p + 1 <= k < p + n - 1 ensures IsDigit(s[k]) {
        assert w[1..n - 1][k - p - 1] == w[k - p] == s[k];
      }
      assert !IsDigit(s[p + n - 1]);
    }
    if n == TokenLengthAt(s, p) > 0 {
      var digits := w[1..n - 1];
      forall k | 0 <= k < |digits| ensures IsDigit(digits[k]) {
        assert digits[k] == w[k + 1] == s[p + 1 + k];
      }
    }
  }

  /** The number the digits `s[i..j]` spell, most significant first. */
  function DigitsValue(s: string, i: nat, j: nat): nat
    requires i <= j <= |s|
    decreases j - i
  {
    if j == i then 0
    else 10 * DigitsValue(s, i, j - 1) + (if IsDigit(s[j - 1]) then s[j - 1] as int - '0' as int else 0)
  }

  /** On digits, `DigitsValue` is the decimal value of the slice. */
  lemma {:induction false} DigitsValueIsDecimal(s: string, i: nat, j: nat)
    requires i <= j <= |s| && AllDigits(s[i..j])
    ensures DigitsValue(s, i, j) == DecimalValue(s[i..j])
    decreases j - i
  {
    if j > i {
      assert s[i..j][..j - i - 1] == s[i..j - 1];
      assert s[i..j][j - i - 1] == s[j - 1];
      DigitsValueIsDecimal(s, i, j - 1);
    }
  }

  /** The number inside the token at index `p` of `s`, as std::stoi reads it. */
  function TokenValueAt(s: string, p: nat): nat
    requires p <= |s| && TokenLengthAt(s, p) > 0
  {
    DigitsValue(s, p + 1, p + TokenLengthAt(s, p) - 1)
  }

  /** A token starts at index `p` of `s`. */
  predicate TokenAt(s: string, p: nat)
  {
    p <= |s| && TokenLengthAt(s, p) > 0
  }

  /**
   * std::regex_search over `s[from..]`: where the leftmost token at or after `from` starts,
   * or none.
   */
  function FirstTokenFrom(s: string, from: nat): (r: Option<nat>)
    requires from <= |s|
    ensures r.Some? ==> from <= r.value && TokenAt(s, r.value)
    decreases |s| - from
  {
    if TokenLengthAt(s, from) > 0 then Some(from)
    else if from == |s| then None
    else FirstTokenFrom(s, from + 1)
  }

  /** The search finds the leftmost token, and finds none only when there is none. */
  lemma {:induction false} FirstTokenFromIsLeftmost(s: string, from: nat)
    requires from <= |s|
    ensures FirstTokenFrom(s, from).Some? ==>
      forall q: nat :: from <= q < FirstTokenFrom(s, from).value ==> !TokenAt(s, q)
    ensures FirstTokenFrom(s, from).None? ==> forall q: nat :: from <= q ==> !TokenAt(s, q)
    decreases |s| - from
  {
    if TokenLengthAt(s, from) == 0 && from < |s| {
      FirstTokenFromIsLeftmost(s, from + 1);
    }
  }

  /** A token the scanning loop records: its number, where it starts and how long it is. */
  datatype Token = Token(value: nat, pos: nat, len: nat)

  /**
   * The tokens the scanning loop meets in `s` from index `from` on. Each search runs over the
   * text after the previous match (the match's suffix), so the list runs left to right.
   */
  function TokensFrom(s: string, from: nat): seq<Token>
    requires from <= |s|
    decreases |s| - from
  {
    match FirstTokenFrom(s, from)
    case None => []
    case Some(at) =>
      var len := TokenLengthAt(s, at);
      [Token(TokenValueAt(s, at), at, len)] + TokensFrom(s, at + len)
  }

  /** Every recorded token really is one, at its recorded place and with its recorded length. */
  predicate Genuine(s: string, tokens: seq<Token>)
  {
    forall k :: 0 <= k < |tokens| ==>
      TokenAt(s, tokens[k].pos) && TokenLengthAt(s, tokens[k].pos) == tokens[k].len &&
      tokens[k].value == TokenValueAt(s, tokens[k].pos)
  }

  /** The tokens lie inside `s[from..]`, left to right, none overlapping the next. */
  predicate Ordered(s: string, tokens: seq<Token>, from: nat)
  {
    from <= |s| &&
    (forall k :: 0 <= k < |tokens| ==> from <= tokens[k].pos && tokens[k].pos + tokens[k].len <= |s|) &&
    (forall j, k :: 0 <= j < k < |tokens| ==> tokens[j].pos + tokens[j].len <= tokens[k].pos)
  }

  /** The scan records genuine tokens. */
  lemma {:induction false} TokensFromGenuine(s: string, from: nat)
    requires from <= |s|
    ensures Genuine(s, TokensFrom(s, from))
    decreases |s| - from
  {
    if FirstTokenFrom(s, from).Some? {
      var at := FirstTokenFrom(s, from).value;
      var len := TokenLengthAt(s, at);
      TokensFromGenuine(s, at + len);
      var tokens := TokensFrom(s, from);
      var rest := TokensFrom(s, at + len);
      assert tokens == [Token(TokenValueAt(s, at), at, len)] + rest;
      forall k | 0 <= k < |tokens|
        ensures TokenAt(s, tokens[k].pos) && TokenLengthAt(s, tokens[k].pos) == tokens[k].len &&
          tokens[k].value == TokenValueAt(s, tokens[k].pos)
      {
        if k > 0 {
          assert tokens[k] == rest[k - 1];
        }
      }
    }
  }

  /** The scan records tokens left to right, none overlapping the next. */
  lemma {:induction false} TokensFromOrdered(s: string, from: nat)
    requires from <= |s|
    ensures Ordered(s, TokensFrom(s, from), from)
    decreases |s| - from
  {
    if FirstTokenFrom(s, from).Some? {
      var at := FirstTokenFrom(s, from).value;
      var len := TokenLengthAt(s, at);
      TokensFromOrdered(s, at + len);
      var tokens := TokensFrom(s, from);
      var rest := TokensFrom(s, at + len);
      assert tokens == [Token(TokenValueAt(s, at), at, len)] + rest;
      forall k | 0 <= k < |tokens|
        ensures from <= tokens[k].pos && tokens[k].pos + tokens[k].len <= |s|
      {
        if k > 0 {
          assert tokens[k] == rest[k - 1];
        }
      }
      forall j, k | 0 <= j < k < |tokens|
        ensures tokens[j].pos + tokens[j].len <= tokens[k].pos
      {
        assert tokens[k] == rest[k - 1];
        if j > 0 {
          assert tokens[j] == rest[j - 1];
        }
      }
    }
  }

  /** No token starts inside another: its inner characters are digits and a closing brace. */
  lemma {:induction false} NoTokenInside(s: string, p: nat, q: nat)
    requires TokenAt(s, p) && p < q < p + TokenLengthAt(s, p)
    ensures !TokenAt(s, q)
  {
    var w := s[p..p + TokenLengthAt(s, p)];
    DigitsEndIsRunEnd(s, p + 1);
    assert s[q] == w[q - p];
    if q - p < |w| - 1 {
      assert w[1..|w| - 1][q - p - 1] == w[q - p];
    }
  }

  /** The scan misses no token: every token at or after `from` is recorded. */
  lemma {:induction false} TokensFromComplete(s: string, from: nat, q: nat)
    requires from <= q && TokenAt(s, q)
    ensures exists k :: 0 <= k < |TokensFrom(s, from)| && TokensFrom(s, from)[k].pos == q
    decreases |s| - from
  {
    FirstTokenFromIsLeftmost(s, from);
    var at := FirstTokenFrom(s, from).value;
    var len := TokenLengthAt(s, at);
    var tokens := TokensFrom(s, from);
    var rest := TokensFrom(s, at + len);
    assert tokens == [Token(TokenValueAt(s, at), at, len)] + rest;
    if q != at {
      if q < at + len {
        NoTokenInside(s, at, q);
      }
      TokensFromComplete(s, at + len, q);
      var k :| 0 <= k < |rest| && rest[k].pos == q;
      assert tokens[k + 1] == rest[k];
    } else {
      assert tokens[0].pos == q;
    }
  }

  // ---------------------------------------------------------------- the smallest-valued group

  /**
   * The bookkeeping of the scanning loop: a smaller number starts a new group, an equal one
   * joins the group, a larger one is passed over. The empty group stands for the -1 sentinel.
   */
  function Track(group: seq<Token>, t: Token): seq<Token>
  {
    if group == [] || t.value < group[0].value then [t]
    else if t.value == group[0].value then group + [t]
    else group
  }

  /** The group the scanning loop has built once it has met `tokens`. */
  function SmallestGroup(tokens: seq<Token>): (group: seq<Token>)
    ensures group == [] <==> tokens == []
    decreases |tokens|
  {
    if tokens == [] then [] else Track(SmallestGroup(tokens[..|tokens| - 1]), tokens[|tokens| - 1])
  }

  /** The smallest token number in `tokens`. */
  function MinValue(tokens: seq<Token>): (m: nat)
    requires tokens != []
    ensures exists k :: 0 <= k < |tokens| && tokens[k].value == m
    ensures forall k :: 0 <= k < |tokens| ==> m <= tokens[k].value
    decreases |tokens|
  {
    var last := tokens[|tokens| - 1];
    if |tokens| == 1 then last.value
    else
      var front := tokens[..|tokens| - 1];
      assert forall k :: 0 <= k < |front| ==> front[k] == tokens[k];
      var m := MinValue(front);
      if last.value < m then last.value else m
  }

  /** The tokens numbered `v`, in their order. */
  function WithValue(tokens: seq<Token>, v: nat): (r: seq<Token>)
    ensures forall k :: 0 <= k < |r| ==> r[k].value == v && r[k] in tokens
    decreases |tokens|
  {
    if tokens == [] then []
    else
      var last := tokens[|tokens| - 1];
      var front := tokens[..|tokens| - 1];
      assert forall x :: x in front ==> x in tokens;
      WithValue(front, v) + (if last.value == v then [last] else [])
  }

  lemma {:induction false} WithValueAbsent(tokens: seq<Token>, v: nat)
    requires forall k :: 0 <= k < |tokens| ==> tokens[k].value != v
    ensures WithValue(tokens, v) == []
    decreases |tokens|
  {
    if tokens != [] {
      WithValueAbsent(tokens[..|tokens| - 1], v);
    }
  }

  /**
   * Once the scan is over, the group holds exactly the tokens with the smallest number, in
   * their order in the string.
   */
  lemma {:induction false} SmallestGroupIsMinimal(tokens: seq<Token>)
    requires tokens != []
    ensures SmallestGroup(tokens) == WithValue(tokens, MinValue(tokens))
    decreases |tokens|
  {
    var last := tokens[|tokens| - 1];
    var front := tokens[..|tokens| - 1];
    if front == [] {
      assert WithValue(tokens, last.value) == WithValue(front, last.value) + [last];
    } else {
      SmallestGroupIsMinimal(front);
      var m := MinValue(front);
      var group := SmallestGroup(front);
      assert group[0].value == m;
      if last.value < m {
        WithValueAbsent(front, last.value);
      }
    }
  }

  // ---------------------------------------------------------------- the substitution loop

  /** A size_t result: arithmetic modulo 2^64. */
  function SizeT(x: int): nat
  {
    if 0 <= x < SIZE_T_MODULUS then x else x % SIZE_T_MODULUS
  }

  /** std::string::substr(0, n): never throws; keeps at most `n` characters. */
  function SubstrPrefix(s: string, n: nat): (r: string)
    ensures r <= s && |r| == (if n < |s| then n else |s|)
  {
    if n < |s| then s[..n] else s
  }

  /** std::string::substr(p): the text from `p` on; throws std::out_of_range when `p` > size. */
  function SubstrFrom(s: string, p: nat): (r: Option<string>)
    ensures r.Some? <==> p <= |s|
    ensures r.Some? ==> s == s[..p] + r.value
  {
    if p <= |s| then Some(s[p..]) else None
  }

  /**
   * Where the loop looks for the `index`-th token of the group once the earlier ones are
   * replaced: it takes each earlier token to be as long as this one.
   */
  function AdjustedPosition(t: Token, index: nat, argLength: nat): nat
  {
    var lengthOfTokenBracesRemoved := SizeT(index * t.len);
    var lengthOfStringAdded := SizeT(index * argLength);
    SizeT(t.pos + lengthOfStringAdded - lengthOfTokenBracesRemoved)
  }

  /** The for loop from its `index`-th pass on; None when a substr throws. */
  function ReplaceGroupFrom(current: string, group: seq<Token>, arg: string, index: nat): Option<string>
    requires index <= |group|
    decreases |group| - index
  {
    if index == |group| then Some(current)
    else
      var t := group[index];
      var at := AdjustedPosition(t, index, |arg|);
      match SubstrFrom(current, SizeT(at + t.len))
      case None => None
      case Some(tail) => ReplaceGroupFrom(SubstrPrefix(current, at) + arg + tail, group, arg, index + 1)
  }

  /** What the loop is for: `s` from `from` on, each token of `group` replaced by `arg`. */
  function Splice(s: string, group: seq<Token>, arg: string, from: nat): string
    requires Ordered(s, group, from)
    decreases |group|
  {
    if group == [] then s[from..]
    else
      var t := group[0];
      OrderedTail(s, group, from);
      s[from..t.pos] + arg + Splice(s, group[1..], arg, t.pos + t.len)
  }

  lemma {:induction false} OrderedTail(s: string, group: seq<Token>, from: nat)
    requires Ordered(s, group, from) && group != []
    ensures Ordered(s, group[1..], group[0].pos + group[0].len)
  {
    assert forall k :: 0 < k < |group| ==> group[k] == group[1..][k - 1];
  }

  /** The sum of the token lengths. */
  function TotalLength(group: seq<Token>): nat
  {
    if group == [] then 0 else group[0].len + TotalLength(group[1..])
  }

  /** Each replacement trades a token for the argument: the length moves by their difference. */
  lemma {:induction false} SpliceLength(s: string, group: seq<Token>, arg: string, from: nat)
    requires Ordered(s, group, from)
    ensures |Splice(s, group, arg, from)| + TotalLength(group) == |s| - from + |group| * |arg|
    decreases |group|
  {
    if group != [] {
      var t := group[0];
      OrderedTail(s, group, from);
      SpliceLength(s, group[1..], arg, t.pos + t.len);
      assert |group| * |arg| == (|group| - 1) * |arg| + |arg|;
    }
  }

  /** All tokens of the group are spelled with the same number of characters. */
  predicate SameLength(group: seq<Token>, len: nat)
  {
    forall k :: 0 <= k < |group| ==> group[k].len == len
  }

  lemma {:induction false} TotalLengthSame(group: seq<Token>, len: nat)
    requires SameLength(group, len)
    ensures TotalLength(group) == |group| * len
  {
    if group != [] {
      TotalLengthSame(group[1..], len);
      assert |group| * len == (|group| - 1) * len + len;
    }
  }

  lemma {:induction false} MulMonotone(i: nat, n: nat, a: nat)
    requires i <= n
    ensures i * a <= n * a
  {
  }

  /**
   * With equally long tokens and sizes below 2^64, nothing wraps: the adjusted position is the
   * token's place in the text built so far, and the tail starts right after the token there.
   */
  lemma {:induction false} AdjustedPositionExact(t: Token, index: nat, groupSize: nat, arg: string, len: nat,
                              sizeOfS: nat, doneLength: nat, e: nat)
    requires index < groupSize && t.len == len && e <= t.pos && t.pos + len <= sizeOfS
    requires e >= index * len && doneLength == e + index * |arg| - index * len
    requires sizeOfS + groupSize * |arg| < SIZE_T_MODULUS
    ensures AdjustedPosition(t, index, |arg|) == doneLength + t.pos - e
    ensures SizeT(AdjustedPosition(t, index, |arg|) + len) == doneLength + t.pos - e + len
  {
    var added := index * |arg|;
    var removed := index * len;
    assert added <= groupSize * |arg| by {
      MulMonotone(index, groupSize, |arg|);
    }
    assert SizeT(added) == added && SizeT(removed) == removed;
    assert AdjustedPosition(t, index, |arg|) == SizeT(t.pos + added - removed);
  }

  /** One pass of the for loop, when its substr does not throw. */
  lemma {:induction false} ReplaceGroupStep(current: string, group: seq<Token>, arg: string, index: nat,
                         at: nat, tailStart: nat, next: string)
    requires index < |group|
    requires at == AdjustedPosition(group[index], index, |arg|) && tailStart == SizeT(at + group[index].len)
    requires tailStart <= |current|
    requires next == SubstrPrefix(current, at) + arg + current[tailStart..]
    ensures ReplaceGroupFrom(current, group, arg, index) == ReplaceGroupFrom(next, group, arg, index + 1)
  {
    assert SubstrFrom(current, tailStart) == Some(current[tailStart..]);
  }

  /**
   * The pass's text: with `current` the built part followed by the original text from `e` on,
   * the pass leaves the built part, the original text up to the token, the argument, the rest.
   */
  lemma {:induction false} ReplaceGroupAgreesText(s: string, group: seq<Token>, arg: string, index: nat, done: string, e: nat,
                               current: string, next: string)
    requires index < |group| && e <= group[index].pos && group[index].pos + group[index].len <= |s|
    requires AdjustedPosition(group[index], index, |arg|) == |done| + group[index].pos - e
    requires SizeT(AdjustedPosition(group[index], index, |arg|) + group[index].len) ==
      |done| + group[index].pos - e + group[index].len
    requires current == done + s[e..]
    requires next == done + s[e..group[index].pos] + arg + s[group[index].pos + group[index].len..]
    ensures ReplaceGroupFrom(current, group, arg, index) == ReplaceGroupFrom(next, group, arg, index + 1)
  {
    var t := group[index];
    var at := AdjustedPosition(t, index, |arg|);
    assert SubstrPrefix(current, at) == done + s[e..t.pos];
    assert current[at + t.len..] == s[t.pos + t.len..];
    ReplaceGroupStep(current, group, arg, index, AdjustedPosition(group[index], index, |arg|),
                     SizeT(AdjustedPosition(group[index], index, |arg|) + group[index].len), next);
  }

  /** The reference splice takes the same step. */
  lemma {:induction false} SpliceStep(s: string, group: seq<Token>, arg: string, index: nat, done: string, e: nat)
    requires index < |group| && Ordered(s, group[index..], e)
    ensures Ordered(s, group[index + 1..], group[index].pos + group[index].len)
    ensures done + Splice(s, group[index..], arg, e) ==
      done + s[e..group[index].pos] + arg + Splice(s, group[index + 1..], arg, group[index].pos + group[index].len)
  {
    var rest := group[index..];
    assert rest[0] == group[index];
    OrderedTail(s, rest, e);
    assert rest[1..] == group[index + 1..];
    Regroup(done, s[e..group[index].pos], arg, Splice(s, group[index + 1..], arg, group[index].pos + group[index].len));
  }

  /** The bookkeeping of lengths moves on by one token. */
  lemma {:induction false} LengthsStep(index: nat, len: nat, argLength: nat, doneLength: nat, e: nat, pos: nat)
    requires e <= pos && e >= index * len && doneLength == e + index * argLength - index * len
    ensures pos + len >= (index + 1) * len
    ensures doneLength + pos - e + argLength == pos + len + (index + 1) * argLength - (index + 1) * len
  {
    assert (index + 1) * len == index * len + len;
    assert (index + 1) * argLength == index * argLength + argLength;
  }

  /** The invariant of the for loop when all tokens of the group have length `len`. */
  lemma {:induction false} ReplaceGroupAgreesFrom(s: string, group: seq<Token>, arg: string, len: nat,
                                                   index: nat, done: string, e: nat)
    requires index <= |group| && Ordered(s, group[index..], e) && SameLength(group, len)
    requires e >= index * len && |done| == e + index * |arg| - index * len
    requires |s| + |group| * |arg| < SIZE_T_MODULUS
    ensures ReplaceGroupFrom(done + s[e..], group, arg, index) == Some(done + Splice(s, group[index..], arg, e))
    decreases |group| - index
  {
    if index == |group| {
      assert group[index..] == [];
    } else {
      var t := group[index];
      assert group[index..][0] == t;
      AdjustedPositionExact(t, index, |group|, arg, len, |s|, |done|, e);
      ReplaceGroupAgreesText(s, group, arg, index, done, e, done + s[e..], done + s[e..t.pos] + arg + s[t.pos + len..]);
      SpliceStep(s, group, arg, index, done, e);
      LengthsStep(index, len, |arg|, |done|, e, t.pos);
      ReplaceGroupAgreesFrom(s, group, arg, len, index + 1, done + s[e..t.pos] + arg, t.pos + len);
    }
  }

  lemma {:induction false} Regroup(a: string, b: string, c: string, d: string)
    ensures a + b + c + d == a + (b + c + d)
  {
  }

  /**
   * When every token of the group is spelled with the same length, the position arithmetic is
   * right: the loop replaces each token by the argument and keeps the text before, between and
   * after them in order.
   */
  lemma {:induction false} AsWrittenAgreesWithSplice(s: string, group: seq<Token>, arg: string, len: nat)
    requires Ordered(s, group, 0) && SameLength(group, len)
    requires |s| + |group| * |arg| < SIZE_T_MODULUS
    ensures ReplaceGroupFrom(s, group, arg, 0) == Some(Splice(s, group, arg, 0))
    ensures |Splice(s, group, arg, 0)| == |s| + |group| * (|arg| - len)
  {
    var done: string := [];
    assert group[0..] == group && done + s[0..] == s;
    ReplaceGroupAgreesFrom(s, group, arg, len, 0, done, 0);
    assert done + Splice(s, group, arg, 0) == Splice(s, group, arg, 0);
    SpliceLength(s, group, arg, 0);
    TotalLengthSame(group, len);
  }

  /** Keeping only the tokens numbered `v` keeps them in order and apart. */
  lemma {:induction false} WithValueOrdered(s: string, tokens: seq<Token>, from: nat, v: nat)
    requires Ordered(s, tokens, from)
    ensures Ordered(s, WithValue(tokens, v), from)
    decreases |tokens|
  {
    if tokens != [] {
      var last := tokens[|tokens| - 1];
      var front := tokens[..|tokens| - 1];
      assert forall k :: 0 <= k < |front| ==> front[k] == tokens[k];
      WithValueOrdered(s, front, from, v);
      var kept := WithValue(front, v);
      if last.value == v {
        var r := kept + [last];
        forall j | 0 <= j < |kept| ensures kept[j].pos + kept[j].len <= last.pos {
          assert kept[j] in front;
          var i :| 0 <= i < |front| && front[i] == kept[j];
          assert tokens[i] == kept[j];
        }
        assert forall k :: 0 <= k < |kept| ==> r[k] == kept[k];
      }
    }
  }

  // ---------------------------------------------------------------- TStringFormat

  /** No token number exceeds what std::stoi can return. */
  predicate InRange(tokens: seq<Token>)
  {
    forall k :: 0 <= k < |tokens| ==> tokens[k].value <= INT_MAX
  }

  /**
   * What TStringFormat(formatting, args...) returns or throws, following the code as written.
   * The string is cut at its first NUL on every round, since each round starts from a
   * `const char *`; with no arguments left it is returned as it stands.
   */
  function Format(formatting: string, args: seq<string>): (r: Result<string, FormatError>)
    ensures r.Success? ==> '\0' !in r.value
    decreases |args|
  {
    var s := CString(formatting);
    if args == [] then Success(s)
    else
      var tokens := TokensFrom(s, 0);
      if !InRange(tokens) then Failure(ValueOutOfRange)
      else if tokens == [] then Failure(NoToken)
      else
        match ReplaceGroupFrom(s, SmallestGroup(tokens), args[0], 0)
        case None => Failure(SubstrOutOfRange)
        case Some(next) => Format(next, args[1..])
  }

  /** The group of one round lies in order inside its string. */
  lemma {:induction false} GroupOrdered(s: string)
    requires TokensFrom(s, 0) != []
    ensures Ordered(s, SmallestGroup(TokensFrom(s, 0)), 0)
  {
    var tokens := TokensFrom(s, 0);
    TokensFromOrdered(s, 0);
    SmallestGroupIsMinimal(tokens);
    WithValueOrdered(s, tokens, 0, MinValue(tokens));
  }

  /**
   * What the code evidently means to do: each round replaces every smallest-numbered token,
   * whatever its spelling, and keeps the text around the tokens.
   */
  function FormatIntended(formatting: string, args: seq<string>): (r: Result<string, FormatError>)
    ensures r.Success? ==> '\0' !in r.value
    decreases |args|
  {
    var s := CString(formatting);
    if args == [] then Success(s)
    else
      var tokens := TokensFrom(s, 0);
      if !InRange(tokens) then Failure(ValueOutOfRange)
      else if tokens == [] then Failure(NoToken)
      else
        GroupOrdered(s);
        FormatIntended(Splice(s, SmallestGroup(tokens), args[0], 0), args[1..])
  }

  /** The scan at a found token: that token, then the scan from the end of its match. */
  lemma {:induction false} TokensFromFound(s: string, from: nat)
    requires from <= |s| && FirstTokenFrom(s, from).Some?
    ensures TokensFrom(s, from) ==
      [Token(TokenValueAt(s, FirstTokenFrom(s, from).value), FirstTokenFrom(s, from).value,
             TokenLengthAt(s, FirstTokenFrom(s, from).value))] +
      TokensFrom(s, FirstTokenFrom(s, from).value + TokenLengthAt(s, FirstTokenFrom(s, from).value))
  {
  }

  /** A pass whose substr throws ends the loop with the exception. */
  lemma {:induction false} ReplaceGroupThrows(current: string, group: seq<Token>, arg: string, index: nat, at: nat, tailStart: nat)
    requires index < |group|
    requires at == AdjustedPosition(group[index], index, |arg|) && tailStart == SizeT(at + group[index].len)
    requires tailStart > |current|
    ensures ReplaceGroupFrom(current, group, arg, index) == None
  {
    assert SubstrFrom(current, tailStart) == None;
  }

  /** One round of `Format` once the scan and the loop are done. */
  lemma {:induction false} FormatRound(formatting: string, args: seq<string>, outcome: Option<string>)
    requires args != [] && TokensFrom(CString(formatting), 0) != [] && InRange(TokensFrom(CString(formatting), 0))
    requires outcome == ReplaceGroupFrom(CString(formatting), SmallestGroup(TokensFrom(CString(formatting), 0)), args[0], 0)
    ensures outcome.None? ==> Format(formatting, args) == Failure(SubstrOutOfRange)
    ensures outcome.Some? ==> Format(formatting, args) == Format(outcome.value, args[1..])
  {
  }

  /** A last round that the loop completes: its string, cut at its first NUL. */
  lemma {:induction false} LastRound(formatting: string, arg: string, next: string)
    requires '\0' !in formatting && '\0' !in next
    requires TokensFrom(formatting, 0) != [] && InRange(TokensFrom(formatting, 0))
    requires ReplaceGroupFrom(formatting, SmallestGroup(TokensFrom(formatting, 0)), arg, 0) == Some(next)
    ensures Format(formatting, [arg]) == Success(next)
  {
    CStringOfNulFree(formatting);
    CStringOfNulFree(next);
    FormatRound(formatting, [arg], Some(next));
    assert [arg][1..] == [];
  }

  /** A last round of `FormatIntended`. */
  lemma {:induction false} LastIntendedRound(formatting: string, arg: string, next: string)
    requires '\0' !in formatting && '\0' !in next
    requires TokensFrom(formatting, 0) != [] && InRange(TokensFrom(formatting, 0))
    requires Ordered(formatting, SmallestGroup(TokensFrom(formatting, 0)), 0)
    requires Splice(formatting, SmallestGroup(TokensFrom(formatting, 0)), arg, 0) == next
    ensures FormatIntended(formatting, [arg]) == Success(next)
  {
    CStringOfNulFree(formatting);
    CStringOfNulFree(next);
    IntendedRound(formatting, [arg]);
    assert [arg][1..] == [];
  }

  /** One round of `FormatIntended`. */
  lemma {:induction false} IntendedRound(formatting: string, args: seq<string>)
    requires args != [] && TokensFrom(CString(formatting), 0) != [] && InRange(TokensFrom(CString(formatting), 0))
    ensures Ordered(CString(formatting), SmallestGroup(TokensFrom(CString(formatting), 0)), 0)
    ensures FormatIntended(formatting, args) ==
      FormatIntended(Splice(CString(formatting), SmallestGroup(TokensFrom(CString(formatting), 0)), args[0], 0), args[1..])
  {
    GroupOrdered(CString(formatting));
  }

  /** The group after one more token is the tracked group. */
  lemma {:induction false} SmallestGroupSnoc(seen: seq<Token>, t: Token)
    ensures SmallestGroup(seen + [t]) == Track(SmallestGroup(seen), t)
  {
    assert (seen + [t])[..|seen|] == seen;
  }

  /** The scanning loop has recorded `seen`, the tokens before index `consumed`. */
  predicate ScannedUpTo(s: string, consumed: nat, seen: seq<Token>)
  {
    consumed <= |s| && seen + TokensFrom(s, consumed) == TokensFrom(s, 0)
  }

  /** One pass of the scanning loop: the token found is the next one the scan lists. */
  lemma {:induction false} ScanStep(s: string, consumed: nat, seen: seq<Token>, t: Token, next: nat, seen': seq<Token>)
    requires ScannedUpTo(s, consumed, seen) && FirstTokenFrom(s, consumed) == Some(t.pos)
    requires t == Token(TokenValueAt(s, t.pos), t.pos, TokenLengthAt(s, t.pos))
    requires next == t.pos + t.len && seen' == seen + [t]
    ensures consumed < next <= |s|
    ensures ScannedUpTo(s, next, seen')
    ensures TokensFrom(s, 0)[|seen|] == t
  {
    TokensFromFound(s, consumed);
    AppendAssociative(seen, [t], TokensFrom(s, next));
    assert (seen + [t] + TokensFrom(s, next))[|seen|] == t;
  }

  /** A scan with no token left has recorded them all. */
  lemma {:induction false} ScanDone(s: string, consumed: nat, seen: seq<Token>)
    requires ScannedUpTo(s, consumed, seen) && FirstTokenFrom(s, consumed).None?
    ensures seen == TokensFrom(s, 0)
  {
    assert TokensFrom(s, consumed) == [];
    assert seen + [] == seen;
  }

  /**
   * The scanning loop from index `consumed` of `s` on, with `group` the smallest-numbered
   * group so far: it stops with the group when no token is left, and throws at a token whose
   * number std::stoi cannot hold.
   */
  function ScanFrom(s: string, consumed: nat, group: seq<Token>): Result<seq<Token>, FormatError>
    requires consumed <= |s|
    decreases |s| - consumed
  {
    match FirstTokenFrom(s, consumed)
    case None => Success(group)
    case Some(at) =>
      var t := Token(TokenValueAt(s, at), at, TokenLengthAt(s, at));
      if t.value > INT_MAX then Failure(ValueOutOfRange)
      else ScanFrom(s, at + t.len, Track(group, t))
  }

  /**
   * Once the tokens before `consumed` are all in range and tracked, the rest of the scan
   * throws exactly when some token of the whole string is out of range, and otherwise ends
   * with the smallest-numbered group of all of them.
   */
  lemma {:induction false} ScanFromMeaning(s: string, consumed: nat, seen: seq<Token>)
    requires ScannedUpTo(s, consumed, seen) && InRange(seen)
    ensures !InRange(TokensFrom(s, 0)) ==> ScanFrom(s, consumed, SmallestGroup(seen)) == Failure(ValueOutOfRange)
    ensures InRange(TokensFrom(s, 0)) ==> ScanFrom(s, consumed, SmallestGroup(seen)) == Success(SmallestGroup(TokensFrom(s, 0)))
    decreases |s| - consumed
  {
    match FirstTokenFrom(s, consumed)
    case None =>
      ScanDone(s, consumed, seen);
    case Some(at) =>
      var t := Token(TokenValueAt(s, at), at, TokenLengthAt(s, at));
      ScanStep(s, consumed, seen, t, at + t.len, seen + [t]);
      if t.value <= INT_MAX {
        SmallestGroupSnoc(seen, t);
        assert InRange(seen + [t]);
        ScanFromMeaning(s, at + t.len, seen + [t]);
      }
  }

  /**
   * The whole scan throws std::out_of_range exactly when some token number is above INT_MAX,
   * and otherwise ends with the smallest-numbered group of all tokens.
   */
  lemma {:induction false} ScanMeaning(s: string)
    ensures !InRange(TokensFrom(s, 0)) ==> ScanFrom(s, 0, []) == Failure(ValueOutOfRange)
    ensures InRange(TokensFrom(s, 0)) ==> ScanFrom(s, 0, []) == Success(SmallestGroup(TokensFrom(s, 0)))
  {
    assert ScannedUpTo(s, 0, []);
    ScanFromMeaning(s, 0, []);
  }

  /**
   * The scanning loop of TStringFormat over `returnString`: it throws std::out_of_range at a
   * token whose number std::stoi cannot hold, and otherwise ends with the smallest-numbered
   * group (empty when there is no token).
   */
  method ScanTokens(returnString: string) returns (r: Result<seq<Token>, FormatError>)
    ensures r == ScanFrom(returnString, 0, [])
  {
    var copyString := returnString;
    var smallestValueInformation: seq<Token> := [];
    ghost var consumed: nat := 0;
    while true
      invariant consumed <= |returnString| && |copyString| == |returnString| - consumed
      invariant ScanFrom(returnString, consumed, smallestValueInformation) == ScanFrom(returnString, 0, [])
      decreases |copyString|
    {
      // std::regex_search(copyString, ...), positions counted in returnString
      var found := FirstTokenFrom(returnString, |returnString| - |copyString|);
      if found.None? {
        break;
      }
      var foundPosition := found.value;
      var matchLength := TokenLengthAt(returnString, foundPosition);
      var regexMatchNumericValue := TokenValueAt(returnString, foundPosition);
      var information := Token(regexMatchNumericValue, foundPosition, matchLength);
      if regexMatchNumericValue > INT_MAX {
        return Failure(ValueOutOfRange);
      }
      smallestValueInformation := Track(smallestValueInformation, information);
      consumed := foundPosition + matchLength;
      copyString := returnString[foundPosition + matchLength..];
    }
    r := Success(smallestValueInformation);
  }

  /**
   * The for loop of TStringFormat: splices `firstString` over each token of the group at the
   * position the code computes; None when a substr throws.
   */
  method ReplaceGroup(returnString: string, smallestValueInformation: seq<Token>, firstString: string)
    returns (r: Option<string>)
    ensures r == ReplaceGroupFrom(returnString, smallestValueInformation, firstString, 0)
  {
    var current := returnString;
    for index := 0 to |smallestValueInformation|
      invariant ReplaceGroupFrom(current, smallestValueInformation, firstString, index) ==
        ReplaceGroupFrom(returnString, smallestValueInformation, firstString, 0)
    {
      var it := smallestValueInformation[index];
      var smallestValueLength := it.len;
      var lengthOfTokenBracesRemoved := SizeT(index * smallestValueLength);
      var lengthOfStringAdded := SizeT(index * |firstString|);
      var smallestValueAdjustedPosition := SizeT(it.pos + lengthOfStringAdded - lengthOfTokenBracesRemoved);
      var tailStart := SizeT(smallestValueAdjustedPosition + smallestValueLength);
      if tailStart > |current| {
        ReplaceGroupThrows(current, smallestValueInformation, firstString, index, smallestValueAdjustedPosition, tailStart);
        return None;
      }
      var next := SubstrPrefix(current, smallestValueAdjustedPosition) + firstString + current[tailStart..];
      ReplaceGroupStep(current, smallestValueInformation, firstString, index, smallestValueAdjustedPosition, tailStart, next);
      current := next;
    }
    return Some(current);
  }

  /**
   * TStringFormat(formatting, args...): with no argument left, the string as a C string;
   * otherwise the scan, the splice of the first argument over the smallest-numbered group, and
   * the next round on the rest.
   */
  method TStringFormat(formatting: string, args: seq<string>) returns (r: Result<string, FormatError>)
    ensures r == Format(formatting, args)
    decreases |args|
  {
    var returnString := CString(formatting);
    if args == [] {
      return Success(returnString);
    }
    var scanned := ScanTokens(returnString);
    ScanMeaning(returnString);
    if scanned.Failure? {
      return Failure(scanned.error);
    }
    var smallestValueInformation := scanned.value;
    if smallestValueInformation == [] {
      return Failure(NoToken);
    }
    var replaced := ReplaceGroup(returnString, smallestValueInformation, args[0]);
    FormatRound(formatting, args, replaced);
    if replaced.None? {
      return Failure(SubstrOutOfRange);
    }
    r := TStringFormat(replaced.value, args[1..]);
  }

  /**
   * The base case TStringFormat(formatting): once no argument is left, a string without NUL
   * comes back unchanged, whatever tokens it still holds.
   */
  lemma {:induction false} FormatBaseCase(formatting: string)
    requires '\0' !in formatting
    ensures Format(formatting, []) == Success(formatting)
  {
    CStringOfNulFree(formatting);
  }

  // ---------------------------------------------------------------- properties of a round

  /** A token numbered `v` is kept by `WithValue(tokens, v)`. */
  lemma {:induction false} WithValueComplete(tokens: seq<Token>, v: nat, k: nat)
    requires k < |tokens| && tokens[k].value == v
    ensures tokens[k] in WithValue(tokens, v)
    decreases |tokens|
  {
    var front := tokens[..|tokens| - 1];
    if k < |tokens| - 1 {
      assert front[k] == tokens[k];
      WithValueComplete(front, v, k);
    }
  }

  /** A token met by the scan is in the final group exactly when its number is the smallest. */
  lemma {:induction false} SmallestGroupMembers(tokens: seq<Token>, t: Token)
    requires t in tokens
    ensures t.value >= MinValue(tokens)
    ensures t in SmallestGroup(tokens) <==> t.value == MinValue(tokens)
  {
    SmallestGroupIsMinimal(tokens);
    var i :| 0 <= i < |tokens| && tokens[i] == t;
    if t.value == MinValue(tokens) {
      WithValueComplete(tokens, t.value, i);
    }
  }

  /** The final group holds only tokens the scan met. */
  lemma {:induction false} SmallestGroupWithin(tokens: seq<Token>, t: Token)
    requires t in SmallestGroup(tokens)
    ensures t in tokens
  {
    SmallestGroupIsMinimal(tokens);
  }

  /**
   * The group a round replaces is exactly the tokens of the string that carry the smallest
   * number: a token is in the group if and only if no token has a smaller number.
   */
  lemma {:induction false} GroupIsSmallestTokens(s: string, q: nat)
    requires TokenAt(s, q)
    ensures TokensFrom(s, 0) != [] && TokenValueAt(s, q) >= MinValue(TokensFrom(s, 0))
    ensures (exists k :: 0 <= k < |SmallestGroup(TokensFrom(s, 0))| && SmallestGroup(TokensFrom(s, 0))[k].pos == q)
      <==> TokenValueAt(s, q) == MinValue(TokensFrom(s, 0))
  {
    var tokens := TokensFrom(s, 0);
    var group := SmallestGroup(tokens);
    TokensFromComplete(s, 0, q);
    TokensFromGenuine(s, 0);
    var i :| 0 <= i < |tokens| && tokens[i].pos == q;
    SmallestGroupMembers(tokens, tokens[i]);
    if tokens[i].value == MinValue(tokens) {
      var k :| 0 <= k < |group| && group[k] == tokens[i];
      assert group[k].pos == q;
    }
    if exists k :: 0 <= k < |group| && group[k].pos == q {
      var k :| 0 <= k < |group| && group[k].pos == q;
      SmallestGroupWithin(tokens, group[k]);
      SmallestGroupMembers(tokens, group[k]);
      var j :| 0 <= j < |tokens| && tokens[j] == group[k];
    }
  }

  /**
   * The exceptions of a round that has an argument to place: std::runtime_error when the string
   * holds no token, std::out_of_range when some token's number is beyond std::stoi.
   */
  lemma {:induction false} FormatThrows(formatting: string, args: seq<string>)
    requires args != []
    ensures (forall q: nat :: !TokenAt(CString(formatting), q)) ==> Format(formatting, args) == Failure(NoToken)
    ensures (exists q: nat :: TokenAt(CString(formatting), q) && TokenValueAt(CString(formatting), q) > INT_MAX) ==>
      Format(formatting, args) == Failure(ValueOutOfRange)
  {
    var s := CString(formatting);
    if forall q: nat :: !TokenAt(s, q) {
      assert FirstTokenFrom(s, 0).None?;
    }
    if exists q: nat :: TokenAt(s, q) && TokenValueAt(s, q) > INT_MAX {
      var q: nat :| TokenAt(s, q) && TokenValueAt(s, q) > INT_MAX;
      TokensFromComplete(s, 0, q);
      TokensFromGenuine(s, 0);
    }
  }

  /**
   * When the smallest-numbered tokens are all spelled alike and the sizes stay within size_t,
   * a round of the code does what it means to: every such token is replaced by the argument,
   * so the code and the intended behaviour go on from the same string.
   */
  lemma {:induction false} FormatRoundAsIntended(formatting: string, args: seq<string>, len: nat)
    requires args != []
    requires TokensFrom(CString(formatting), 0) != [] && InRange(TokensFrom(CString(formatting), 0))
    requires SameLength(SmallestGroup(TokensFrom(CString(formatting), 0)), len)
    requires |CString(formatting)| + |SmallestGroup(TokensFrom(CString(formatting), 0))| * |args[0]| < SIZE_T_MODULUS
    ensures Ordered(CString(formatting), SmallestGroup(TokensFrom(CString(formatting), 0)), 0)
    ensures
      var next := Splice(CString(formatting), SmallestGroup(TokensFrom(CString(formatting), 0)), args[0], 0);
      Format(formatting, args) == Format(next, args[1..]) &&
      FormatIntended(formatting, args) == FormatIntended(next, args[1..])
  {
    var s := CString(formatting);
    GroupOrdered(s);
    AsWrittenAgreesWithSplice(s, SmallestGroup(TokensFrom(s, 0)), args[0], len);
  }

  /** With a single argument and alike spellings the code gives the intended result. */
  lemma {:induction false} FormatOneArgumentAsIntended(formatting: string, arg: string, len: nat)
    requires TokensFrom(CString(formatting), 0) != [] && InRange(TokensFrom(CString(formatting), 0))
    requires SameLength(SmallestGroup(TokensFrom(CString(formatting), 0)), len)
    requires |CString(formatting)| + |SmallestGroup(TokensFrom(CString(formatting), 0))| * |arg| < SIZE_T_MODULUS
    ensures Format(formatting, [arg]) == FormatIntended(formatting, [arg])
    ensures Format(formatting, [arg]).Success?
  {
    FormatRoundAsIntended(formatting, [arg], len);
  }

  /** The text "{1}{2}", spelled out character by character. */
  predicate TwoTokensText(s: string)
  {
    |s| == 6 && s[0] == '{' && s[1] == '1' && s[2] == '}' && s[3] == '{' && s[4] == '2' && s[5] == '}'
  }

  /** The scan of "{1}{2}". */
  lemma {:induction false} TwoTokensScan(s: string)
    requires TwoTokensText(s)
    ensures TokensFrom(s, 0) == [Token(1, 0, 3), Token(2, 3, 3)]
  {
    assert TokensFrom(s, 3) == [Token(2, 3, 3)] by {
      assert FirstTokenFrom(s, 6) == None;
      assert TokenLengthAt(s, 3) == 3 by {
        assert DigitsEnd(s, 5) == 5;
      }
      assert DigitsValue(s, 4, 5) == 2;
    }
    assert TokenLengthAt(s, 0) == 3 by {
      assert DigitsEnd(s, 2) == 2;
    }
    assert DigitsValue(s, 1, 2) == 1;
  }

  /** Its group is the token numbered 1. */
  lemma {:induction false} TwoTokensGroup(s: string)
    requires TwoTokensText(s)
    ensures InRange(TokensFrom(s, 0)) && SmallestGroup(TokensFrom(s, 0)) == [Token(1, 0, 3)]
  {
    TwoTokensScan(s);
    assert SmallestGroup([Token(1, 0, 3)]) == [Token(1, 0, 3)];
  }

  /** The loop over that group places the argument over `{1}`. */
  lemma {:induction false} TwoTokensReplace(s: string)
    requires TwoTokensText(s)
    ensures ReplaceGroupFrom(s, [Token(1, 0, 3)], "x", 0) == Some("x{2}")
  {
    var group := [Token(1, 0, 3)];
    assert AdjustedPosition(group[0], 0, 1) == 0;
    assert s[3..] == "{2}" by {
      assert |s[3..]| == 3 && s[3..][0] == '{' && s[3..][1] == '2' && s[3..][2] == '}';
    }
    assert SubstrPrefix(s, 0) + "x" + "{2}" == "x{2}";
    assert ReplaceGroupFrom("x{2}", group, "x", 1) == Some("x{2}");
  }

  /** The round of the code on "{1}{2}" with the argument "x", ready for `LastRound`. */
  lemma {:induction false} TwoTokensRound(s: string, arg: string)
    requires TwoTokensText(s) && arg == "x"
    ensures '\0' !in s && '\0' !in "x{2}"
    ensures TokensFrom(s, 0) != [] && InRange(TokensFrom(s, 0))
    ensures ReplaceGroupFrom(s, SmallestGroup(TokensFrom(s, 0)), arg, 0) == Some("x{2}")
  {
    forall i | 0 <= i < |s| ensures s[i] != '\0' {
    }
    TwoTokensGroup(s);
    TwoTokensReplace(s);
  }

  /** `{1}` is replaced and `{2}`, which has no argument, is left as it is. */
  lemma {:induction false} FormatTwoTokensExample(s: string, arg: string)
    requires s == "{1}{2}" && arg == "x"
    ensures Format(s, [arg]) == Success("x{2}")
  {
    TwoTokensRound(s, arg);
    LastRound(s, arg, "x{2}");
  }

  /** The text "{1}{01}", spelled out character by character. */
  predicate MixedSpellingText(s: string)
  {
    |s| == 7 && s[0] == '{' && s[1] == '1' && s[2] == '}' && s[3] == '{' && s[4] == '0' && s[5] == '1' && s[6] == '}'
  }

  /** The scan of "{1}{01}": both tokens carry the number 1. */
  lemma {:induction false} MixedSpellingScan(s: string)
    requires MixedSpellingText(s)
    ensures TokensFrom(s, 0) == [Token(1, 0, 3), Token(1, 3, 4)]
  {
    assert TokensFrom(s, 3) == [Token(1, 3, 4)] by {
      assert FirstTokenFrom(s, 7) == None;
      assert TokenLengthAt(s, 3) == 4 by {
        assert DigitsEnd(s, 6) == 6;
        assert DigitsEnd(s, 5) == 6;
      }
      assert DigitsValue(s, 4, 6) == 1 by {
        assert DigitsValue(s, 4, 5) == 0;
      }
    }
    assert TokenLengthAt(s, 0) == 3 by {
      assert DigitsEnd(s, 2) == 2;
    }
    assert DigitsValue(s, 1, 2) == 1;
  }

  /** Its group is both tokens. */
  lemma {:induction false} MixedSpellingGroup(s: string)
    requires MixedSpellingText(s)
    ensures InRange(TokensFrom(s, 0)) && SmallestGroup(TokensFrom(s, 0)) == [Token(1, 0, 3), Token(1, 3, 4)]
  {
    MixedSpellingScan(s);
    assert SmallestGroup([Token(1, 0, 3)]) == [Token(1, 0, 3)];
  }

  /** The loop over that group: the second token is looked for one character too far left. */
  lemma {:induction false} MixedSpellingReplace(s: string)
    requires MixedSpellingText(s)
    ensures ReplaceGroupFrom(s, [Token(1, 0, 3), Token(1, 3, 4)], "x", 0) == Some("x}")
  {
    var group := [Token(1, 0, 3), Token(1, 3, 4)];
    assert AdjustedPosition(group[0], 0, 1) == 0;
    assert s[3..] == "{01}" by {
      assert |s[3..]| == 4 && s[3..][0] == '{' && s[3..][1] == '0' && s[3..][2] == '1' && s[3..][3] == '}';
    }
    assert SubstrPrefix(s, 0) + "x" + "{01}" == "x{01}";
    assert ReplaceGroupFrom("x{01}", group, "x", 1) == Some("x}") by {
      assert AdjustedPosition(group[1], 1, 1) == 0;
      assert SubstrFrom("x{01}", 4) == Some("}");
      assert SubstrPrefix("x{01}", 0) + "x" + "}" == "x}";
      assert ReplaceGroupFrom("x}", group, "x", 2) == Some("x}");
    }
  }

  /** The intended splice over that group replaces both tokens. */
  lemma {:induction false} MixedSpellingSplice(s: string)
    requires MixedSpellingText(s)
    ensures Ordered(s, [Token(1, 0, 3), Token(1, 3, 4)], 0)
    ensures Splice(s, [Token(1, 0, 3), Token(1, 3, 4)], "x", 0) == "xx"
  {
    var group := [Token(1, 0, 3), Token(1, 3, 4)];
    assert Splice(s, group[1..], "x", 3) == "x" by {
      assert Splice(s, group[2..], "x", 7) == "";
    }
  }

  /** The round of the code on "{1}{01}" with the argument "x", ready for `LastRound`. */
  lemma {:induction false} MixedSpellingRound(s: string, arg: string)
    requires MixedSpellingText(s) && arg == "x"
    ensures '\0' !in s && '\0' !in "x}"
    ensures TokensFrom(s, 0) != [] && InRange(TokensFrom(s, 0))
    ensures ReplaceGroupFrom(s, SmallestGroup(TokensFrom(s, 0)), arg, 0) == Some("x}")
  {
    forall i | 0 <= i < |s| ensures s[i] != '\0' {
    }
    MixedSpellingGroup(s);
    MixedSpellingReplace(s);
  }

  /** The intended round on the same input, ready for `LastIntendedRound`. */
  lemma {:induction false} MixedSpellingIntendedRound(s: string, arg: string)
    requires MixedSpellingText(s) && arg == "x"
    ensures '\0' !in s && '\0' !in "xx"
    ensures TokensFrom(s, 0) != [] && InRange(TokensFrom(s, 0))
    ensures Ordered(s, SmallestGroup(TokensFrom(s, 0)), 0)
    ensures Splice(s, SmallestGroup(TokensFrom(s, 0)), arg, 0) == "xx"
  {
    forall i | 0 <= i < |s| ensures s[i] != '\0' {
    }
    MixedSpellingGroup(s);
    MixedSpellingSplice(s);
  }

  /**
   * `{1}` and `{01}` carry the same number, but the second is spelled one character longer;
   * the loop computes the second position as if both were three characters long, and cuts the
   * wrong text.
   */
  lemma {:induction false} MixedSpellingAsWritten(s: string, arg: string)
    requires s == "{1}{01}" && arg == "x"
    ensures Format(s, [arg]) == Success("x}")
  {
    MixedSpellingRound(s, arg);
    LastRound(s, arg, "x}");
  }

  /** What was meant for the same input: both tokens replaced. */
  lemma {:induction false} MixedSpellingIntended(s: string, arg: string)
    requires s == "{1}{01}" && arg == "x"
    ensures FormatIntended(s, [arg]) == Success("xx")
  {
    MixedSpellingIntendedRound(s, arg);
    LastIntendedRound(s, arg, "xx");
  }
}
