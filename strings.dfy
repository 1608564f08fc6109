/**
 * The string helpers of ApplicationUtilities.cpp (startsWith, endsWith, looksLikeFilePath),
 * together with the few library behaviours the rest of the model leans on: what a C string
 * built from a std::string keeps, decimal spelling as std::ostringstream writes it and
 * std::stoi reads it, and std::string::find.
 */
module StringUtil {
  import opened Results

  // ---------------------------------------------------------------- C strings

  /** What a `const char *` made from `s` holds: everything before the first NUL. */
  function CString(s: string): (r: string)
    ensures r <= s
    ensures '\0' !in r
    ensures |r| < |s| ==> s[|r|] == '\0'
  {
    if s == [] || s[0] == '\0' then [] else [s[0]] + CString(s[1..])
  }

  /** A string without NUL passes through a `const char *` unchanged. */
  lemma {:induction false} CStringOfNulFree(s: string)
    requires '\0' !in s
    ensures CString(s) == s
  {
    if s != [] {
      assert s[0] in s;
      assert forall c :: c in s[1..] ==> c in s;
      CStringOfNulFree(s[1..]);
    }
  }

  // ---------------------------------------------------------------- decimal numbers

  predicate IsDigit(c: char) { '0' <= c <= '9' }

  predicate AllDigits(s: string) { forall i :: 0 <= i < |s| ==> IsDigit(s[i]) }

  /** The number a run of decimal digits spells, most significant digit first. */
  function DecimalValue(ds: string): nat
    requires AllDigits(ds)
  {
    if ds == [] then 0 else 10 * DecimalValue(ds[..|ds| - 1]) + (ds[|ds| - 1] as int - '0' as int)
  }

  /** The decimal spelling of `n` that a std::ostringstream writes: digits only, no leading zero. */
  function DecimalString(n: nat): (s: string)
    ensures |s| > 0 && AllDigits(s)
    ensures n > 0 ==> s[0] != '0'
  {
    var last := (n % 10 + '0' as int) as char;
    if n < 10 then [last] else DecimalString(n / 10) + [last]
  }

  /** Reading back the spelling of a number gives the number. */
  lemma {:induction false} DecimalRoundTrip(n: nat)
    ensures DecimalValue(DecimalString(n)) == n
  {
    var s := DecimalString(n);
    if n >= 10 {
      var front := DecimalString(n / 10);
      assert s[..|s| - 1] == front;
      DecimalRoundTrip(n / 10);
    }
  }

  // ---------------------------------------------------------------- prefixes and suffixes

  /** startsWith(str, start): false when `start` is longer, else std::equal over its length. */
  function StartsWith(str: string, start: string): (r: bool)
    ensures r <==> start <= str
  {
    if |str| < |start| then false
    else forall i :: 0 <= i < |start| ==> start[i] == str[i]
  }

  /** startsWith(str, char): a non-empty string whose first character is `start`. */
  function StartsWithChar(str: string, start: char): (r: bool)
    ensures r <==> StartsWith(str, [start])
  {
    |str| > 0 && str[0] == start
  }

  /** endsWith(str, ending): false when `ending` is longer, else std::equal over reverse iterators. */
  function EndsWith(str: string, ending: string): (r: bool)
    ensures r <==> |ending| <= |str| && str[|str| - |ending|..] == ending
  {
    if |str| < |ending| then false
    else
      ReverseComparison(str, ending);
      forall i :: 0 <= i < |ending| ==> FromBack(ending, i) == FromBack(str, i)
  }

  /** The character `i` places before the end of `s`, as a reverse iterator sees it. */
  function FromBack(s: string, i: nat): char
    requires i < |s|
  {
    s[|s| - 1 - i]
  }

  lemma {:induction false} ReverseComparison(str: string, ending: string)
    requires |ending| <= |str|
    ensures (forall i :: 0 <= i < |ending| ==> FromBack(ending, i) == FromBack(str, i))
        <==> str[|str| - |ending|..] == ending
  {
    var tail := str[|str| - |ending|..];
    if forall i :: 0 <= i < |ending| ==> FromBack(ending, i) == FromBack(str, i) {
      forall k | 0 <= k < |ending| ensures tail[k] == ending[k] {
        assert FromBack(ending, |ending| - 1 - k) == FromBack(str, |ending| - 1 - k);
      }
    }
    if tail == ending {
      forall i | 0 <= i < |ending| ensures FromBack(ending, i) == FromBack(str, i) {
        assert tail[|ending| - 1 - i] == str[|str| - 1 - i];
      }
    }
  }

  /** endsWith(str, char): a non-empty string whose last character is `ending`. */
  function EndsWithChar(str: string, ending: char): (r: bool)
    ensures r <==> EndsWith(str, [ending])
  {
    |str| > 0 && str[|str| - 1] == ending
  }

  /** Concatenation regroups freely. */
  lemma {:induction false} AppendAssociative<T>(a: seq<T>, b: seq<T>, c: seq<T>)
    ensures a + (b + c) == a + b + c
  {
  }

  /** A string ends with whatever was appended last, and starts with whatever it was built on. */
  lemma {:induction false} AffixesOfConcat(p: string, q: string)
    ensures EndsWith(p + q, q) && StartsWith(p + q, p)
  {
    assert (p + q)[|p + q| - |q|..] == q;
    assert (p + q)[..|p|] == p;
  }

  // ---------------------------------------------------------------- searching

  /** std::string::find(c): the first index of `c` in `s`, or None (npos). */
  function FirstIndexOf(s: string, c: char): (r: Option<nat>)
    ensures r.Some? ==> r.value < |s| && s[r.value] == c
    ensures r.Some? ==> forall k :: 0 <= k < r.value ==> s[k] != c
    ensures r.None? ==> forall k :: 0 <= k < |s| ==> s[k] != c
    decreases |s|
  {
    if s == [] then None
    else if s[0] == c then Some(0)
    else match FirstIndexOf(s[1..], c)
      case None => None
      case Some(i) => Some(i + 1)
  }

  /** std::string::find_last_of(c): the last index of `c` in `s`, or None (npos). */
  function LastIndexOf(s: string, c: char): (r: Option<nat>)
    ensures r.Some? ==> r.value < |s| && s[r.value] == c
    ensures r.Some? ==> forall k :: r.value < k < |s| ==> s[k] != c
    ensures r.None? ==> forall k :: 0 <= k < |s| ==> s[k] != c
    decreases |s|
  {
    if s == [] then None
    else if s[|s| - 1] == c then Some(|s| - 1)
    else LastIndexOf(s[..|s| - 1], c)
  }

  lemma {:induction false} LastIndexOfFinds(s: string, c: char, i: nat)
    requires i < |s| && s[i] == c && forall k :: i < k < |s| ==> s[k] != c
    ensures LastIndexOf(s, c) == Some(i)
    decreases |s|
  {
    if i < |s| - 1 {
      LastIndexOfFinds(s[..|s| - 1], c, i);
    }
  }

  /** `pat` occurs in `s` at index `i`. */
  predicate OccursAt(s: string, pat: string, i: nat)
  {
    i + |pat| <= |s| && forall k :: 0 <= k < |pat| ==> s[i + k] == pat[k]
  }

  /** std::string::find(pat, from): the least index from `from` on at which `pat` occurs, or none. */
  function FindFrom(s: string, pat: string, from: nat): (r: Option<nat>)
    ensures r.Some? ==> from <= r.value && OccursAt(s, pat, r.value)
    ensures r.Some? ==> forall j: nat :: from <= j < r.value ==> !OccursAt(s, pat, j)
    ensures r.None? ==> forall j: nat :: from <= j ==> !OccursAt(s, pat, j)
    decreases |s| - from
  {
    if from + |pat| > |s| then None
    else if OccursAt(s, pat, from) then Some(from)
    else FindFrom(s, pat, from + 1)
  }

  /** std::string::find(pat): the least index at which `pat` occurs in `s`, or none (npos). */
  function Find(s: string, pat: string): (r: Option<nat>)
    ensures r.Some? ==> OccursAt(s, pat, r.value)
    ensures r.Some? ==> forall j: nat :: j < r.value ==> !OccursAt(s, pat, j)
    ensures r.None? ==> forall j: nat :: !OccursAt(s, pat, j)
  {
    FindFrom(s, pat, 0)
  }

  // ---------------------------------------------------------------- looksLikeFilePath

  /** A character that the class `[^/\0]` accepts. */
  predicate IsSegmentChar(c: char) { c != '/' && c != '\0' }

  /** Whether the whole of `s` matches `([^/\0]+(/)?)+`. */
  predicate MatchesGroups(s: string)
    decreases |s|
  {
    |s| > 0 && IsSegmentChar(s[0]) && MatchesGroupTail(s[1..])
  }

  /**
   * Whether `s` can follow a segment character inside `([^/\0]+(/)?)+`: nothing, more of
   * the segment, or one slash that ends the string or begins the next group.
   */
  predicate MatchesGroupTail(s: string)
    decreases |s|
  {
    || s == []
    || (IsSegmentChar(s[0]) && MatchesGroupTail(s[1..]))
    || (s[0] == '/' && (|s| == 1 || MatchesGroups(s[1..])))
  }

  /** std::regex_match against `^(/)?([^/\0]+(/)?)+$`: an optional leading slash, then groups. */
  predicate MatchesDirectoryRegex(s: string)
  {
    MatchesGroups(s) || (|s| > 0 && s[0] == '/' && MatchesGroups(s[1..]))
  }

  /** No NUL character anywhere, and never two slashes in a row. */
  predicate NoNulNoDoubleSlash(s: string)
  {
    && (forall i :: 0 <= i < |s| ==> s[i] != '\0')
    && (forall i :: 0 < i < |s| ==> !(s[i - 1] == '/' && s[i] == '/'))
  }

  /**
   * An absolute path of non-empty segments free of '/' and NUL, separated by single slashes,
   * with an optional trailing slash: "/a", "/a/b/"; not "/" nor "/a//b".
   */
  predicate WellFormedAbsolutePath(s: string)
  {
    |s| >= 2 && s[0] == '/' && NoNulNoDoubleSlash(s)
  }

  lemma {:induction false} NoNulNoDoubleSlashCons(s: string)
    requires |s| > 0
    ensures NoNulNoDoubleSlash(s) <==>
      s[0] != '\0' && NoNulNoDoubleSlash(s[1..]) && !(|s| > 1 && s[0] == '/' && s[1] == '/')
  {
    var t := s[1..];
    if s[0] != '\0' && NoNulNoDoubleSlash(t) && !(|s| > 1 && s[0] == '/' && s[1] == '/') {
      forall i | 0 <= i < |s| ensures s[i] != '\0' {
        if i > 0 { assert s[i] == t[i - 1]; }
      }
      forall i | 0 < i < |s| ensures !(s[i - 1] == '/' && s[i] == '/') {
        if i > 1 { assert s[i - 1] == t[i - 2] && s[i] == t[i - 1]; }
      }
    }
    if NoNulNoDoubleSlash(s) {
      forall i | 0 <= i < |t| ensures t[i] != '\0' {
        assert t[i] == s[i + 1];
      }
      forall i | 0 < i < |t| ensures !(t[i - 1] == '/' && t[i] == '/') {
        assert t[i - 1] == s[i] && t[i] == s[i + 1];
      }
    }
  }

  /** The two regex pieces in plain words. */
  lemma {:induction false} GroupsCharacterized(s: string)
    ensures MatchesGroupTail(s) <==> NoNulNoDoubleSlash(s)
    ensures MatchesGroups(s) <==> |s| > 0 && s[0] != '/' && NoNulNoDoubleSlash(s)
    decreases |s|
  {
    if s != [] {
      NoNulNoDoubleSlashCons(s);
      GroupsCharacterized(s[1..]);
      if |s| > 1 {
        assert s[1..][0] == s[1];
      }
    }
  }

  /**
   * looksLikeFilePath(str): exactly "." or a well-formed absolute path (so "/" and "/a//b"
   * are rejected).
   */
  function LooksLikeFilePath(str: string): (r: bool)
    ensures r <==> str == "." || WellFormedAbsolutePath(str)
  {
    DirectoryRegexOnAbsolutePath(str);
    (|str| == 1 && str[0] == '.') || (MatchesDirectoryRegex(str) && StartsWithChar(str, '/'))
  }

  /** For a string that starts with '/', the directory regex accepts exactly the well-formed paths. */
  lemma {:induction false} DirectoryRegexOnAbsolutePath(str: string)
    ensures MatchesDirectoryRegex(str) && StartsWithChar(str, '/') <==> WellFormedAbsolutePath(str)
  {
    GroupsCharacterized(str);
    if |str| > 0 {
      GroupsCharacterized(str[1..]);
      NoNulNoDoubleSlashCons(str);
    }
  }
}
