/**
 * The operations on Python `str` values that the three programs rely on:
 * `startswith`, `find`, `split(sep)`, `join`, `strip(chars)`, `strip()` and
 * `split()` with no separator.  Strings are sequences of code points, as in Python 3.
 */
module PyText {
  import opened Wrappers

  /** `c.isspace()`: the code points Python's `str.split()` and `str.strip()` treat as whitespace. */
  predicate IsSpace(c: char) {
    ('\t' <= c <= '\r') || ('\U{1c}' <= c <= ' ') || c == '\U{85}' || c == '\U{a0}'
    || c == '\U{1680}' || ('\U{2000}' <= c <= '\U{200a}') || c == '\U{2028}' || c == '\U{2029}'
    || c == '\U{202f}' || c == '\U{205f}' || c == '\U{3000}'
  }

  /** `s.startswith(prefix)` */
  predicate StartsWith(s: string, prefix: string) {
    |prefix| <= |s| && s[..|prefix|] == prefix
  }

  /** `sep` occurs in `s` starting at index `i`. */
  predicate OccursAt(s: string, sep: string, i: int) {
    0 <= i && i + |sep| <= |s| && s[i..i + |sep|] == sep
  }

  /** `s.find(sep)`, with None standing for Python's -1: the first index where `sep` occurs. */
  function Find(s: string, sep: string): (r: Option<nat>)
    ensures r.Some? ==> OccursAt(s, sep, r.value)
    ensures r.Some? ==> forall k :: 0 <= k < r.value ==> !OccursAt(s, sep, k)
    ensures r.None? ==> forall k :: !OccursAt(s, sep, k)
    decreases |s|
  {
    if |s| < |sep| then None
    else if s[..|sep|] == sep then Some(0)
    else
      OccursAtTail(s, sep);
      match Find(s[1..], sep)
      case None => None
      case Some(i) => Some(i + 1)
  }

  /** An occurrence in `s[1..]` is an occurrence in `s`, one index further on, and back. */
  lemma OccursAtTail(s: string, sep: string)
    requires s != []
    ensures forall k :: OccursAt(s[1..], sep, k) ==> OccursAt(s, sep, k + 1)
    ensures forall k :: 1 <= k && OccursAt(s, sep, k) ==> OccursAt(s[1..], sep, k - 1)
  {
    forall k | OccursAt(s[1..], sep, k)
      ensures OccursAt(s, sep, k + 1)
    {
      assert s[1..][k..k + |sep|] == s[k + 1..k + 1 + |sep|];
    }
    forall k | 1 <= k && OccursAt(s, sep, k)
      ensures OccursAt(s[1..], sep, k - 1)
    {
      assert s[1..][k - 1..k - 1 + |sep|] == s[k..k + |sep|];
    }
  }

  /** A separator whose first character is absent from `s` does not occur in it. */
  lemma FindNoLead(s: string, sep: string)
    requires sep != [] && sep[0] !in s
    ensures Find(s, sep).None?
  {
  }

  /** `sep.join(parts)` */
  function Join(sep: string, parts: seq<string>): string
    decreases |parts|
  {
    if |parts| == 0 then ""
    else if |parts| == 1 then parts[0]
    else parts[0] + sep + Join(sep, parts[1..])
  }

  /**
   * `s.split(sep)` for a non-empty separator: the pieces between the
   * non-overlapping occurrences of `sep`, found from left to right.
   */
  function Split(s: string, sep: string): (r: seq<string>)
    requires sep != []
    ensures |r| >= 1
    decreases |s|
  {
    match Find(s, sep)
    case None => [s]
    case Some(i) => [s[..i]] + Split(s[i + |sep|..], sep)
  }

  /** A string that does not hold the first character of `sep` splits into itself alone. */
  lemma SplitNoLead(s: string, sep: string)
    requires sep != [] && sep[0] !in s
    ensures Split(s, sep) == [s]
  {
    FindNoLead(s, sep);
  }

  /** Joining the pieces of `s.split(sep)` with `sep` gives `s` back. */
  lemma {:induction false} JoinSplit(s: string, sep: string)
    requires sep != []
    ensures Join(sep, Split(s, sep)) == s
    decreases |s|
  {
    match Find(s, sep)
    case None =>
    case Some(i) =>
      var rest := s[i + |sep|..];
      assert Split(s, sep) == [s[..i]] + Split(rest, sep);
      JoinSplit(rest, sep);
      assert s == s[..i] + sep + rest by {
        assert s[i..i + |sep|] == sep;
        assert s == s[..i] + s[i..i + |sep|] + rest;
      }
      assert ([s[..i]] + Split(rest, sep))[1..] == Split(rest, sep);
  }

  /** No piece produced by `Split` contains the separator. */
  lemma {:induction false} SplitPiecesAvoidSeparator(s: string, sep: string)
    requires sep != []
    ensures forall j :: 0 <= j < |Split(s, sep)| ==> Find(Split(s, sep)[j], sep).None?
    decreases |s|
  {
    match Find(s, sep)
    case None =>
    case Some(i) =>
      SplitPiecesAvoidSeparator(s[i + |sep|..], sep);
      var head := s[..i];
      if Find(head, sep).Some? {
        var k := Find(head, sep).value;
        assert head[k..k + |sep|] == s[k..k + |sep|];
        assert OccursAt(s, sep, k);
        assert false;
      }
  }

  /** A character absent from `s` is absent from every piece of `s.split(sep)`. */
  lemma {:induction false} SplitPiecesLack(s: string, sep: string, c: char)
    requires sep != [] && c !in s
    ensures forall j :: 0 <= j < |Split(s, sep)| ==> c !in Split(s, sep)[j]
    decreases |s|
  {
    match Find(s, sep)
    case None =>
    case Some(i) =>
      var rest := s[i + |sep|..];
      assert Split(s, sep) == [s[..i]] + Split(rest, sep);
      assert c !in rest by {
        forall k | 0 <= k < |rest| ensures rest[k] != c {
          assert rest[k] == s[i + |sep| + k];
        }
      }
      assert c !in s[..i] by {
        forall k | 0 <= k < i ensures s[..i][k] != c {
          assert s[..i][k] == s[k];
        }
      }
      SplitPiecesLack(rest, sep, c);
  }

  /** A string that begins with the separator splits into an empty piece followed by the split of the rest. */
  lemma SplitAfterSeparator(s: string, sep: string)
    requires sep != [] && StartsWith(s, sep)
    ensures Split(s, sep) == [""] + Split(s[|sep|..], sep)
  {
    assert OccursAt(s, sep, 0);
  }

  /** `s.split(sep)[1]` for a string that begins with `sep`. */
  function SecondPieceOf(s: string, sep: string): (p: string)
    requires sep != [] && StartsWith(s, sep)
    ensures |Split(s, sep)| >= 2 && p == Split(s, sep)[1]
  {
    SplitHasSecond(s, sep);
    Split(s, sep)[1]
  }

  /** Splitting at one character gives two or more pieces exactly when the character occurs. */
  lemma SplitInTwoIff(s: string, c: char)
    ensures |Split(s, [c])| >= 2 <==> c in s
  {
    FindChar(s, c);
  }

  /** A string that begins with the separator has at least two pieces. */
  lemma SplitHasSecond(s: string, sep: string)
    requires sep != [] && StartsWith(s, sep)
    ensures |Split(s, sep)| >= 2
  {
    SplitAfterSeparator(s, sep);
  }

  /**
   * `s.split(sep)[0]` is the text of `s` before the first occurrence of `sep`,
   * or all of `s` when there is none.
   */
  lemma FirstPiece(s: string, sep: string)
    requires sep != []
    ensures var p := Split(s, sep)[0];
      StartsWith(s, p) && Find(p, sep).None? && (|p| == |s| || OccursAt(s, sep, |p|))
  {
    SplitPiecesAvoidSeparator(s, sep);
    match Find(s, sep)
    case None =>
    case Some(i) =>
      assert Split(s, sep)[0] == s[..i];
  }

  /** Splitting on one character undoes joining on it, when no part contains that character. */
  lemma {:induction false} SplitJoinOneChar(parts: seq<string>, c: char)
    requires |parts| >= 1
    requires forall j :: 0 <= j < |parts| ==> c !in parts[j]
    ensures Split(Join([c], parts), [c]) == parts
    decreases |parts|
  {
    var s := Join([c], parts);
    var x := parts[0];
    if |parts| == 1 {
      assert s == x;
      if Find(s, [c]).Some? {
        OccursOneChar(s, c, Find(s, [c]).value);
      }
    } else {
      var rest := Join([c], parts[1..]);
      assert s == x + [c] + rest;
      SplitAtFirstChar(x, c, rest);
      SplitJoinOneChar(parts[1..], c);
      assert parts == [x] + parts[1..];
    }
  }

  /** Splitting at a character that the text before it lacks cuts there first. */
  lemma SplitAtFirstChar(x: string, c: char, rest: string)
    requires c !in x
    ensures Split(x + [c] + rest, [c]) == [x] + Split(rest, [c])
  {
    var s := x + [c] + rest;
    OccursOneChar(s, c, |x|);
    OccursOneChar(s, c, Find(s, [c]).value);
    assert Find(s, [c]) == Some(|x|);
    assert s[..|x|] == x && s[|x| + 1..] == rest;
  }

  /** The search for one character stops at that character, with none before it; finding none means there is none. */
  lemma FindChar(s: string, c: char)
    ensures Find(s, [c]).Some? ==> Find(s, [c]).value < |s| && s[Find(s, [c]).value] == c
                                   && c !in s[..Find(s, [c]).value]
    ensures Find(s, [c]).None? ==> c !in s
  {
    forall k | 0 <= k < |s|
      ensures OccursAt(s, [c], k) <==> s[k] == c
    {
      OccursOneChar(s, c, k);
    }
  }

  /** `s.partition(c)` without its middle part: the text before the first `c`, and the text after it. */
  function Partition(s: string, c: char): (r: (string, string))
    ensures c !in r.0
    ensures c in s ==> s == r.0 + [c] + r.1
    ensures c !in s ==> r == (s, "")
  {
    FindChar(s, c);
    match Find(s, [c])
    case Some(i) =>
      assert s == s[..i] + [c] + s[i + 1..];
      (s[..i], s[i + 1..])
    case None => (s, "")
  }

  /** Partitioning at a character that the text before it lacks cuts there. */
  lemma PartitionAt(x: string, c: char, rest: string)
    requires c !in x
    ensures Partition(x + [c] + rest, c) == (x, rest)
  {
    var s := x + [c] + rest;
    var (before, after) := Partition(s, c);
    assert s[|x|] == c;
    assert before == s[..|x|] == x;
    assert after == s[|x| + 1..] == rest;
  }

  /** A one-character separator occurs exactly where that character is. */
  lemma OccursOneChar(s: string, c: char, k: int)
    ensures OccursAt(s, [c], k) <==> 0 <= k < |s| && s[k] == c
  {
    if 0 <= k < |s| {
      assert s[k..k + 1] == [s[k]];
    }
  }

  /** `s.lstrip(chars)`, where `drop` says which characters are in `chars`. */
  function TrimLeft(s: string, drop: char -> bool): (r: string)
    ensures |r| <= |s| && r == s[|s| - |r|..]
    ensures forall k :: 0 <= k < |s| - |r| ==> drop(s[k])
    ensures r == [] || !drop(r[0])
    decreases |s|
  {
    if s != [] && drop(s[0]) then TrimLeft(s[1..], drop) else s
  }

  /** `s.rstrip(chars)`, where `drop` says which characters are in `chars`. */
  function TrimRight(s: string, drop: char -> bool): (r: string)
    ensures |r| <= |s| && r == s[..|r|]
    ensures forall k :: |r| <= k < |s| ==> drop(s[k])
    ensures r == [] || !drop(r[|r| - 1])
    decreases |s|
  {
    if s != [] && drop(s[|s| - 1]) then TrimRight(s[..|s| - 1], drop) else s
  }

  /** `r` is `s[a..a + |r|]`, and everything in `s` around it satisfies `drop`. */
  predicate StrippedAt(s: string, r: string, a: int, drop: char -> bool) {
    0 <= a <= |s| - |r| && s[a..a + |r|] == r
    && (forall k :: 0 <= k < a ==> drop(s[k]))
    && (forall k :: a + |r| <= k < |s| ==> drop(s[k]))
  }

  /**
   * `s.strip(chars)`: `s` with the longest runs of characters in `chars` removed
   * from both ends.  The result is empty exactly when every character of `s` is
   * in `chars`; otherwise it neither begins nor ends with one of them, and what
   * was removed around it consists of characters in `chars` only.
   */
  function Strip(s: string, drop: char -> bool): (r: string)
    ensures r == [] || (!drop(r[0]) && !drop(r[|r| - 1]))
    ensures r == [] <==> forall k :: 0 <= k < |s| ==> drop(s[k])
    ensures exists a :: StrippedAt(s, r, a, drop)
  {
    var t := TrimLeft(s, drop);
    var r := TrimRight(t, drop);
    StripInfix(s, t, r, drop);
    StripEmpty(s, t, r, drop);
    r
  }

  /** What the two trimming steps return is an infix of `s` surrounded by dropped characters. */
  lemma StripInfix(s: string, t: string, r: string, drop: char -> bool)
    requires |t| <= |s| && t == s[|s| - |t|..] && forall k :: 0 <= k < |s| - |t| ==> drop(s[k])
    requires |r| <= |t| && r == t[..|r|] && forall k :: |r| <= k < |t| ==> drop(t[k])
    ensures StrippedAt(s, r, |s| - |t|, drop)
  {
    var a := |s| - |t|;
    forall k | a + |r| <= k < |s|
      ensures drop(s[k])
    {
      assert s[k] == t[k - a];
    }
  }

  /** The two trimming steps return nothing exactly when every character is dropped. */
  lemma StripEmpty(s: string, t: string, r: string, drop: char -> bool)
    requires |t| <= |s| && t == s[|s| - |t|..] && forall k :: 0 <= k < |s| - |t| ==> drop(s[k])
    requires t == [] || !drop(t[0])
    requires |r| <= |t| && r == t[..|r|] && forall k :: |r| <= k < |t| ==> drop(t[k])
    ensures r == [] <==> forall k :: 0 <= k < |s| ==> drop(s[k])
  {
    var a := |s| - |t|;
    if r != [] {
      assert s[a] == t[0];
    }
  }

  /** Stripping removes nothing from a string none of whose characters is dropped. */
  lemma StripKeeps(s: string, drop: char -> bool)
    requires forall k :: 0 <= k < |s| ==> !drop(s[k])
    ensures Strip(s, drop) == s
  {
    var r := Strip(s, drop);
    var a :| StrippedAt(s, r, a, drop);
  }

  /** `r` neither begins nor ends with `c`. */
  predicate FreeEnds(r: string, c: char) {
    r == [] || (r[0] != c && r[|r| - 1] != c)
  }

  /** `s.strip(c)` for a single character `c`. */
  function StripChar(s: string, c: char): (r: string)
    ensures FreeEnds(r, c)
    ensures r == [] <==> forall k :: 0 <= k < |s| ==> s[k] == c
  {
    var drop := x => x == c;
    var r := Strip(s, drop);
    DropOneChar(s, r, c, drop);
    r
  }

  /** What `Strip` promises for a `drop` that holds of `c` alone, stated in terms of `c`. */
  lemma DropOneChar(s: string, r: string, c: char, drop: char -> bool)
    requires forall x :: drop(x) == (x == c)
    requires r == [] || (!drop(r[0]) && !drop(r[|r| - 1]))
    requires r == [] <==> forall k :: 0 <= k < |s| ==> drop(s[k])
    ensures FreeEnds(r, c)
    ensures r == [] <==> forall k :: 0 <= k < |s| ==> s[k] == c
  {
  }

  /** `s.strip(c)` is `s` itself when `c` does not occur in `s`. */
  lemma StripCharKeeps(s: string, c: char)
    requires c !in s
    ensures StripChar(s, c) == s
  {
    StripKeeps(s, x => x == c);
  }

  /** `s.strip()`: whitespace removed from both ends. */
  function StripSpace(s: string): string {
    Strip(s, IsSpace)
  }

  /** Length of the run of non-whitespace characters that begins `s`. */
  function WordLength(s: string): (n: nat)
    ensures n <= |s|
    ensures forall k :: 0 <= k < n ==> !IsSpace(s[k])
    ensures n < |s| ==> IsSpace(s[n])
  {
    if s == [] || IsSpace(s[0]) then 0 else 1 + WordLength(s[1..])
  }

  /**
   * `s.split()`: the maximal runs of non-whitespace characters, in order.
   * Every word is non-empty and holds no whitespace.
   */
  function Words(s: string): (r: seq<string>)
    ensures forall j :: 0 <= j < |r| ==> r[j] != [] && forall k :: 0 <= k < |r[j]| ==> !IsSpace(r[j][k])
    decreases |s|
  {
    if s == [] then []
    else if IsSpace(s[0]) then Words(s[1..])
    else
      var n := WordLength(s);
      [s[..n]] + Words(s[n..])
  }

  /** `s.split()` is empty exactly when `s` holds nothing but whitespace. */
  lemma {:induction false} WordsEmpty(s: string)
    ensures Words(s) == [] <==> forall k :: 0 <= k < |s| ==> IsSpace(s[k])
    decreases |s|
  {
    if s != [] && IsSpace(s[0]) {
      WordsEmpty(s[1..]);
      assert forall k :: 1 <= k < |s| ==> s[k] == s[1..][k - 1];
    }
  }

  /** `s` holds a non-whitespace character, then whitespace, then a non-whitespace character. */
  predicate HasTwoWords(s: string) {
    exists i, j, k :: 0 <= i < j < k < |s| && !IsSpace(s[i]) && IsSpace(s[j]) && !IsSpace(s[k])
  }

  /** `s.split()` yields at least two words exactly when `s` has two runs of non-whitespace. */
  lemma TwoWords(s: string)
    ensures |Words(s)| >= 2 <==> HasTwoWords(s)
  {
    if |Words(s)| >= 2 {
      var i, j, k := TwoWordsSound(s);
    }
    if HasTwoWords(s) {
      var i, j, k :| 0 <= i < j < k < |s| && !IsSpace(s[i]) && IsSpace(s[j]) && !IsSpace(s[k]);
      TwoWordsComplete(s, i, j, k);
    }
  }

  /** Two words from `s.split()` come from two runs of non-whitespace in `s`, found at `i`, `j`, `k`. */
  lemma {:induction false} TwoWordsSound(s: string) returns (i: nat, j: nat, k: nat)
    requires |Words(s)| >= 2
    ensures i < j < k < |s| && !IsSpace(s[i]) && IsSpace(s[j]) && !IsSpace(s[k])
    decreases |s|
  {
    if IsSpace(s[0]) {
      var t := s[1..];
      i, j, k := TwoWordsSound(t);
      assert s[i + 1] == t[i] && s[j + 1] == t[j] && s[k + 1] == t[k];
      i, j, k := i + 1, j + 1, k + 1;
    } else {
      var n := WordLength(s);
      var rest := s[n..];
      assert Words(rest) != [];
      WordsEmpty(rest);
      var m :| 0 <= m < |rest| && !IsSpace(rest[m]);
      assert rest[m] == s[n + m];
      i, j, k := 0, n, n + m;
    }
  }

  /** Two runs of non-whitespace in `s`, at `i`, `j`, `k`, give `s.split()` at least two words. */
  lemma {:induction false} TwoWordsComplete(s: string, i: nat, j: nat, k: nat)
    requires i < j < k < |s| && !IsSpace(s[i]) && IsSpace(s[j]) && !IsSpace(s[k])
    ensures |Words(s)| >= 2
    decreases |s|
  {
    if IsSpace(s[0]) {
      var t := s[1..];
      assert t[i - 1] == s[i] && t[j - 1] == s[j] && t[k - 1] == s[k];
      TwoWordsComplete(t, i - 1, j - 1, k - 1);
    } else {
      var n := WordLength(s);
      var rest := s[n..];
      assert n <= j;
      assert rest[k - n] == s[k];
      WordsEmpty(rest);
    }
  }
}
