/**
 * The JavaScript string operations the components use on labels, zone names
 * and form text: indexOf, split with a non-empty separator, trim, and
 * replace with a string pattern (which replaces the first match only).
 */
module Strings {
  import opened Wrappers

  /** sep occurs in s starting at position i. */
  predicate OccursAt(s: string, sep: string, i: int) {
    0 <= i && i + |sep| <= |s| && s[i..i + |sep|] == sep
  }

  ghost predicate Contains(s: string, sep: string) {
    exists i :: OccursAt(s, sep, i)
  }

  /** s.indexOf(sep, from), None standing for -1. */
  function IndexOfFrom(s: string, sep: string, from: nat): (r: Option<nat>)
    ensures r.Some? ==> from <= r.value && OccursAt(s, sep, r.value)
    ensures r.Some? ==> forall j :: from <= j < r.value ==> !OccursAt(s, sep, j)
    ensures r.None? ==> forall j :: from <= j ==> !OccursAt(s, sep, j)
    decreases |s| - from
  {
    if from + |sep| > |s| then None
    else if OccursAt(s, sep, from) then Some(from)
    else IndexOfFrom(s, sep, from + 1)
  }

  /** The pieces of s[from..] between successive occurrences of sep, scanning left to right. */
  function SplitFrom(s: string, sep: string, from: nat): (parts: seq<string>)
    requires |sep| > 0 && from <= |s|
    ensures |parts| >= 1
    decreases |s| - from
  {
    match IndexOfFrom(s, sep, from)
    case None => [s[from..]]
    case Some(i) => [s[from..i]] + SplitFrom(s, sep, i + |sep|)
  }

  /** s.split(sep) for a non-empty separator. */
  function Split(s: string, sep: string): (parts: seq<string>)
    requires |sep| > 0
    ensures |parts| >= 1
  {
    SplitFrom(s, sep, 0)
  }

  /** parts.join(sep): the inverse of Split. */
  function Join(parts: seq<string>, sep: string): string
    requires |parts| >= 1
  {
    if |parts| == 1 then parts[0] else parts[0] + sep + Join(parts[1..], sep)
  }

  lemma JoinSplitFrom(s: string, sep: string, from: nat)
    requires |sep| > 0 && from <= |s|
    ensures Join(SplitFrom(s, sep, from), sep) == s[from..]
    ensures forall k :: 0 <= k < |SplitFrom(s, sep, from)| ==> !Contains(SplitFrom(s, sep, from)[k], sep)
  {
    JoinOfSplitFrom(s, sep, from);
    SplitFromPieces(s, sep, from);
  }

  lemma {:induction false} JoinOfSplitFrom(s: string, sep: string, from: nat)
    requires |sep| > 0 && from <= |s|
    ensures Join(SplitFrom(s, sep, from), sep) == s[from..]
    decreases |s| - from
  {
    match IndexOfFrom(s, sep, from)
    case None =>
    case Some(i) =>
      JoinOfSplitFrom(s, sep, i + |sep|);
      var rest := SplitFrom(s, sep, i + |sep|);
      assert SplitFrom(s, sep, from) == [s[from..i]] + rest;
      assert s[from..] == s[from..i] + s[i..i + |sep|] + s[i + |sep|..];
  }

  lemma {:induction false} SplitFromPieces(s: string, sep: string, from: nat)
    requires |sep| > 0 && from <= |s|
    ensures forall k :: 0 <= k < |SplitFrom(s, sep, from)| ==> !Contains(SplitFrom(s, sep, from)[k], sep)
    decreases |s| - from
  {
    match IndexOfFrom(s, sep, from)
    case None =>
      NoneInSuffix(s, sep, from);
    case Some(i) =>
      SplitFromPieces(s, sep, i + |sep|);
      NoneBeforeMatch(s, sep, from, i);
      var rest := SplitFrom(s, sep, i + |sep|);
      assert SplitFrom(s, sep, from) == [s[from..i]] + rest;
  }

  /** A suffix holds no occurrence of sep when none starts inside it. */
  lemma NoneInSuffix(s: string, sep: string, from: nat)
    requires from <= |s| && IndexOfFrom(s, sep, from).None?
    ensures !Contains(s[from..], sep)
  {
    NoneInSlice(s, sep, from, |s|);
    assert s[from..|s|] == s[from..];
  }

  /** The text before the first occurrence of sep from a position holds no occurrence of it. */
  lemma NoneBeforeMatch(s: string, sep: string, from: nat, i: nat)
    requires |sep| > 0 && IndexOfFrom(s, sep, from) == Some(i)
    ensures from <= i <= |s| && !Contains(s[from..i], sep)
  {
    forall j | from <= j && j + |sep| <= i ensures !OccursAt(s, sep, j) {
      assert j < i;
    }
    NoneInSlice(s, sep, from, i);
  }

  /** A slice holds no occurrence of sep when none starts inside it and ends by its end. */
  lemma NoneInSlice(s: string, sep: string, lo: int, hi: int)
    requires 0 <= lo <= hi <= |s|
    requires forall j :: lo <= j && j + |sep| <= hi ==> !OccursAt(s, sep, j)
    ensures !Contains(s[lo..hi], sep)
  {
    forall j | 0 <= j && j + |sep| <= hi - lo
      ensures OccursAt(s[lo..hi], sep, j) == OccursAt(s, sep, lo + j)
    {
      var inSlice, inString := s[lo..hi][j..j + |sep|], s[lo + j..lo + j + |sep|];
      assert forall k :: 0 <= k < |sep| ==> inSlice[k] == inString[k];
    }
  }

  /** Where the piece starting at `from` ends: the next occurrence of sep, or the end of s. */
  function PieceEnd(s: string, sep: string, from: nat): (e: nat)
    requires from <= |s|
    ensures from <= e <= |s|
    ensures e < |s| ==> OccursAt(s, sep, e)
    ensures forall j :: from <= j < e ==> !OccursAt(s, sep, j)
  {
    match IndexOfFrom(s, sep, from)
    case None => |s|
    case Some(k) => k
  }

  /**
   * The first pieces of a split: without an occurrence the whole string;
   * otherwise the second piece runs from just after the first occurrence to
   * the next one, or to the end.
   */
  lemma SplitSecondPiece(s: string, sep: string)
    requires |sep| > 0
    ensures IndexOfFrom(s, sep, 0).None? ==> Split(s, sep) == [s]
    ensures IndexOfFrom(s, sep, 0).Some? ==>
      var start := IndexOfFrom(s, sep, 0).value + |sep|;
      |Split(s, sep)| >= 2 && Split(s, sep)[1] == s[start..PieceEnd(s, sep, start)]
  {
    match IndexOfFrom(s, sep, 0)
    case None =>
      assert s[0..] == s;
    case Some(i) =>
      var start := i + |sep|;
      var rest := SplitFrom(s, sep, start);
      assert Split(s, sep) == [s[0..i]] + rest;
      match IndexOfFrom(s, sep, start)
      case None =>
        assert rest == [s[start..]];
        assert s[start..] == s[start..|s|];
      case Some(k) =>
        assert rest == [s[start..k]] + SplitFrom(s, sep, k + |sep|);
  }

  /** Round trip: joining the pieces of a split with the separator gives back the string. */
  lemma JoinSplit(s: string, sep: string)
    requires |sep| > 0
    ensures Join(Split(s, sep), sep) == s
    ensures forall k :: 0 <= k < |Split(s, sep)| ==> !Contains(Split(s, sep)[k], sep)
  {
    JoinSplitFrom(s, sep, 0);
  }

  /** Joining ends with the separator and the last piece. */
  lemma {:induction false} JoinLast(parts: seq<string>, sep: string)
    requires |parts| >= 2
    ensures Join(parts, sep) == Join(parts[..|parts| - 1], sep) + sep + parts[|parts| - 1]
    decreases |parts|
  {
    if |parts| > 2 {
      JoinLast(parts[1..], sep);
      assert parts[1..][..|parts| - 2] == parts[..|parts| - 1][1..];
    }
  }

  /** A one-character separator that does not occur as a piece does not occur as a character. */
  lemma CharNotContained(s: string, c: char)
    requires !Contains(s, [c])
    ensures c !in s
  {
    forall i | 0 <= i < |s| ensures s[i] != c {
      assert s[i..i + 1] == [s[i]];
      assert !OccursAt(s, [c], i);
    }
  }

  /** s.split(c).pop(): the text after the last c, or all of s when c does not occur. */
  function AfterLast(s: string, c: char): (r: string)
    ensures c !in r
    ensures |r| <= |s| && s[|s| - |r|..] == r
    ensures |r| < |s| ==> s[|s| - |r| - 1] == c
  {
    LastPieceFacts(s, c);
    Split(s, [c])[|Split(s, [c])| - 1]
  }

  lemma LastPieceFacts(s: string, c: char)
    ensures var parts := Split(s, [c]); var last := parts[|parts| - 1];
      c !in last && |last| <= |s| && s[|s| - |last|..] == last
      && (|last| < |s| ==> s[|s| - |last| - 1] == c)
  {
    var parts := Split(s, [c]);
    JoinSplit(s, [c]);
    var last := parts[|parts| - 1];
    CharNotContained(last, c);
    if |parts| >= 2 {
      JoinLast(parts, [c]);
      var front := Join(parts[..|parts| - 1], [c]);
      assert s == front + [c] + last;
      assert s[|s| - |last|..] == last;
    }
  }

  /** A separator cannot occur where the string holds a character other than the separator's first. */
  lemma StartsElsewhere(s: string, sep: string, j: int)
    requires 0 <= j < |s| && |sep| > 0 && s[j] != sep[0]
    ensures !OccursAt(s, sep, j)
  {
    if j + |sep| <= |s| {
      assert s[j..j + |sep|][0] == s[j];
    }
  }

  /** Splitting a + sep + b where the one-character separator occurs in neither a nor b. */
  lemma SplitAround(a: string, c: char, b: string)
    requires c !in a && c !in b
    ensures Split(a + [c] + b, [c]) == [a, b]
  {
    var s := a + [c] + b;
    assert OccursAt(s, [c], |a|);
    forall j | 0 <= j < |a| ensures !OccursAt(s, [c], j) {
      assert s[j] == a[j];
      StartsElsewhere(s, [c], j);
    }
    assert IndexOfFrom(s, [c], 0) == Some(|a|);
    forall j | |a| + 1 <= j < |s| ensures !OccursAt(s, [c], j) {
      assert s[j] == b[j - |a| - 1];
      StartsElsewhere(s, [c], j);
    }
    assert IndexOfFrom(s, [c], |a| + 1).None?;
    assert s[0..|a|] == a && s[|a| + 1..] == b;
    assert SplitFrom(s, [c], |a| + 1) == [b];
  }

  /** Splitting a string in which a one-character separator does not occur. */
  lemma SplitWithout(s: string, c: char)
    requires c !in s
    ensures Split(s, [c]) == [s]
  {
    forall j | 0 <= j < |s| ensures !OccursAt(s, [c], j) {
      assert s[j..j + 1] == [s[j]];
    }
  }

  /** Splitting a + sep + b on a two-character separator that starts with a character absent from a and b. */
  lemma SplitAroundPair(a: string, sep: string, b: string)
    requires |sep| == 2 && sep[0] !in a && sep[0] !in b
    ensures Split(a + sep + b, sep) == [a, b]
  {
    var s := a + sep + b;
    assert OccursAt(s, sep, |a|);
    forall j | 0 <= j < |a| ensures !OccursAt(s, sep, j) {
      assert s[j] == a[j];
      StartsElsewhere(s, sep, j);
    }
    assert IndexOfFrom(s, sep, 0) == Some(|a|);
    forall j | |a| + 2 <= j < |s| ensures !OccursAt(s, sep, j) {
      assert s[j] == b[j - |a| - 2];
      StartsElsewhere(s, sep, j);
    }
    assert IndexOfFrom(s, sep, |a| + 2).None?;
    assert s[0..|a|] == a && s[|a| + 2..] == b;
    assert SplitFrom(s, sep, |a| + 2) == [b];
  }

  /** The characters String.prototype.trim removes: ECMAScript WhiteSpace and LineTerminator. */
  predicate IsWhitespace(c: char) {
    c == ' ' || c == '\t' || c == '\n' || c == '\r' || c == '\U{000B}' || c == '\U{000C}'
    || c == '\U{00A0}' || c == '\U{1680}' || ('\U{2000}' <= c <= '\U{200A}')
    || c == '\U{2028}' || c == '\U{2029}' || c == '\U{202F}' || c == '\U{205F}'
    || c == '\U{3000}' || c == '\U{FEFF}'
  }

  predicate AllWhitespace(s: string) {
    forall i :: 0 <= i < |s| ==> IsWhitespace(s[i])
  }

  /** The number of whitespace characters s starts with. */
  function LeadingWhitespace(s: string): (n: nat)
    ensures n <= |s| && AllWhitespace(s[..n]) && (n < |s| ==> !IsWhitespace(s[n]))
  {
    if s != [] && IsWhitespace(s[0]) then
      var n := 1 + LeadingWhitespace(s[1..]);
      assert s[..n] == [s[0]] + s[1..][..n - 1];
      n
    else 0
  }

  /** The length of s without the whitespace it ends with. */
  function WithoutTrailingWhitespace(s: string): (n: nat)
    ensures n <= |s| && AllWhitespace(s[n..]) && (0 < n ==> !IsWhitespace(s[n - 1]))
  {
    if s != [] && IsWhitespace(s[|s| - 1]) then
      var init := s[..|s| - 1];
      var n := WithoutTrailingWhitespace(init);
      assert s[n..] == init[n..] + [s[|s| - 1]];
      n
    else |s|
  }

  /** s.trim(): s without its leading and trailing whitespace. */
  function Trim(s: string): string {
    var t := s[LeadingWhitespace(s)..];
    t[..WithoutTrailingWhitespace(t)]
  }

  /**
   * trim() removes exactly the leading and trailing whitespace: the result is
   * a slice of s, what is cut off is whitespace, and the result neither
   * starts nor ends with whitespace.
   */
  lemma TrimFacts(s: string)
    ensures exists i, j :: 0 <= i <= j <= |s| && Trim(s) == s[i..j]
                           && AllWhitespace(s[..i]) && AllWhitespace(s[j..])
    ensures Trim(s) != [] ==> !IsWhitespace(Trim(s)[0]) && !IsWhitespace(Trim(s)[|Trim(s)| - 1])
  {
    var i := LeadingWhitespace(s);
    var t := s[i..];
    var n := WithoutTrailingWhitespace(t);
    assert t[..n] == s[i..i + n];
    assert t[n..] == s[i + n..];
    assert Trim(s) == s[i..i + n] && AllWhitespace(s[..i]) && AllWhitespace(s[i + n..]);
  }

  /** A string trims to "" (is falsy after trim) exactly when it is all whitespace. */
  lemma {:induction false} TrimEmptyIffBlank(s: string)
    ensures Trim(s) == "" <==> AllWhitespace(s)
  {
    TrimFacts(s);
    var i, j :| 0 <= i <= j <= |s| && Trim(s) == s[i..j]
                && AllWhitespace(s[..i]) && AllWhitespace(s[j..]);
    if Trim(s) == "" {
      forall k | 0 <= k < |s| ensures IsWhitespace(s[k]) {
        if k < i {
          assert s[k] == s[..i][k];
        } else {
          assert s[k] == s[j..][k - j];
        }
      }
    }
  }

  /** A string with no whitespace at either end trims to itself. */
  lemma TrimUntouched(s: string)
    requires s == [] || (!IsWhitespace(s[0]) && !IsWhitespace(s[|s| - 1]))
    ensures Trim(s) == s
  {
  }

  lemma WhitespaceOutside(t: string, n: nat, m: nat)
    requires n <= m <= |t| && AllWhitespace(t[..n]) && AllWhitespace(t[m..])
    ensures forall i :: 0 <= i < |t| && (i < n || m <= i) ==> IsWhitespace(t[i])
  {
    forall i | 0 <= i < |t| && (i < n || m <= i) ensures IsWhitespace(t[i]) {
      if i < n {
        assert t[..n][i] == t[i];
      } else {
        assert t[m..][i - m] == t[i];
      }
    }
  }

  /** Trimming a word followed by one space gives the word back. */
  lemma TrimTrailingSpace(s: string)
    requires s != [] && !IsWhitespace(s[0]) && !IsWhitespace(s[|s| - 1])
    ensures Trim(s + " ") == s
  {
    var t := s + " ";
    var n := LeadingWhitespace(t);
    WhitespaceOutside(t, n, |t|);
    assert t[0] == s[0];
    assert n == 0;
    assert t[n..] == t;
    var m := WithoutTrailingWhitespace(t);
    WhitespaceOutside(t, 0, m);
    assert t[|s|] == ' ' && t[|s| - 1] == s[|s| - 1];
    assert m == |s|;
    assert t[..m] == s;
  }

  /** s.replace(c, d) with a one-character string pattern: only the first c is replaced. */
  function ReplaceFirst(s: string, c: char, d: char): (r: string)
    ensures |r| == |s|
    ensures forall k :: 0 <= k < |s| ==> r[k] == if s[k] == c && c !in s[..k] then d else s[k]
  {
    match IndexOfFrom(s, [c], 0)
    case None =>
      assert forall k :: 0 <= k < |s| ==> s[k] != c by {
        forall k | 0 <= k < |s| ensures s[k] != c {
          assert !OccursAt(s, [c], k);
          assert s[k..k + 1] == [s[k]];
        }
      }
      s
    case Some(i) =>
      assert s[i] == c by {
        assert s[i..i + 1] == [s[i]];
      }
      assert forall k :: 0 <= k < i ==> s[k] != c by {
        forall k | 0 <= k < i ensures s[k] != c {
          assert !OccursAt(s, [c], k);
          assert s[k..k + 1] == [s[k]];
        }
      }
      assert forall k :: i < k < |s| ==> c in s[..k] by {
        forall k | i < k < |s| ensures c in s[..k] {
          assert s[..k][i] == c;
        }
      }
      s[..i] + [d] + s[i + 1..]
  }
}
