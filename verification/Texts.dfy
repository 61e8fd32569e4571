/** Go's string helpers, as far as the modelled code uses them. */
module Texts {

  // ------------------------------------------------------------ sort.Strings

  /** Lexicographic order. */
  predicate AtMost(a: string, b: string) {
    a == "" || (b != "" && (a[0] < b[0] || (a[0] == b[0] && AtMost(a[1..], b[1..]))))
  }

  lemma {:induction false} AtMostTotal(a: string, b: string)
    ensures AtMost(a, b) || AtMost(b, a)
    ensures AtMost(a, b) && AtMost(b, a) ==> a == b
  {
    if a != "" && b != "" && a[0] == b[0] {
      AtMostTotal(a[1..], b[1..]);
      assert a == [a[0]] + a[1..] && b == [b[0]] + b[1..];
    }
  }

  lemma {:induction false} AtMostTransitive(a: string, b: string, c: string)
    requires AtMost(a, b) && AtMost(b, c)
    ensures AtMost(a, c)
  {
    if a != "" && a[0] == b[0] && b[0] == c[0] {
      AtMostTransitive(a[1..], b[1..], c[1..]);
    }
  }

  /** Ascending without repetitions. */
  predicate StrictlySorted(s: seq<string>) {
    forall i, j :: 0 <= i < j < |s| ==> AtMost(s[i], s[j]) && s[i] != s[j]
  }

  function InsertString(x: string, s: seq<string>): seq<string> {
    if s == [] || AtMost(x, s[0]) then [x] + s else [s[0]] + InsertString(x, s[1..])
  }

  lemma {:induction false} InsertStringSorted(x: string, s: seq<string>)
    requires StrictlySorted(s) && x !in s
    ensures StrictlySorted(InsertString(x, s))
    ensures forall y :: y in InsertString(x, s) <==> y == x || y in s
  {
    if s == [] {
    } else if AtMost(x, s[0]) {
      forall j | 0 <= j < |s|
        ensures AtMost(x, s[j])
      {
        if j > 0 {
          AtMostTransitive(x, s[0], s[j]);
        }
      }
    } else {
      InsertStringSorted(x, s[1..]);
      AtMostTotal(x, s[0]);
      var tail := InsertString(x, s[1..]);
      assert forall y :: y in s[1..] ==> AtMost(s[0], y) && y != s[0];
      assert forall j :: 0 <= j < |tail| ==> tail[j] in tail;
    }
  }

  /** sort.Strings */
  function SortStrings(s: seq<string>): seq<string> {
    if s == [] then [] else InsertString(s[0], SortStrings(s[1..]))
  }

  lemma {:induction false} SortStringsSorted(s: seq<string>)
    requires forall i, j :: 0 <= i < j < |s| ==> s[i] != s[j]
    ensures StrictlySorted(SortStrings(s))
    ensures forall y :: y in SortStrings(s) <==> y in s
  {
    if s != [] {
      SortStringsSorted(s[1..]);
      InsertStringSorted(s[0], SortStrings(s[1..]));
    }
  }

  /** A set has only one strictly sorted enumeration. */
  lemma {:induction false} SortedUnique(s: seq<string>, t: seq<string>)
    requires StrictlySorted(s) && StrictlySorted(t)
    requires forall y :: y in s <==> y in t
    ensures s == t
  {
    if s != [] {
      assert s[0] in t;
    }
    if t != [] {
      assert t[0] in s;
    }
    if s != [] {
      AtMostTotal(s[0], t[0]);
      assert s[0] == t[0];
      forall y
        ensures y in s[1..] <==> y in t[1..]
      {
        assert y in s <==> y == s[0] || y in s[1..];
        assert y in t <==> y == t[0] || y in t[1..];
      }
      SortedUnique(s[1..], t[1..]);
      assert s == [s[0]] + s[1..] && t == [t[0]] + t[1..];
    }
  }

  // ---------------------------------------------------------- searching text

  predicate MatchesAt(s: string, i: nat, pattern: string) {
    i + |pattern| <= |s| && s[i..i + |pattern|] == pattern
  }

  /** strings.Contains */
  ghost predicate Contains(s: string, pattern: string) {
    exists i :: MatchesAt(s, i, pattern)
  }

  predicate EndsWith(s: string, suffix: string) {
    |suffix| <= |s| && s[|s| - |suffix|..] == suffix
  }

  /** s has no occurrence of c. */
  predicate Free(s: string, c: char) {
    forall i :: 0 <= i < |s| ==> s[i] != c
  }

  /** The first position of c, or |s|. */
  function IndexOf(s: string, c: char): (i: nat)
    ensures i <= |s| && (i < |s| ==> s[i] == c)
    ensures forall j :: 0 <= j < i ==> s[j] != c
  {
    if s == "" || s[0] == c then 0 else 1 + IndexOf(s[1..], c)
  }

  lemma IndexOfPrefix(a: string, b: string, c: char)
    requires Free(a, c) && b != "" && b[0] == c
    ensures IndexOf(a + b, c) == |a|
  {
    assert forall j :: 0 <= j < |a| ==> (a + b)[j] == a[j];
    assert (a + b)[|a|] == c;
  }

  /** strings.Contains, by trying each position. */
  method FindText(s: string, pattern: string) returns (found: bool)
    ensures found <==> Contains(s, pattern)
  {
    var i := 0;
    while i + |pattern| <= |s|
      invariant 0 <= i
      invariant forall k: nat :: k < i ==> !MatchesAt(s, k, pattern)
    {
      if s[i..i + |pattern|] == pattern {
        assert MatchesAt(s, i, pattern);
        return true;
      }
      i := i + 1;
    }
    return false;
  }

  // -------------------------------------------------------- Split, Join, Trim

  /** strings.Split with a one-character separator: never an empty list. */
  function Split(s: string, sep: char): (parts: seq<string>)
    ensures parts != []
    decreases |s|
  {
    var i := IndexOf(s, sep);
    if i == |s| then [s] else [s[..i]] + Split(s[i + 1..], sep)
  }

  /** strings.Join */
  function Join(parts: seq<string>, sep: char): string {
    if parts == [] then ""
    else if |parts| == 1 then parts[0]
    else parts[0] + ([sep] + Join(parts[1..], sep))
  }

  lemma SplitFirst(a: string, sep: char, b: string)
    requires Free(a, sep)
    ensures Split(a + ([sep] + b), sep) == [a] + Split(b, sep)
  {
    var s := a + ([sep] + b);
    IndexOfPrefix(a, [sep] + b, sep);
    assert s[..|a|] == a && s[|a| + 1..] == b;
  }

  lemma SplitFree(s: string, sep: char)
    requires Free(s, sep)
    ensures Split(s, sep) == [s]
  {
  }

  /** Splitting a + sep + b splits a and b. */
  lemma {:induction false} SplitAppend(a: string, sep: char, b: string)
    ensures Split(a + ([sep] + b), sep) == Split(a, sep) + Split(b, sep)
    decreases |a|
  {
    hide Split;
    var i := IndexOf(a, sep);
    if i == |a| {
      SplitFirst(a, sep, b);
      SplitFree(a, sep);
    } else {
      var x, y := a[..i], a[i + 1..];
      assert a == x + ([sep] + y);
      SplitFirst(x, sep, y);
      SplitFirst(x, sep, y + ([sep] + b));
      SplitAppend(y, sep, b);
      assert a + ([sep] + b) == x + ([sep] + (y + ([sep] + b)));
      assert [x] + (Split(y, sep) + Split(b, sep)) == [x] + Split(y, sep) + Split(b, sep);
    }
  }

  /** The parts of a joined list are the parts of its elements. */
  lemma {:induction false} SplitJoinParts(list: seq<string>, sep: char, p: string)
    requires list != []
    ensures p in Split(Join(list, sep), sep) <==> exists i :: 0 <= i < |list| && p in Split(list[i], sep)
  {
    hide Split;
    if |list| > 1 {
      SplitAppend(list[0], sep, Join(list[1..], sep));
      SplitJoinParts(list[1..], sep, p);
      if i :| 0 <= i < |list| && p in Split(list[i], sep) {
        assert i > 0 ==> list[1..][i - 1] == list[i];
      }
      if i :| 0 <= i < |list[1..]| && p in Split(list[1..][i], sep) {
        assert list[i + 1] == list[1..][i];
      }
    }
  }

  /** Splitting undoes joining when no element holds the separator. */
  lemma {:induction false} SplitJoin(list: seq<string>, sep: char)
    requires list != [] && forall i :: 0 <= i < |list| ==> Free(list[i], sep)
    ensures Split(Join(list, sep), sep) == list
  {
    hide Split;
    SplitFree(list[0], sep);
    if |list| > 1 {
      SplitAppend(list[0], sep, Join(list[1..], sep));
      SplitJoin(list[1..], sep);
    }
  }

  /** No part of a split text holds the separator. */
  lemma {:induction false} SplitPartsFree(s: string, sep: char)
    ensures forall p :: p in Split(s, sep) ==> Free(p, sep)
    decreases |s|
  {
    var i := IndexOf(s, sep);
    if i < |s| {
      SplitPartsFree(s[i + 1..], sep);
    }
  }

  /** Splitting undoes joining exactly if no element holds the separator. */
  lemma SplitJoinIff(list: seq<string>, sep: char)
    requires list != []
    ensures Split(Join(list, sep), sep) == list <==> forall i :: 0 <= i < |list| ==> Free(list[i], sep)
  {
    hide Split, Join, Free;
    SplitPartsFree(Join(list, sep), sep);
    assert forall i :: 0 <= i < |list| ==> list[i] in list;
    if forall i :: 0 <= i < |list| ==> Free(list[i], sep) {
      SplitJoin(list, sep);
    }
  }

  /** unicode.IsSpace */
  predicate IsSpace(c: char) {
    || c in "\t\n\r " || c as int in {0x0B, 0x0C, 0x85, 0xA0, 0x1680, 0x2028, 0x2029, 0x202F, 0x205F, 0x3000}
    || 0x2000 <= c as int <= 0x200A
  }

  function TrimLeft(s: string): string {
    if s != "" && IsSpace(s[0]) then TrimLeft(s[1..]) else s
  }

  function TrimRight(s: string): string {
    if s != "" && IsSpace(s[|s| - 1]) then TrimRight(s[..|s| - 1]) else s
  }

  /** strings.TrimSpace */
  function TrimSpace(s: string): string {
    TrimRight(TrimLeft(s))
  }

  predicate Trimmed(s: string) {
    s == "" || (!IsSpace(s[0]) && !IsSpace(s[|s| - 1]))
  }

  // ------------------------------------------------------------ on characters

  /** The code points with the Unicode property White_Space. */
  ghost predicate WhiteSpace(c: char) {
    var n := c as int;
    || 9 <= n <= 13 || n == 32 || n == 133 || n == 160 || n == 5760 || 8192 <= n <= 8202
    || n == 8232 || n == 8233 || n == 8239 || n == 8287 || n == 12288
  }

  ghost predicate AllWhite(s: string) {
    forall i :: 0 <= i < |s| ==> WhiteSpace(s[i])
  }

  lemma {:induction false} TrimLeftDrops(a: string, s: string)
    requires AllWhite(a) && (s == "" || !WhiteSpace(s[0]))
    ensures TrimLeft(a + s) == s
  {
    if a == "" {
      assert a + s == s;
    } else {
      TrimLeftDrops(a[1..], s);
      assert (a + s)[1..] == a[1..] + s;
    }
  }

  lemma {:induction false} TrimRightDrops(s: string, b: string)
    requires AllWhite(b) && (s == "" || !WhiteSpace(s[|s| - 1]))
    ensures TrimRight(s + b) == s
  {
    if b == "" {
      assert s + b == s;
    } else {
      TrimRightDrops(s, b[..|b| - 1]);
      assert (s + b)[..|s + b| - 1] == s + b[..|b| - 1];
    }
  }

  /** Trimming takes the white space at both ends and nothing else. */
  lemma TrimDropsWhite(a: string, s: string, b: string)
    requires AllWhite(a) && AllWhite(b) && s != "" && !WhiteSpace(s[0]) && !WhiteSpace(s[|s| - 1])
    ensures TrimSpace(a + s + b) == s
  {
    hide TrimLeft, TrimRight;
    assert a + s + b == a + (s + b);
    TrimLeftDrops(a, s + b);
    TrimRightDrops(s, b);
  }

  /** The order of texts: one is a prefix of the other, or the first character in
      which they differ decides. */
  lemma {:induction false} AtMostIff(a: string, b: string)
    ensures AtMost(a, b) <==> exists i: nat :: DecidedAt(a, b, i)
  {
    if a == "" {
      assert DecidedAt(a, b, 0);
    } else if b != "" && a[0] == b[0] {
      AtMostIff(a[1..], b[1..]);
      if i: nat :| DecidedAt(a[1..], b[1..], i) {
        assert a[..i + 1] == [a[0]] + a[1..][..i] && b[..i + 1] == [b[0]] + b[1..][..i];
        assert DecidedAt(a, b, i + 1);
      }
      if i: nat :| DecidedAt(a, b, i) {
        assert i > 0 ==> a[1..][..i - 1] == a[..i][1..] && b[1..][..i - 1] == b[..i][1..];
        assert i > 0 ==> DecidedAt(a[1..], b[1..], i - 1);
      }
    } else if b != "" && a[0] < b[0] {
      assert DecidedAt(a, b, 0);
    } else {
      forall i: nat
        ensures !DecidedAt(a, b, i)
      {
        assert 0 < i <= |a| && i <= |b| ==> a[..i][0] == a[0] && b[..i][0] == b[0];
      }
    }
  }

  ghost predicate DecidedAt(a: string, b: string, i: nat) {
    i <= |a| && i <= |b| && a[..i] == b[..i] && (i == |a| || (i < |b| && a[i] < b[i]))
  }
}
