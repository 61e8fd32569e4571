/** The canonical printing of a label map (services/query-exporter/utils/utils.go)
    and the substring test that deletion uses on it
    (services/query-exporter/collectors/histogram.go, services/query-exporter/main.go). */
module Labels {
  import opened Texts

  type Labels = map<string, string>

  // ------------------------------------------------------------- the printer

  function Entry(name: string, value: string): string {
    name + "=\"" + value + "\","
  }

  function Print(pairs: seq<(string, string)>): string {
    if pairs == [] then "" else Entry(pairs[0].0, pairs[0].1) + Print(pairs[1..])
  }

  function Pairs(keys: seq<string>, m: Labels): seq<(string, string)>
    requires forall k :: k in keys ==> k in m
  {
    seq(|keys|, i requires 0 <= i < |keys| => assert keys[i] in keys; (keys[i], m[keys[i]]))
  }

  ghost predicate Enumerates(keys: seq<string>, m: Labels) {
    StrictlySorted(keys) && forall k :: k in keys <==> k in m
  }

  /** The keys of a set in ascending order. */
  ghost function SortedKeys(s: set<string>): (keys: seq<string>)
    ensures StrictlySorted(keys) && forall k :: k in keys <==> k in s
  {
    if s == {} then []
    else
      var x :| x in s;
      InsertStringSorted(x, SortedKeys(s - {x}));
      InsertString(x, SortedKeys(s - {x}))
  }

  /** The one text that stands for a label map. */
  ghost function Canonical(m: Labels): string {
    Print(Pairs(SortedKeys(m.Keys), m))
  }

  lemma {:induction false} PrintSplit(a: seq<(string, string)>, b: seq<(string, string)>)
    ensures Print(a + b) == Print(a) + Print(b)
  {
    hide Entry;
    if a == [] {
      assert a + b == b;
    } else {
      PrintSplit(a[1..], b);
      assert (a + b)[1..] == a[1..] + b && (a + b)[0] == a[0];
      var e := Entry(a[0].0, a[0].1);
      assert e + (Print(a[1..]) + Print(b)) == (e + Print(a[1..])) + Print(b);
    }
  }

  lemma PrintNone()
    ensures Print([]) == ""
  {
  }

  lemma PrintOne(p: (string, string))
    ensures Print([p]) == Entry(p.0, p.1)
  {
    assert [p][1..] == [];
  }

  lemma PrintNext(pairs: seq<(string, string)>, i: nat)
    requires i < |pairs|
    ensures Print(pairs[..i + 1]) == Print(pairs[..i]) + Entry(pairs[i].0, pairs[i].1)
  {
    hide Print, Entry;
    PrintSplit(pairs[..i], [pairs[i]]);
    PrintOne(pairs[i]);
    assert pairs[..i + 1] == pairs[..i] + [pairs[i]];
  }

  /** The keys of a map, visited in any order and then sorted. */
  method SortKeys(all: set<string>) returns (keys: seq<string>)
    ensures keys == SortedKeys(all)
  {
    var rest := all;
    keys := [];
    while rest != {}
      invariant rest <= all
      invariant forall k :: k in keys <==> k in all - rest
      invariant forall i, j :: 0 <= i < j < |keys| ==> keys[i] != keys[j]
      decreases rest
    {
      var k :| k in rest;
      assert k !in keys;
      keys, rest := keys + [k], rest - {k};
    }
    SortStringsSorted(keys);
    keys := SortStrings(keys);
    SortedUnique(keys, SortedKeys(all));
  }

  /** MapToString. Go visits the map in any order; the printed text does not
      depend on it. */
  method MapToString(m: Labels) returns (text: string)
    ensures text == Canonical(m)
  {
    hide Print;
    var keys := SortKeys(m.Keys);
    text := "";
    PrintNone();
    var i := 0;
    while i < |keys|
      invariant 0 <= i <= |keys|
      invariant text == Print(Pairs(keys, m)[..i])
    {
      assert keys[i] in keys;
      PrintNext(Pairs(keys, m), i);
      text := text + (keys[i] + "=\"" + m[keys[i]] + "\",");
      i := i + 1;
    }
    assert Pairs(keys, m)[..i] == Pairs(keys, m);
  }

  // ------------------------------------------------------------- injectivity

  /** A reader for the printed text. */
  function Parse(s: string): seq<(string, string)>
    decreases |s|
  {
    var i := IndexOf(s, '=');
    if i + 2 > |s| then []
    else
      var rest := s[i + 2..];
      var j := IndexOf(rest, '\"');
      if j + 2 > |rest| then [] else [(s[..i], rest[..j])] + Parse(rest[j + 2..])
  }

  lemma ParseEntry(name: string, value: string, tail: string)
    requires Free(name, '=') && Free(value, '\"')
    ensures Parse(Entry(name, value) + tail) == [(name, value)] + Parse(tail)
  {
    var s, body := Entry(name, value) + tail, value + ("\"," + tail);
    assert s == name + ("=\"" + body);
    IndexOfPrefix(name, "=\"" + body, '=');
    assert s[..|name|] == name && s[|name| + 2..] == body;
    IndexOfPrefix(value, "\"," + tail, '\"');
    assert body[..|value|] == value && body[|value| + 2..] == tail;
  }

  /** Reading back the printed pairs returns them: the printer loses nothing
      when names have no '=' and values no quote. */
  lemma {:induction false} ParsePrint(pairs: seq<(string, string)>)
    requires forall p :: p in pairs ==> Free(p.0, '=') && Free(p.1, '\"')
    ensures Parse(Print(pairs)) == pairs
  {
    if pairs != [] {
      assert pairs[0] in pairs;
      ParseEntry(pairs[0].0, pairs[0].1, Print(pairs[1..]));
      ParsePrint(pairs[1..]);
    }
  }

  ghost predicate Printable(m: Labels) {
    forall k :: k in m ==> Free(k, '=') && Free(m[k], '\"')
  }

  lemma PrintablePairs(keys: seq<string>, m: Labels)
    requires Printable(m) && forall k :: k in keys ==> k in m
    ensures forall p :: p in Pairs(keys, m) ==> Free(p.0, '=') && Free(p.1, '\"')
  {
    hide Free;
    forall p | p in Pairs(keys, m)
      ensures Free(p.0, '=') && Free(p.1, '\"')
    {
      var i :| 0 <= i < |keys| && Pairs(keys, m)[i] == p;
      assert keys[i] in keys;
    }
  }

  /** Different printable label maps never share a key. */
  lemma CanonicalInjective(m: Labels, n: Labels)
    requires Printable(m) && Printable(n) && Canonical(m) == Canonical(n)
    ensures m == n
  {
    hide SortedKeys, Print, Parse;
    var ms, ns := SortedKeys(m.Keys), SortedKeys(n.Keys);
    PrintablePairs(ms, m);
    PrintablePairs(ns, n);
    assert Pairs(ms, m) == Pairs(ns, n) by {
      ParsePrint(Pairs(ms, m));
      ParsePrint(Pairs(ns, n));
    }
    forall k
      ensures k in m <==> k in n
      ensures k in m ==> m[k] == n[k]
    {
      SameEntry(ms, m, ns, n, k);
    }
  }

  lemma SameEntry(ms: seq<string>, m: Labels, ns: seq<string>, n: Labels, k: string)
    requires Enumerates(ms, m) && Enumerates(ns, n) && Pairs(ms, m) == Pairs(ns, n)
    ensures k in m <==> k in n
    ensures k in m ==> m[k] == n[k]
  {
    assert |ms| == |Pairs(ms, m)| && |ns| == |Pairs(ns, n)|;
    forall i | 0 <= i < |ms|
      ensures ms[i] == ns[i] && ms[i] in m && ns[i] in n && m[ms[i]] == n[ns[i]]
    {
      assert ms[i] in ms && ns[i] in ns;
      assert Pairs(ms, m)[i] == (ms[i], m[ms[i]]) && Pairs(ns, n)[i] == (ns[i], n[ns[i]]);
    }
    assert ms == ns;
    if k in m {
      var i :| 0 <= i < |ms| && ms[i] == k;
    }
  }

  /** The value v of a label a reads as x, the end of the entry, and an entry of
      a later label b: a quote in v plays the closing quote. */
  ghost predicate Embeds(a: string, v: string, x: string, b: string, y: string) {
    v == x + ("\"," + (b + ("=\"" + y))) && AtMost(a, b) && a != b && Free(b, '=')
  }

  /** Then the one-label map and the two-label map print alike. */
  lemma QuoteMakesCollision(a: string, v: string, x: string, b: string, y: string)
    requires Embeds(a, v, x, b, y)
    ensures map[a := v] != map[a := x, b := y] && Canonical(map[a := v]) == Canonical(map[a := x, b := y])
  {
    hide Print, Entry;
    var m: Labels, n: Labels := map[a := v], map[a := x, b := y];
    assert b in n && b !in m;
    CanonicalOne(a, v);
    SortedUnique(SortedKeys(n.Keys), [a, b]);
    assert Pairs([a, b], n) == [(a, x)] + [(b, y)];
    PrintSplit([(a, x)], [(b, y)]);
    PrintOne((a, x));
    PrintOne((b, y));
    EntryEmbeds(a, v, x, b, y);
  }

  lemma EntryEmbeds(a: string, v: string, x: string, b: string, y: string)
    ensures v == x + ("\"," + (b + ("=\"" + y))) ==> Entry(a, v) == Entry(a, x) + Entry(b, y)
  {
  }

  lemma CanonicalOne(a: string, v: string)
    ensures Canonical(map[a := v]) == Entry(a, v)
  {
    hide Print, Entry;
    var m: Labels := map[a := v];
    SortedUnique(SortedKeys(m.Keys), [a]);
    assert Pairs([a], m) == [(a, v)];
    PrintOne((a, v));
  }

  /** The text of two labels, whichever was put into the map first. */
  lemma CanonicalTwo(a: string, x: string, b: string, y: string)
    requires AtMost(a, b) && a != b
    ensures Canonical(map[a := x, b := y]) == Canonical(map[b := y, a := x])
            == (a + "=\"" + x + "\",") + (b + "=\"" + y + "\",")
  {
    hide Print;
    var n: Labels := map[a := x, b := y];
    assert n == map[b := y, a := x];
    SortedUnique(SortedKeys(n.Keys), [a, b]);
    assert Pairs([a, b], n) == [(a, x)] + [(b, y)];
    PrintSplit([(a, x)], [(b, y)]);
    PrintOne((a, x));
    PrintOne((b, y));
  }

  ghost predicate PlainNames(m: Labels) {
    forall k :: k in m ==> Free(k, '=')
  }

  ghost predicate Collides(m: Labels, n: Labels) {
    n != m && PlainNames(n) && Canonical(n) == Canonical(m)
  }

  /** For one-label maps that is the only way to collide: another map with
      '='-free names prints alike exactly if the value embeds an entry. */
  lemma OneLabelCollidesIff(a: string, v: string)
    requires Free(a, '=')
    ensures (exists n :: Collides(map[a := v], n)) <==> exists x, b, y :: Embeds(a, v, x, b, y)
  {
    hide Canonical, Embeds;
    if x, b, y :| Embeds(a, v, x, b, y) {
      QuoteMakesCollision(a, v, x, b, y);
      PlainEmbedded(a, v, x, b, y);
      assert Collides(map[a := v], map[a := x, b := y]);
    }
    if n :| Collides(map[a := v], n) {
      CanonicalOne(a, v);
      var x, b, y := CollisionEmbeds(a, v, n);
    }
  }

  lemma PlainEmbedded(a: string, v: string, x: string, b: string, y: string)
    requires Free(a, '=') && Embeds(a, v, x, b, y)
    ensures PlainNames(map[a := x, b := y])
  {
  }

  /** A text that begins with the '='-free name a and '=' does so in one way. */
  lemma SameName(a: string, s: string, b: string, t: string)
    requires Free(a, '=') && Free(b, '=') && a + ("=" + s) == b + ("=" + t)
    ensures a == b && s == t
  {
    IndexOfPrefix(a, "=" + s, '=');
    IndexOfPrefix(b, "=" + t, '=');
    var u := a + ("=" + s);
    assert u[..|a|] == a && u[|a| + 1..] == s;
    assert u[..|b|] == b && u[|b| + 1..] == t;
  }

  lemma EntryShape(a: string, v: string, tail: string)
    ensures Entry(a, v) + tail == a + ("=" + ("\"" + (v + ("\"," + tail))))
  {
  }

  lemma ValueSplits(v: string, w: string, k: string, rest: string)
    requires v + "\"," == w + ("\"," + (k + ("=\"" + rest))) && |rest| >= 2
    ensures v == w + ("\"," + (k + ("=\"" + rest[..|rest| - 2])))
  {
    var n := |v|;
    assert v == (v + "\",")[..n];
  }

  lemma PrintFirst(pairs: seq<(string, string)>)
    requires pairs != []
    ensures Print(pairs) == Entry(pairs[0].0, pairs[0].1) + Print(pairs[1..])
  {
  }

  lemma FirstEntryOf(a: string, v: string, name: string, w: string, tail: string)
    requires Free(a, '=') && Free(name, '=') && Entry(a, v) == Entry(name, w) + tail
    ensures name == a && v + "\"," == w + ("\"," + tail)
  {
    hide Entry;
    EntryShape(a, v, "");
    assert Entry(a, v) + "" == Entry(a, v) && "\"," + "" == "\",";
    EntryShape(name, w, tail);
    SameName(a, "\"" + (v + "\","), name, "\"" + (w + ("\"," + tail)));
    AfterQuote(v + "\",", w + ("\"," + tail));
  }

  lemma SecondEntryOf(v: string, w: string, k: string, z: string, more: string) returns (y: string)
    requires v + "\"," == w + ("\"," + (Entry(k, z) + more))
    ensures v == w + ("\"," + (k + ("=\"" + y)))
  {
    var rest := z + ("\"," + more);
    assert Entry(k, z) + more == k + ("=\"" + rest);
    ValueSplits(v, w, k, rest);
    y := rest[..|rest| - 2];
  }

  lemma SameValue(v: string, w: string)
    requires v + "\"," == w + ("\"," + "")
    ensures v == w
  {
    assert "\"," + "" == "\",";
    assert (v + "\",")[..|v|] == v && (w + "\",")[..|w|] == w;
  }

  lemma EntryIsText(a: string, v: string)
    ensures Entry(a, v) != ""
  {
  }

  /** What else a one-entry text can be printed from. */
  lemma PrintsOneEntry(a: string, v: string, pairs: seq<(string, string)>)
    requires Free(a, '=') && Print(pairs) == Entry(a, v)
    requires forall p :: p in pairs ==> Free(p.0, '=')
    ensures pairs != [] && pairs[0].0 == a
    ensures if |pairs| == 1 then pairs[0].1 == v
            else exists y :: v == pairs[0].1 + ("\"," + (pairs[1].0 + ("=\"" + y)))
  {
    hide Print, Entry;
    PrintNone();
    EntryIsText(a, v);
    PrintFirst(pairs);
    assert pairs[0] in pairs;
    var w, tail := pairs[0].1, Print(pairs[1..]);
    FirstEntryOf(a, v, pairs[0].0, w, tail);
    var rest := pairs[1..];
    if rest != [] {
      PrintFirst(rest);
      var y := SecondEntryOf(v, w, rest[0].0, rest[0].1, Print(rest[1..]));
    } else {
      SameValue(v, w);
    }
  }

  lemma AfterQuote(s: string, t: string)
    requires "\"" + s == "\"" + t
    ensures s == t
  {
    assert ("\"" + s)[1..] == s && ("\"" + t)[1..] == t;
  }

  lemma CollisionEmbeds(a: string, v: string, n: Labels) returns (x: string, b: string, y: string)
    requires Free(a, '=') && PlainNames(n) && n != map[a := v] && Canonical(n) == Entry(a, v)
    ensures Embeds(a, v, x, b, y)
  {
    hide Print, Entry;
    var keys := SortedKeys(n.Keys);
    var pairs := Pairs(keys, n);
    PrintsOneEntry(a, v, pairs);
    assert keys[0] in keys && pairs[0] == (keys[0], n[keys[0]]);
    assert |keys| == 1 ==> n == map[a := v];
    assert keys[1] in keys;
    x, b := pairs[0].1, keys[1];
    y :| v == pairs[0].1 + ("\"," + (pairs[1].0 + ("=\"" + y)));
  }

  // ---------------------------------------------------------- substring test

  /** The text the deletion code looks for. */
  function Wanted(k: string, v: string): string {
    k + "=\"" + v + "\""
  }

  ghost predicate Searchable(m: Labels) {
    forall k :: k in m ==> Free(k, '=') && Free(m[k], '=') && Free(m[k], '\"')
  }

  ghost predicate HasSuffixedLabel(m: Labels, k: string, v: string) {
    exists name :: name in m && EndsWith(name, k) && m[name] == v
  }

  /** A match of k="v" that starts in the first entry lies in it, right before
      its separator, and so names that entry's value. */
  lemma MatchInEntry(name: string, value: string, tail: string, k: string, v: string, i: nat)
    requires Free(name, '=') && Free(value, '=') && Free(value, '\"') && Free(k, ',') && Free(v, '\"')
    requires var s := Entry(name, value) + tail;
             i < |Entry(name, value)| && MatchesAt(s, i, Wanted(k, v))
    ensures EndsWith(name, k) && value == v
  {
    var e, w := Entry(name, value), Wanted(k, v);
    var s := e + tail;
    assert forall x :: 0 <= x < |w| ==> s[i + x] == w[x];
    assert w[|k|] == '=' && w[|w| - 1] == '\"';
    assert i + |k| < |e| by {
      assert s[|e| - 1] == s[i + (|e| - 1 - i)] == ',';
      assert forall x :: 0 <= x < |k| ==> w[x] == k[x];
    }
    assert i + |k| == |name| by {
      assert s[i + |k|] == '=' && e[i + |k|] == '=';
      OnlySeparator(name, value, i + |k|);
    }
    assert name[i..] == k by {
      assert forall x :: 0 <= x < |k| ==> name[i + x] == s[i + x] == w[x] == k[x];
    }
    ValuesAgree(name, value, tail, k, v, i);
  }

  lemma OnlySeparator(name: string, value: string, x: nat)
    requires Free(name, '=') && Free(value, '=')
    requires x < |Entry(name, value)| && Entry(name, value)[x] == '='
    ensures x == |name|
  {
    var e := Entry(name, value);
    assert forall y :: 0 <= y < |name| ==> e[y] == name[y];
    assert forall y :: 0 <= y < |value| ==> e[|name| + 2 + y] == value[y];
    assert x >= |name| + 2 ==> x == |name| + 2 + (x - |name| - 2);
  }

  lemma ValuesAgree(name: string, value: string, tail: string, k: string, v: string, i: nat)
    requires Free(value, '\"') && Free(v, '\"') && i + |k| == |name|
    requires MatchesAt(Entry(name, value) + tail, i, Wanted(k, v))
    ensures value == v
  {
    hide IndexOf;
    var s, w := Entry(name, value) + tail, Wanted(k, v);
    var u, rest := s[|name| + 2..], s[i + |w|..];
    assert u == value + ("\"," + tail);
    assert u == v + ("\"" + rest) by {
      assert s == s[..i] + w + rest;
      assert w == (k + "=\"") + (v + "\"");
    }
    IndexOfPrefix(value, "\"," + tail, '\"');
    IndexOfPrefix(v, "\"" + rest, '\"');
    assert u[..|value|] == value && u[..|v|] == v;
  }

  /** An entry whose name ends with k and whose value is v is always found. */
  lemma EntryFound(name: string, value: string, tail: string, k: string)
    requires EndsWith(name, k)
    ensures Contains(Entry(name, value) + tail, Wanted(k, value))
  {
    var s, w, i := Entry(name, value) + tail, Wanted(k, value), |name| - |k|;
    assert s == name[..i] + w + ("," + tail);
    assert MatchesAt(s, i, w);
  }

  lemma {:induction false} PrintContains(pairs: seq<(string, string)>, k: string, v: string)
    requires forall p :: p in pairs ==> Free(p.0, '=') && Free(p.1, '=') && Free(p.1, '\"')
    requires Free(k, ',') && Free(v, '\"')
    requires Contains(Print(pairs), Wanted(k, v))
    ensures exists p :: p in pairs && EndsWith(p.0, k) && p.1 == v
  {
    var s, w := Print(pairs), Wanted(k, v);
    var i: nat :| MatchesAt(s, i, w);
    assert pairs[0] in pairs;
    var e, tail := Entry(pairs[0].0, pairs[0].1), Print(pairs[1..]);
    if i < |e| {
      MatchInEntry(pairs[0].0, pairs[0].1, tail, k, v, i);
    } else {
      assert MatchesAt(tail, i - |e|, w);
      PrintContains(pairs[1..], k, v);
    }
  }

  /** The substring test on a canonical text succeeds exactly when some label
      whose name ends with k has value v. */
  lemma SubstringTest(m: Labels, k: string, v: string)
    requires Searchable(m) && Free(k, ',') && Free(v, '\"')
    ensures Contains(Canonical(m), Wanted(k, v)) <==> HasSuffixedLabel(m, k, v)
  {
    var keys := SortedKeys(m.Keys);
    var pairs := Pairs(keys, m);
    if Contains(Canonical(m), Wanted(k, v)) {
      forall p | p in pairs
        ensures p.0 in m && m[p.0] == p.1
      {
        var i :| 0 <= i < |pairs| && pairs[i] == p;
        assert keys[i] in keys;
      }
      PrintContains(pairs, k, v);
      var p :| p in pairs && EndsWith(p.0, k) && p.1 == v;
      assert p.0 in m;
    }
    if HasSuffixedLabel(m, k, v) {
      var name :| name in m && EndsWith(name, k) && m[name] == v;
      SuffixFound(m, name, k);
    }
  }

  lemma ContainsLater(before: string, s: string, pattern: string)
    requires Contains(s, pattern)
    ensures Contains(before + s, pattern)
  {
    var i: nat :| MatchesAt(s, i, pattern);
    assert MatchesAt(before + s, |before| + i, pattern);
  }

  lemma {:induction false} PrintFinds(pairs: seq<(string, string)>, i: nat, k: string)
    requires i < |pairs| && EndsWith(pairs[i].0, k)
    ensures Contains(Print(pairs), Wanted(k, pairs[i].1))
  {
    if i == 0 {
      EntryFound(pairs[0].0, pairs[0].1, Print(pairs[1..]), k);
    } else {
      PrintFinds(pairs[1..], i - 1, k);
      ContainsLater(Entry(pairs[0].0, pairs[0].1), Print(pairs[1..]), Wanted(k, pairs[i].1));
    }
  }

  /** Without any assumption on the labels, a label with the wanted name and
      value is never missed. */
  lemma SuffixFound(m: Labels, name: string, k: string)
    requires name in m && EndsWith(name, k)
    ensures Contains(Canonical(m), Wanted(k, m[name]))
  {
    var keys := SortedKeys(m.Keys);
    var i :| 0 <= i < |keys| && keys[i] == name;
    PrintFinds(Pairs(keys, m), i, k);
  }

  /** With no other label name ending in k, the test is exact. */
  lemma SubstringTestExact(m: Labels, k: string, v: string)
    requires Searchable(m) && Free(k, ',') && Free(v, '\"')
    requires forall name :: name in m && EndsWith(name, k) ==> name == k
    ensures Contains(Canonical(m), Wanted(k, v)) <==> k in m && m[k] == v
  {
    SubstringTest(m, k, v);
    assert EndsWith(k, k);
  }
}
