/** The list of PostgreSQL parameters: "key=value" or "key: value"
    (operator/pkg/reconciler/patroni.go, operator/pkg/patroni/patroni.go). */
module PgParams {
  import opened Texts

  /** strings.Replace(param, "=", ":", 1) */
  function Normalized(param: string): (r: string)
    ensures |r| == |param|
  {
    var i := IndexOf(param, '=');
    if i == |param| then param else param[..i] + ":" + param[i + 1..]
  }

  function KeyPart(param: string): string {
    var n := Normalized(param);
    n[..IndexOf(n, ':')]
  }

  predicate HasSeparator(param: string) {
    IndexOf(Normalized(param), ':') < |param|
  }

  /** The text after the first separator. */
  function ValuePart(param: string): string
    requires HasSeparator(param)
  {
    var n := Normalized(param);
    n[IndexOf(n, ':') + 1..]
  }

  function KeyOf(param: string): string {
    TrimSpace(KeyPart(param))
  }

  /** What the reader answers for an entry. */
  function ValueOf(param: string): string {
    if HasSeparator(param) then TrimSpace(ValuePart(param)) else ""
  }

  datatype Answer = Absent | Present(value: string)

  /** The first entry with the key decides. */
  ghost function Lookup(params: seq<string>, key: string): Answer {
    if params == [] then Absent
    else if KeyOf(params[0]) == key then Present(ValueOf(params[0]))
    else Lookup(params[1..], key)
  }

  function EntryFor(key: string, value: string): string {
    key + ": " + value
  }

  ghost function Ensured(params: seq<string>, key: string, value: string): seq<string> {
    if params == [] then [EntryFor(key, value)]
    else if KeyOf(params[0]) == key then [EntryFor(key, value)] + params[1..]
    else [params[0]] + Ensured(params[1..], key, value)
  }

  // -------------------------------------------------------------- the program

  class PatroniCore {
    var params: seq<string>

    /** getPostgreSQLParam */
    method GetPostgreSQLParam(key: string) returns (value: string, found: bool)
      ensures (if found then Present(value) else Absent) == Lookup(params, key)
    {
      hide KeyOf, ValueOf;
      var i := 0;
      while i < |params|
        invariant 0 <= i <= |params|
        invariant forall j :: 0 <= j < i ==> KeyOf(params[j]) != key
      {
        if KeyOf(params[i]) == key {
          LookupSkips(params, key, i);
          return ValueOf(params[i]), true;
        }
        i := i + 1;
      }
      LookupSkips(params, key, i);
      return "", false;
    }

    /** ensurePostgreSQLParam */
    method EnsurePostgreSQLParam(key: string, value: string)
      modifies this
      ensures params == Ensured(old(params), key, value)
    {
      hide KeyOf, EntryFor;
      var i := 0;
      while i < |params|
        invariant 0 <= i <= |params| && params == old(params)
        invariant forall j :: 0 <= j < i ==> KeyOf(params[j]) != key
      {
        if KeyOf(params[i]) == key {
          EnsuredSkips(params, key, value, i);
          params := params[i := EntryFor(key, value)];
          assert params == old(params)[..i] + ([EntryFor(key, value)] + old(params)[i + 1..]);
          return;
        }
        i := i + 1;
      }
      EnsuredSkips(params, key, value, i);
      params := params + [EntryFor(key, value)];
    }

    /** The loop of UpdatePostgreSQLParams, before it adds its own defaults. */
    method BuildParameters() returns (m: map<string, string>)
      ensures m == Built(params, |params|)
    {
      hide Normalized, KeyPart, Split, RemoveFirst, TrimSpace, StoredValue;
      m := map[];
      for i := 0 to |params|
        invariant m == Built(params, i)
      {
        var param := Normalized(params[i]);
        var first := Split(param, ':')[0];
        var value := RemoveFirst(param, first + ":", 0);
        FirstPart(params[i]);
        m := m[TrimSpace(first) := TrimSpace(value)];
      }
    }
  }

  lemma {:induction false} LookupSkips(params: seq<string>, key: string, i: nat)
    requires i <= |params| && forall j :: 0 <= j < i ==> KeyOf(params[j]) != key
    ensures Lookup(params, key) == if i == |params| then Absent
                                   else if KeyOf(params[i]) == key then Present(ValueOf(params[i]))
                                   else Lookup(params[i + 1..], key)
  {
    hide KeyOf, ValueOf;
    if i > 0 {
      LookupSkips(params[1..], key, i - 1);
      assert i < |params| ==> params[1..][i..] == params[i + 1..];
    }
  }

  lemma {:induction false} EnsuredSkips(params: seq<string>, key: string, value: string, i: nat)
    requires i <= |params| && forall j :: 0 <= j < i ==> KeyOf(params[j]) != key
    requires i == |params| || KeyOf(params[i]) == key
    ensures Ensured(params, key, value) ==
            params[..i] + ([EntryFor(key, value)] + (if i == |params| then [] else params[i + 1..]))
  {
    hide KeyOf, EntryFor;
    if i > 0 {
      var rest, entry := params[1..], [EntryFor(key, value)];
      EnsuredSkips(rest, key, value, i - 1);
      assert Ensured(params, key, value) == [params[0]] + Ensured(rest, key, value);
      var after := if i == |params| then [] else params[i + 1..];
      assert i < |params| ==> rest[i..] == after;
      assert params[..i] == [params[0]] + rest[..i - 1];
      assert [params[0]] + (rest[..i - 1] + (entry + after)) == params[..i] + (entry + after);
    }
  }

  /** strings.Replace(s, pattern, "", 1), searching from position i. */
  function RemoveFirst(s: string, pattern: string, i: nat): string
    requires i <= |s|
    decreases |s| - i
  {
    if i + |pattern| > |s| then s
    else if s[i..i + |pattern|] == pattern then s[..i] + s[i + |pattern|..]
    else if i == |s| then s
    else RemoveFirst(s, pattern, i + 1)
  }

  /** What the map builder stores for an entry. */
  function StoredValue(param: string): string {
    TrimSpace(if HasSeparator(param) then ValuePart(param) else param)
  }

  ghost function Built(params: seq<string>, n: nat): map<string, string>
    requires n <= |params|
  {
    if n == 0 then map[] else Built(params, n - 1)[KeyOf(params[n - 1]) := StoredValue(params[n - 1])]
  }

  lemma FirstPart(entry: string)
    ensures var param := Normalized(entry);
            var first := Split(param, ':')[0];
            first == KeyPart(entry) && TrimSpace(RemoveFirst(param, first + ":", 0)) == StoredValue(entry)
  {
    var param := Normalized(entry);
    var i := IndexOf(param, ':');
    var first := Split(param, ':')[0];
    assert IndexOf(entry, '=') < |entry| ==> param[IndexOf(entry, '=')] == ':';
    assert first == param[..i];
    if i < |param| {
      assert param[0..0 + |first + ":"|] == first + ":";
      assert param[..0] + param[|first + ":"|..] == param[i + 1..];
    }
  }

  // -------------------------------------------------------------------- laws

  lemma {:induction false} TrimLeftIs(s: string)
    ensures |TrimLeft(s)| <= |s|
    ensures TrimLeft(s) == s <==> (s == "" || !IsSpace(s[0]))
    ensures |TrimLeft(s)| == |s| ==> TrimLeft(s) == s
    ensures TrimLeft(s) == "" || !IsSpace(TrimLeft(s)[0])
    ensures forall c :: Free(s, c) ==> Free(TrimLeft(s), c)
  {
    if s != "" && IsSpace(s[0]) {
      TrimLeftIs(s[1..]);
      forall c | Free(s, c)
        ensures Free(s[1..], c)
      {
      }
    }
  }

  lemma {:induction false} TrimRightIs(s: string)
    ensures |TrimRight(s)| <= |s|
    ensures TrimRight(s) == s <==> (s == "" || !IsSpace(s[|s| - 1]))
    ensures |TrimRight(s)| == |s| ==> TrimRight(s) == s
    ensures TrimRight(s) == "" || !IsSpace(TrimRight(s)[|TrimRight(s)| - 1])
    ensures TrimRight(s) != "" ==> s != "" && TrimRight(s)[0] == s[0]
    ensures forall c :: Free(s, c) ==> Free(TrimRight(s), c)
  {
    if s != "" && IsSpace(s[|s| - 1]) {
      TrimRightIs(s[..|s| - 1]);
      forall c | Free(s, c)
        ensures Free(s[..|s| - 1], c)
      {
      }
    }
  }

  /** Trimming shortens a text, or changes nothing because it is trimmed. */
  lemma TrimIs(s: string)
    ensures |TrimSpace(s)| <= |s|
    ensures TrimSpace(s) == s <==> Trimmed(s)
    ensures |TrimSpace(s)| == |s| ==> TrimSpace(s) == s
    ensures Trimmed(TrimSpace(s))
    ensures forall c :: Free(s, c) ==> Free(TrimSpace(s), c)
  {
    hide TrimLeft, TrimRight, IsSpace, Free;
    TrimLeftIs(s);
    TrimRightIs(TrimLeft(s));
  }

  lemma TrimLeadingSpace(s: string)
    ensures TrimSpace(" " + s) == TrimSpace(s)
  {
    assert IsSpace(' ');
    assert (" " + s)[1..] == s;
  }

  /** Keys and values that survive being written and read. */
  predicate GoodKey(key: string) {
    Trimmed(key) && Free(key, '=') && Free(key, ':')
  }

  predicate GoodValue(value: string) {
    Trimmed(value) && Free(value, '=')
  }

  lemma KeyOfIsGood(param: string)
    ensures GoodKey(KeyOf(param))
  {
    hide TrimSpace;
    var i, n := IndexOf(param, '='), Normalized(param);
    assert i < |param| ==> n[i] == ':';
    assert forall j :: 0 <= j < i ==> n[j] == param[j];
    TrimIs(KeyPart(param));
    assert Free(KeyPart(param), ':') && Free(KeyPart(param), '=');
  }

  lemma NormalizedNone(s: string)
    requires Free(s, '=')
    ensures Normalized(s) == s
  {
  }

  lemma NormalizedFirst(a: string, b: string)
    requires Free(a, '=')
    ensures Normalized(a + ("=" + b)) == a + (":" + b)
  {
    var s := a + ("=" + b);
    IndexOfPrefix(a, "=" + b, '=');
    assert s[..|a|] == a && s[|a| + 1..] == b;
  }

  lemma NormalizedAround(a: string, x: string, y: string)
    requires Free(a, '=') && Free(x, '=')
    ensures Normalized(a + (x + ("=" + y))) == a + Normalized(x + ("=" + y))
  {
    hide Normalized;
    NormalizedFirst(x, y);
    NormalizedFirst(a + x, y);
    assert a + (x + ("=" + y)) == (a + x) + ("=" + y);
    assert (a + x) + (":" + y) == a + (x + (":" + y));
  }

  lemma NormalizedSplit(a: string, b: string)
    requires Free(a, '=')
    ensures Normalized(a + b) == a + Normalized(b)
  {
    hide Normalized, IndexOf;
    var i := IndexOf(b, '=');
    if i < |b| {
      var x, y := b[..i], b[i + 1..];
      assert b == x + ("=" + y);
      NormalizedAround(a, x, y);
    } else {
      NormalizedNone(b);
      NormalizedNone(a + b);
    }
  }

  lemma NormalizedEntry(key: string, value: string)
    requires GoodKey(key)
    ensures Normalized(EntryFor(key, value)) == key + (":" + (" " + Normalized(value)))
  {
    hide Trimmed, Normalized, IndexOf;
    assert EntryFor(key, value) == key + (": " + value);
    NormalizedSplit(key, ": " + value);
    NormalizedSplit(": ", value);
    assert ": " + Normalized(value) == ":" + (" " + Normalized(value));
  }

  /** How a freshly written entry is read. */
  lemma ReadEntry(key: string, value: string)
    requires GoodKey(key)
    ensures KeyOf(EntryFor(key, value)) == key && HasSeparator(EntryFor(key, value))
    ensures ValueOf(EntryFor(key, value)) == TrimSpace(Normalized(value))
  {
    hide TrimSpace, Trimmed, Normalized, IndexOf, EntryFor;
    var rest := " " + Normalized(value);
    NormalizedEntry(key, value);
    IndexOfPrefix(key, ":" + rest, ':');
    assert (key + (":" + rest))[..|key|] == key && (key + (":" + rest))[|key| + 1..] == rest;
    TrimIs(key);
    TrimLeadingSpace(Normalized(value));
  }

  /** A value is read back unchanged exactly if it is trimmed and has no '='. */
  lemma ValueSurvives(value: string)
    ensures TrimSpace(Normalized(value)) == value <==> GoodValue(value)
  {
    hide TrimSpace, Trimmed;
    TrimIs(Normalized(value));
    TrimIs(value);
    var i := IndexOf(value, '=');
    if i < |value| {
      assert Normalized(value)[i] == ':' && value[i] == '=';
    }
  }

  lemma {:induction false} NeverFound(params: seq<string>, key: string)
    requires !GoodKey(key)
    ensures Lookup(params, key) == Absent
  {
    hide KeyOf, GoodKey;
    if params != [] {
      KeyOfIsGood(params[0]);
      NeverFound(params[1..], key);
    }
  }

  /** The round trip: what was ensured is read back exactly if the key is
      trimmed without '=' and ':', and the value is trimmed without '='. */
  lemma EnsureThenGet(params: seq<string>, key: string, value: string)
    ensures Lookup(Ensured(params, key, value), key) == Present(value) <==> GoodKey(key) && GoodValue(value)
  {
    hide Ensured, Lookup, GoodKey, GoodValue;
    if GoodKey(key) {
      FoundAsWritten(params, key, value);
      ValueSurvives(value);
    } else {
      NeverFound(Ensured(params, key, value), key);
    }
  }

  lemma {:induction false} FoundAsWritten(params: seq<string>, key: string, value: string)
    requires GoodKey(key)
    ensures Lookup(Ensured(params, key, value), key) == Present(TrimSpace(Normalized(value)))
  {
    hide KeyOf, ValueOf, GoodKey, EntryFor, TrimSpace, Normalized;
    ReadEntry(key, value);
    if params != [] && KeyOf(params[0]) != key {
      FoundAsWritten(params[1..], key, value);
      assert ([params[0]] + Ensured(params[1..], key, value))[1..] == Ensured(params[1..], key, value);
    }
  }

  /** ... and every other key keeps its previous answer. */
  lemma {:induction false} EnsureKeepsOthers(params: seq<string>, key: string, value: string, other: string)
    requires GoodKey(key) && other != key
    ensures Lookup(Ensured(params, key, value), other) == Lookup(params, other)
  {
    hide KeyOf, ValueOf, GoodKey, EntryFor;
    ReadEntry(key, value);
    if params != [] {
      if KeyOf(params[0]) == key {
        assert ([EntryFor(key, value)] + params[1..])[1..] == params[1..];
      } else {
        EnsureKeepsOthers(params[1..], key, value, other);
        assert ([params[0]] + Ensured(params[1..], key, value))[1..] == Ensured(params[1..], key, value);
      }
    } else {
      assert [EntryFor(key, value)][1..] == [];
    }
  }

  // -------------------------------------------------- reader and map builder

  ghost predicate Agrees(params: seq<string>, key: string) {
    Lookup(params, key) == if key in Built(params, |params|) then Present(Built(params, |params|)[key]) else Absent
  }

  /** Entry i is the first with its key, entry j the last. */
  predicate IsFirst(params: seq<string>, i: nat) {
    i < |params| && forall k :: 0 <= k < i ==> KeyOf(params[k]) != KeyOf(params[i])
  }

  predicate IsLast(params: seq<string>, j: nat) {
    j < |params| && forall k :: j < k < |params| ==> KeyOf(params[k]) != KeyOf(params[j])
  }

  predicate Ends(params: seq<string>, i: nat, j: nat) {
    IsFirst(params, i) && IsLast(params, j) && KeyOf(params[i]) == KeyOf(params[j])
  }

  predicate SameForBoth(param: string) {
    HasSeparator(param) || TrimSpace(param) == ""
  }

  lemma StoredIsRead(param: string)
    ensures StoredValue(param) == ValueOf(param) <==> SameForBoth(param)
  {
  }

  /** The map keeps the last entry of a key ... */
  lemma {:induction false} BuiltAt(params: seq<string>, n: nat, j: nat)
    requires j < n <= |params| && forall k :: j < k < n ==> KeyOf(params[k]) != KeyOf(params[j])
    ensures KeyOf(params[j]) in Built(params, n) && Built(params, n)[KeyOf(params[j])] == StoredValue(params[j])
  {
    hide KeyOf, StoredValue;
    if j < n - 1 {
      BuiltAt(params, n - 1, j);
    }
  }

  lemma {:induction false} BuiltOnly(params: seq<string>, n: nat, key: string)
    requires n <= |params| && forall i :: 0 <= i < n ==> KeyOf(params[i]) != key
    ensures key !in Built(params, n)
  {
    hide KeyOf, StoredValue;
    if n > 0 {
      BuiltOnly(params, n - 1, key);
    }
  }

  /** ... and the reader takes the first. So on a key that occurs they agree
      exactly if the first entry is read as the last one is stored. */
  lemma KeyAgreesIff(params: seq<string>, i: nat, j: nat)
    requires Ends(params, i, j)
    ensures Agrees(params, KeyOf(params[i])) <==> ValueOf(params[i]) == StoredValue(params[j])
  {
    hide KeyOf, ValueOf, StoredValue, Lookup, Built;
    BuiltAt(params, |params|, j);
    LookupSkips(params, KeyOf(params[i]), i);
  }

  /** Every key that occurs has a first and a last entry. */
  lemma {:induction false} EndsExist(params: seq<string>, k: nat) returns (i: nat, j: nat)
    requires k < |params|
    ensures Ends(params, i, j) && KeyOf(params[i]) == KeyOf(params[k])
  {
    hide KeyOf;
    if h: nat :| h < k && KeyOf(params[h]) == KeyOf(params[k]) {
      i, j := EndsExist(params, h);
    } else {
      i := k;
      j := LastFrom(params, k);
    }
  }

  lemma {:induction false} LastFrom(params: seq<string>, k: nat) returns (j: nat)
    requires k < |params|
    ensures IsLast(params, j) && KeyOf(params[j]) == KeyOf(params[k])
    decreases |params| - k
  {
    hide KeyOf;
    j := k;
    if h: nat :| k < h < |params| && KeyOf(params[h]) == KeyOf(params[k]) {
      j := LastFrom(params, h);
    }
  }

  /** For any parameter list: the reader and the map builder agree on every key
      exactly if, for each key, the first entry is read as the last is stored. */
  lemma ReaderMeetsBuilder(params: seq<string>)
    ensures (forall key :: Agrees(params, key)) <==>
            forall i: nat, j: nat :: Ends(params, i, j) ==> ValueOf(params[i]) == StoredValue(params[j])
  {
    hide KeyOf, ValueOf, StoredValue, Agrees;
    forall i: nat, j: nat | Ends(params, i, j)
      ensures Agrees(params, KeyOf(params[i])) <==> ValueOf(params[i]) == StoredValue(params[j])
    {
      KeyAgreesIff(params, i, j);
    }
    forall key
      ensures Agrees(params, key) || exists i: nat, j: nat :: Ends(params, i, j) && KeyOf(params[i]) == key
    {
      if k: nat :| k < |params| && KeyOf(params[k]) == key {
        var i, j := EndsExist(params, k);
      } else {
        AbsentAgrees(params, key);
      }
    }
  }

  lemma AbsentAgrees(params: seq<string>, key: string)
    requires forall k :: 0 <= k < |params| ==> KeyOf(params[k]) != key
    ensures Agrees(params, key)
  {
    hide KeyOf, ValueOf, StoredValue, Lookup, Built;
    BuiltOnly(params, |params|, key);
    LookupSkips(params, key, |params|);
  }

  predicate UniqueKeys(params: seq<string>) {
    forall i, j :: 0 <= i < j < |params| ==> KeyOf(params[i]) != KeyOf(params[j])
  }

  /** With unique keys: exactly if every entry has a separator or is blank. */
  lemma UniqueKeysAgreeIff(params: seq<string>)
    requires UniqueKeys(params)
    ensures (forall key :: Agrees(params, key)) <==> forall i: nat :: i < |params| ==> SameForBoth(params[i])
  {
    hide KeyOf, ValueOf, StoredValue, Agrees, SameForBoth;
    ReaderMeetsBuilder(params);
    forall i: nat | i < |params|
      ensures Ends(params, i, i) && (StoredValue(params[i]) == ValueOf(params[i]) <==> SameForBoth(params[i]))
    {
      StoredIsRead(params[i]);
    }
  }

  /** With a repeated key they differ: the reader takes the first entry, the map
      keeps the last. */
  lemma RepeatedKeyDisagrees()
    ensures !Agrees(["a:1", "a:2"], "a")
  {
    var one, two := "a:1", "a:2";
    OneLetter(one, "1");
    OneLetter(two, "2");
    assert Lookup([one, two], "a") == Present("1");
    assert Built([one, two], 2) == Built([one, two], 1)["a" := "2"];
  }

  lemma OneLetter(entry: string, digit: string)
    requires entry == "a:" + digit && (digit == "1" || digit == "2")
    ensures KeyOf(entry) == "a" && ValueOf(entry) == digit && StoredValue(entry) == digit
  {
    hide TrimSpace;
    NormalizedNone(entry);
    assert entry == "a" + (":" + digit);
    IndexOfPrefix("a", ":" + digit, ':');
    assert entry[..1] == "a" && entry[2..] == digit;
    TrimIs("a");
    TrimIs(digit);
  }

  // ------------------------------------------------------------ on the texts

  /** How an entry "key=value" is read: both sides trimmed, whatever the value
      holds. */
  lemma ReadsEquals(key: string, value: string)
    requires Free(key, '=') && Free(key, ':')
    ensures KeyOf(key + ("=" + value)) == TrimSpace(key)
    ensures ValueOf(key + ("=" + value)) == StoredValue(key + ("=" + value)) == TrimSpace(value)
  {
    hide TrimSpace, Normalized, IndexOf;
    NormalizedFirst(key, value);
    IndexOfPrefix(key, ":" + value, ':');
    assert (key + (":" + value))[..|key|] == key && (key + (":" + value))[|key| + 1..] == value;
  }

  /** How an entry "key:value" is read. */
  lemma ReadsColon(key: string, value: string)
    requires Free(key, '=') && Free(key, ':') && Free(value, '=')
    ensures KeyOf(key + (":" + value)) == TrimSpace(key)
    ensures ValueOf(key + (":" + value)) == StoredValue(key + (":" + value)) == TrimSpace(value)
  {
    hide TrimSpace, Normalized, IndexOf;
    NormalizedNone(key + (":" + value));
    IndexOfPrefix(key, ":" + value, ':');
    assert (key + (":" + value))[..|key|] == key && (key + (":" + value))[|key| + 1..] == value;
  }

  /** In "key:value" the first '=' of the value becomes a ':'. */
  lemma ReadsColonEquals(key: string, left: string, right: string)
    requires Free(key, '=') && Free(key, ':') && Free(left, '=')
    ensures var entry := key + (":" + (left + ("=" + right)));
      KeyOf(entry) == TrimSpace(key) && ValueOf(entry) == StoredValue(entry) == TrimSpace(left + (":" + right))
  {
    hide TrimSpace, Normalized, IndexOf;
    var head, value := key + (":" + left), left + (":" + right);
    assert key + (":" + (left + ("=" + right))) == head + ("=" + right);
    NormalizedFirst(head, right);
    assert head + (":" + right) == key + (":" + value);
    IndexOfPrefix(key, ":" + value, ':');
    assert (key + (":" + value))[..|key|] == key && (key + (":" + value))[|key| + 1..] == value;
  }

  /** An entry without a separator is all key; the reader gives it no value, the
      map builder the whole entry. */
  lemma ReadsBare(entry: string)
    requires Free(entry, '=') && Free(entry, ':')
    ensures KeyOf(entry) == StoredValue(entry) == TrimSpace(entry) && ValueOf(entry) == ""
  {
    hide TrimSpace, Normalized;
    NormalizedNone(entry);
    assert IndexOf(entry, ':') == |entry|;
    assert entry[..|entry|] == entry;
  }

  /** What is written: the text "key: value", in the place of the first entry with
      that key, or at the end; all other entries stay. */
  lemma EnsuredText(params: seq<string>, key: string, value: string, i: nat)
    requires i <= |params| && (forall j :: 0 <= j < i ==> KeyOf(params[j]) != key) && (i == |params| || KeyOf(params[i]) == key)
    ensures Ensured(params, key, value) ==
      if i == |params| then params + [key + ": " + value] else params[i := key + ": " + value]
  {
    hide KeyOf, Ensured;
    EnsuredSkips(params, key, value, i);
  }
}
