/** The enumeration of expected label values
    (services/query-exporter/utils/utils.go) and the validation it relies on
    (services/query-exporter/config/config.go). */
module Cartesian {
  import opened Division
  import opened Sequences
  import opened Texts
  import opened Labels

  // ------------------------------------------------ little-endian mixed radix

  predicate Positive(sizes: seq<int>) {
    forall i :: 0 <= i < |sizes| ==> sizes[i] > 0
  }

  predicate AreDigits(digits: seq<int>, sizes: seq<int>) {
    |digits| == |sizes| && forall i :: 0 <= i < |digits| ==> 0 <= digits[i] < sizes[i]
  }

  function Product(sizes: seq<int>): int {
    if sizes == [] then 1 else sizes[0] * Product(sizes[1..])
  }

  function Value(digits: seq<int>, sizes: seq<int>): int
    requires |digits| == |sizes|
  {
    if digits == [] then 0 else digits[0] + sizes[0] * Value(digits[1..], sizes[1..])
  }

  lemma LeadingDigit(d: int, size: int, high: int, p: int)
    requires 0 <= d < size && 0 <= high < p
    ensures 0 <= d + size * high < size * p
  {
    MulMonotone(high + 1, p, size);
    MulNonNegative(high, size);
  }

  /** Digits denote the numbers below the product of the sizes. */
  lemma {:induction false} ValueBound(digits: seq<int>, sizes: seq<int>)
    requires AreDigits(digits, sizes)
    ensures 0 <= Value(digits, sizes) < Product(sizes)
  {
    if sizes != [] {
      ValueBound(digits[1..], sizes[1..]);
      LeadingDigit(digits[0], sizes[0], Value(digits[1..], sizes[1..]), Product(sizes[1..]));
    }
  }

  lemma SameQuotient(a: int, h: int, b: int, g: int, d: int)
    requires 0 <= a < d && 0 <= b < d && a + d * h == b + d * g
    ensures h == g && a == b
  {
    MulOrder(h, g, d);
    MulOrder(g, h, d);
  }

  /** A number has only one mixed-radix representation. */
  lemma {:induction false} ValueInjective(a: seq<int>, b: seq<int>, sizes: seq<int>)
    requires AreDigits(a, sizes) && AreDigits(b, sizes) && Value(a, sizes) == Value(b, sizes)
    ensures a == b
  {
    if sizes != [] {
      SameQuotient(a[0], Value(a[1..], sizes[1..]), b[0], Value(b[1..], sizes[1..]), sizes[0]);
      ValueInjective(a[1..], b[1..], sizes[1..]);
      assert a == [a[0]] + a[1..] && b == [b[0]] + b[1..];
    }
  }

  /** The weight of position i is the product of the sizes before it. */
  lemma {:induction false} ValueUpdate(digits: seq<int>, sizes: seq<int>, i: nat, x: int)
    requires |digits| == |sizes| && i < |digits|
    ensures Value(digits[i := x], sizes) == Value(digits, sizes) + (x - digits[i]) * Product(sizes[..i])
  {
    if i == 0 {
      assert digits[0 := x][1..] == digits[1..];
    } else {
      ValueUpdate(digits[1..], sizes[1..], i - 1, x);
      assert digits[i := x][1..] == digits[1..][i - 1 := x];
      assert sizes[..i][1..] == sizes[1..][..i - 1];
      Distribute(sizes[0], Value(digits[1..], sizes[1..]), x - digits[i], Product(sizes[1..][..i - 1]));
    }
  }

  lemma Distribute(a: int, b: int, c: int, d: int)
    ensures a * (b + c * d) == a * b + c * (a * d)
  {
    assert a * (c * d) == c * (a * d);
  }

  lemma {:induction false} ProductSnoc(sizes: seq<int>, i: nat)
    requires i < |sizes|
    ensures Product(sizes[..i + 1]) == Product(sizes[..i]) * sizes[i]
  {
    if i > 0 {
      ProductSnoc(sizes[1..], i - 1);
      assert sizes[..i + 1][1..] == sizes[1..][..i] && sizes[..i][1..] == sizes[1..][..i - 1];
      MulAssoc(sizes[0], Product(sizes[1..][..i - 1]), sizes[i]);
    } else {
      assert sizes[..1][1..] == [];
    }
  }

  lemma Bump(digits: seq<int>, sizes: seq<int>, i: nat)
    requires |digits| == |sizes| && i < |digits|
    ensures Value(digits[i := digits[i] + 1], sizes) == Value(digits, sizes) + Product(sizes[..i])
  {
    ValueUpdate(digits, sizes, i, digits[i] + 1);
  }

  lemma Carry(digits: seq<int>, sizes: seq<int>, i: nat)
    requires |digits| == |sizes| && i < |digits| && digits[i] + 1 == sizes[i]
    ensures Value(digits[i := 0], sizes) + Product(sizes[..i + 1]) == Value(digits, sizes) + Product(sizes[..i])
  {
    ValueUpdate(digits, sizes, i, 0);
    ProductSnoc(sizes, i);
    var p := Product(sizes[..i]);
    assert p * (digits[i] + 1) == p + digits[i] * p;
  }

  /** With zeros below position i the value is that digit times its weight. */
  lemma {:induction false} OnlyTop(digits: seq<int>, sizes: seq<int>, i: nat)
    requires |digits| == |sizes| == i + 1
    requires forall k :: 0 <= k < i ==> digits[k] == 0
    ensures Value(digits, sizes) == digits[i] * Product(sizes[..i])
  {
    if i == 0 {
      assert digits[1..] == [];
    } else {
      OnlyTop(digits[1..], sizes[1..], i - 1);
      assert sizes[..i][1..] == sizes[1..][..i - 1];
      Distribute(sizes[0], 0, digits[i], Product(sizes[1..][..i - 1]));
    }
  }

  lemma Overflow(digits: seq<int>, sizes: seq<int>, i: nat)
    requires |digits| == |sizes| == i + 1 && digits[i] + 1 == sizes[i]
    requires forall k :: 0 <= k < i ==> digits[k] == 0
    ensures Value(digits, sizes) + Product(sizes[..i]) == Product(sizes)
  {
    OnlyTop(digits, sizes, i);
    ProductSnoc(sizes, i);
    assert sizes[..i + 1] == sizes;
    var p := Product(sizes[..i]);
    assert p * (digits[i] + 1) == p + digits[i] * p;
  }

  /** incrementIndexes: one step of the odometer adds exactly 1, carries
      included, and reports overflow exactly when the value reaches the
      product of the sizes. */
  method IncrementIndexes(indexes: array<int>, sizes: seq<int>) returns (overflow: bool)
    requires indexes.Length > 0 && AreDigits(indexes[..], sizes)
    modifies indexes
    ensures Value(indexes[..], sizes) == old(Value(indexes[..], sizes)) + 1
    ensures overflow <==> Value(indexes[..], sizes) == Product(sizes)
    ensures !overflow ==> AreDigits(indexes[..], sizes)
  {
    var i := 0;
    ghost var before := Value(indexes[..], sizes);
    while true
      invariant 0 <= i < indexes.Length
      invariant AreDigits(indexes[..], sizes)
      invariant Value(indexes[..], sizes) + Product(sizes[..i]) == before + 1
      invariant forall k :: 0 <= k < i ==> indexes[k] == 0
      decreases indexes.Length - i
    {
      ghost var was := indexes[..];
      indexes[i] := indexes[i] + 1;
      assert indexes[..] == was[i := was[i] + 1];
      Bump(was, sizes, i);
      if indexes[i] < sizes[i] {
        ValueBound(indexes[..], sizes);
        return false;
      } else if i == |sizes| - 1 {
        Overflow(was, sizes, i);
        return true;
      } else {
        indexes[i] := 0;
        assert indexes[..] == was[i := 0];
        Carry(was, sizes, i);
        i := i + 1;
      }
    }
  }

  // ------------------------------------------------------- the label product

  /** Label name to its expected values. */
  type Expected = map<string, seq<string>>

  /** What LabelsCartesian needs so as not to index out of range. */
  ghost predicate Enumerable(e: Expected) {
    e != map[] && forall name :: name in e ==> e[name] != []
  }

  function Sizes(names: seq<string>, e: Expected): (sizes: seq<int>)
    requires forall name :: name in names ==> name in e
    ensures |sizes| == |names| && forall i :: 0 <= i < |names| ==> sizes[i] == |e[names[i]]|
  {
    seq(|names|, i requires 0 <= i < |names| => assert names[i] in names; |e[names[i]]|)
  }

  /** m picks, for each name, the value that the name's digit selects. */
  ghost predicate Picks(m: Labels, names: seq<string>, e: Expected, digits: seq<int>)
    requires forall name :: name in names ==> name in e
    requires AreDigits(digits, Sizes(names, e))
  {
    && (forall k :: k in m <==> k in names)
    && forall i :: 0 <= i < |names| ==> m[names[i]] == e[names[i]][digits[i]]
  }

  lemma SizesPositive(names: seq<string>, e: Expected)
    requires Enumerable(e) && forall name :: name in names <==> name in e
    ensures names != [] && Positive(Sizes(names, e))
  {
    assert forall i :: 0 <= i < |names| ==> names[i] in names;
    var name :| name in e;
    assert name in names;
  }

  /** m is the combination number k: it picks by the mixed-radix digits of k. */
  ghost predicate PicksNumber(m: Labels, names: seq<string>, e: Expected, k: int)
    requires forall name :: name in names ==> name in e
  {
    exists digits :: AreDigits(digits, Sizes(names, e)) && Value(digits, Sizes(names, e)) == k && Picks(m, names, e, digits)
  }

  /** There are product-many maps, and the k-th is combination number k. */
  ghost predicate IsProduct(result: seq<Labels>, e: Expected) {
    var names := SortedKeys(e.Keys);
    && |result| == Product(Sizes(names, e))
    && forall k :: 0 <= k < |result| ==> PicksNumber(result[k], names, e, k)
  }

  /** The inner loop: read one label map off the odometer. */
  method ReadLabels(names: seq<string>, e: Expected, indexes: array<int>) returns (labels: Labels)
    requires StrictlySorted(names) && forall name :: name in names ==> name in e
    requires AreDigits(indexes[..], Sizes(names, e))
    ensures Picks(labels, names, e, indexes[..])
  {
    labels := map[];
    var i := 0;
    while i < indexes.Length
      invariant 0 <= i <= indexes.Length == |names|
      invariant forall k :: k in labels <==> k in names[..i]
      invariant forall j :: 0 <= j < i ==> names[j] in labels && labels[names[j]] == e[names[j]][indexes[j]]
    {
      assert names[..i + 1] == names[..i] + [names[i]];
      labels := labels[names[i] := e[names[i]][indexes[i]]];
      i := i + 1;
    }
    assert names[..i] == names;
  }

  method LabelsCartesian(e: Expected) returns (result: seq<Labels>)
    requires Enumerable(e)
    ensures IsProduct(result, e)
  {
    var names := SortKeys(e.Keys);
    SizesPositive(names, e);
    result := Enumerate(names, e);
  }

  /** The odometer loop. */
  method Enumerate(names: seq<string>, e: Expected) returns (result: seq<Labels>)
    requires StrictlySorted(names) && forall name :: name in names ==> name in e
    requires names != [] && Positive(Sizes(names, e))
    ensures |result| == Product(Sizes(names, e))
    ensures forall k :: 0 <= k < |result| ==> PicksNumber(result[k], names, e, k)
  {
    hide Picks, Sizes;
    var sizes := Sizes(names, e);
    var indexes := new int[|names|](_ => 0);
    ZeroValue(indexes[..], sizes);
    ValueBound(indexes[..], sizes);
    hide Value, Product;
    result := [];
    var overflow := false;
    while !overflow
      invariant indexes.Length == |names|
      invariant |result| == Value(indexes[..], sizes)
      invariant !overflow ==> AreDigits(indexes[..], sizes) && |result| < Product(sizes)
      invariant overflow ==> |result| == Product(sizes)
      invariant forall k :: 0 <= k < |result| ==> PicksNumber(result[k], names, e, k)
      decreases !overflow, Product(sizes) - |result|
    {
      var labels := ReadLabels(names, e, indexes);
      assert PicksNumber(labels, names, e, |result|);
      result := result + [labels];
      overflow := IncrementIndexes(indexes, sizes);
      if !overflow {
        ValueBound(indexes[..], sizes);
      }
    }
  }

  lemma {:induction false} ZeroValue(digits: seq<int>, sizes: seq<int>)
    requires |digits| == |sizes| && forall i :: 0 <= i < |digits| ==> digits[i] == 0
    ensures Value(digits, sizes) == 0
  {
    if digits != [] {
      ZeroValue(digits[1..], sizes[1..]);
    }
  }

  // ------------------------------------------------------------ completeness

  /** One expected value for every label. */
  ghost predicate IsCombination(m: Labels, e: Expected) {
    (forall k :: k in m <==> k in e) && forall k :: k in e && k in m ==> m[k] in e[k]
  }

  /** The digits that select a given combination. */
  lemma {:induction false} DigitsOf(m: Labels, names: seq<string>, e: Expected) returns (digits: seq<int>)
    requires forall name :: name in names ==> name in e && name in m && m[name] in e[name]
    ensures AreDigits(digits, Sizes(names, e))
    ensures forall i :: 0 <= i < |names| ==> e[names[i]][digits[i]] == m[names[i]]
  {
    if names == [] {
      digits := [];
    } else {
      var front, last := names[..|names| - 1], names[|names| - 1];
      assert last in names;
      digits := DigitsOf(m, front, e);
      var d :| 0 <= d < |e[last]| && e[last][d] == m[last];
      digits := digits + [d];
    }
  }

  lemma PickIsCombination(m: Labels, names: seq<string>, e: Expected, digits: seq<int>)
    requires forall name :: name in names <==> name in e
    requires AreDigits(digits, Sizes(names, e)) && Picks(m, names, e, digits)
    ensures IsCombination(m, e)
  {
    forall name | name in e
      ensures name in m && m[name] in e[name]
    {
      var i :| 0 <= i < |names| && names[i] == name;
      assert m[names[i]] == e[names[i]][digits[i]];
    }
  }

  /** The result is exactly the set of combinations ... */
  lemma ProductIsComplete(result: seq<Labels>, e: Expected, m: Labels)
    requires IsProduct(result, e)
    ensures m in result <==> IsCombination(m, e)
  {
    var names := SortedKeys(e.Keys);
    var sizes := Sizes(names, e);
    if m in result {
      var k :| 0 <= k < |result| && result[k] == m;
      var digits :| AreDigits(digits, sizes) && Value(digits, sizes) == k && Picks(m, names, e, digits);
      PickIsCombination(m, names, e, digits);
    }
    if IsCombination(m, e) {
      var digits := DigitsOf(m, names, e);
      ValueBound(digits, sizes);
      var k := Value(digits, sizes);
      assert PicksNumber(result[k], names, e, k);
      var used :| AreDigits(used, sizes) && Value(used, sizes) == k && Picks(result[k], names, e, used);
      ValueInjective(digits, used, sizes);
      SamePick(result[k], m, names, e, digits);
    }
  }

  lemma SamePick(a: Labels, b: Labels, names: seq<string>, e: Expected, digits: seq<int>)
    requires forall name :: name in names <==> name in e
    requires AreDigits(digits, Sizes(names, e)) && Picks(a, names, e, digits)
    requires IsCombination(b, e) && forall i :: 0 <= i < |names| ==> e[names[i]][digits[i]] == b[names[i]]
    ensures a == b
  {
    forall name | name in e
      ensures name in a && name in b && a[name] == b[name]
    {
      var i :| 0 <= i < |names| && names[i] == name;
    }
  }

  ghost predicate NoRepeatedValues(e: Expected) {
    forall name :: name in e ==> NoDuplicates(e[name])
  }

  /** ... and lists each of them once, if no label repeats a value. */
  lemma ProductIsDistinct(result: seq<Labels>, e: Expected, j: nat, k: nat)
    requires IsProduct(result, e) && NoRepeatedValues(e)
    requires j < k < |result|
    ensures result[j] != result[k]
  {
    var names := SortedKeys(e.Keys);
    var sizes := Sizes(names, e);
    assert PicksNumber(result[j], names, e, j) && PicksNumber(result[k], names, e, k);
    var a :| AreDigits(a, sizes) && Value(a, sizes) == j && Picks(result[j], names, e, a);
    var b :| AreDigits(b, sizes) && Value(b, sizes) == k && Picks(result[k], names, e, b);
    assert a != b;
    var i :| 0 <= i < |names| && a[i] != b[i];
    assert names[i] in names;
    DifferentPicks(e[names[i]], a[i], b[i]);
    assert result[j][names[i]] != result[k][names[i]];
  }

  lemma DifferentPicks(values: seq<string>, a: int, b: int)
    requires NoDuplicates(values) && 0 <= a < |values| && 0 <= b < |values| && a != b
    ensures values[a] != values[b]
  {
  }

  // ------------------------------------------------------------ digit by digit

  lemma DigitStep(v: nat, d: nat, size: nat, high: nat)
    requires d < size && v == d + size * high
    ensures v % size == d && v / size == high
  {
    MulOrder(0, high, size);
    UniqueQuotient(v, size, high);
    assert v == (v / size) * size + v % size;
  }

  lemma HighDigits(v: nat, d: nat, size: nat, high: nat, p: nat, q: nat)
    requires d < size && v == d + size * high && p > 0 && q == size * p
    ensures q > 0 && v / q == high / p
  {
    DigitStep(v, d, size, high);
    assert q == p * size;
    DivNested(v, size, p, q);
  }

  lemma Unfold(digits: seq<int>, sizes: seq<int>, i: nat)
    requires |digits| == |sizes| && i < |digits|
    ensures Value(digits, sizes) == digits[0] + sizes[0] * Value(digits[1..], sizes[1..])
    ensures Product(sizes[..0]) == 1
    ensures i > 0 ==> Product(sizes[..i]) == sizes[0] * Product(sizes[1..][..i - 1])
  {
    assert i > 0 ==> sizes[..i][1..] == sizes[1..][..i - 1];
  }

  /** Digit i of a number: divide by the sizes before it, take the remainder. */
  lemma {:induction false} DigitIs(digits: seq<int>, sizes: seq<int>, i: nat)
    requires AreDigits(digits, sizes) && i < |digits|
    ensures Product(sizes[..i]) > 0 && Value(digits, sizes) >= 0
    ensures digits[i] == (Value(digits, sizes) / Product(sizes[..i])) % sizes[i]
  {
    hide Value, Product;
    ValueBound(digits, sizes);
    ValueBound(digits[1..], sizes[1..]);
    Unfold(digits, sizes, i);
    var v, high := Value(digits, sizes), Value(digits[1..], sizes[1..]);
    if i == 0 {
      DigitStep(v, digits[0], sizes[0], high);
    } else {
      DigitIs(digits[1..], sizes[1..], i - 1);
      HighDigits(v, digits[0], sizes[0], high, Product(sizes[1..][..i - 1]), Product(sizes[..i]));
    }
  }

  /** The k-th map of the product, in plain arithmetic: the labels are numbered in
      ascending order, and label i takes its value number (k / weight) % size,
      where the weight is the product of the sizes of the labels before it. */
  lemma KthCombination(result: seq<Labels>, e: Expected, k: nat, i: nat)
    requires IsProduct(result, e) && k < |result| && i < |SortedKeys(e.Keys)|
    ensures var names := SortedKeys(e.Keys);
            var sizes := Sizes(names, e);
      && Product(sizes[..i]) > 0 && sizes[i] == |e[names[i]]| > 0
      && names[i] in result[k] && result[k][names[i]] == e[names[i]][(k / Product(sizes[..i])) % sizes[i]]
  {
    var names := SortedKeys(e.Keys);
    var sizes := Sizes(names, e);
    assert PicksNumber(result[k], names, e, k);
    var digits :| AreDigits(digits, sizes) && Value(digits, sizes) == k && Picks(result[k], names, e, digits);
    DigitIs(digits, sizes, i);
    assert names[i] in names;
  }

  // -------------------------------------------------------------- validation

  /** One item of the configuration passes checkExpectedLabelsFields. */
  ghost predicate ItemAccepted(labels: seq<string>, item: Expected) {
    |item| == |labels| && forall name :: name in labels ==> name in item && item[name] != []
  }

  class MetricConfig {
    var labels: seq<string>
    var expected: seq<Expected>

    /** checkExpectedLabelsFields; a missing label reads as no values. */
    method CheckExpectedLabels() returns (ok: bool)
      ensures ok <==> forall item :: item in expected ==> ItemAccepted(labels, item)
    {
      var n := 0;
      while n < |expected|
        invariant 0 <= n <= |expected|
        invariant forall k :: 0 <= k < n ==> ItemAccepted(labels, expected[k])
      {
        var item := expected[n];
        assert item in expected;
        if |item| != |labels| {
          return false;
        }
        var i := 0;
        while i < |labels|
          invariant 0 <= i <= |labels|
          invariant forall k :: 0 <= k < i ==> labels[k] in item && item[labels[k]] != []
        {
          if labels[i] !in item || item[labels[i]] == [] {
            assert labels[i] in labels;
            return false;
          }
          i := i + 1;
        }
        n := n + 1;
      }
      return true;
    }

    /** validateConfig drops the expected labels of a metric that fails. */
    method Validate()
      modifies this`expected
      ensures forall item :: item in expected ==> ItemAccepted(labels, item)
      ensures expected == old(expected) || expected == []
      ensures (forall item :: item in old(expected) ==> ItemAccepted(labels, item)) ==> expected == old(expected)
    {
      var ok := CheckExpectedLabels();
      if !ok {
        expected := [];
      }
    }
  }

  /** Acceptance guarantees a safe enumeration when the metric's labels are
      distinct and there is at least one. */
  lemma AcceptedIsEnumerable(labels: seq<string>, item: Expected)
    requires labels != [] && NoDuplicates(labels) && ItemAccepted(labels, item)
    ensures Enumerable(item)
  {
    ElementsCount(labels);
    assert Elements(labels) <= item.Keys;
    SubsetSize(Elements(labels), item.Keys);
    assert labels[0] in item;
  }

  /** For distinct labels an item is accepted exactly if it has these labels, no
      others, and at least one value for each. */
  lemma AcceptedIff(labels: seq<string>, item: Expected)
    requires NoDuplicates(labels)
    ensures ItemAccepted(labels, item) <==> item.Keys == Elements(labels) && forall name :: name in item ==> |item[name]| > 0
  {
    ElementsCount(labels);
    assert |item| == |item.Keys|;
    if ItemAccepted(labels, item) {
      assert Elements(labels) <= item.Keys;
      SubsetSize(Elements(labels), item.Keys);
    }
  }

  ghost function MaxLength(labels: seq<string>): (n: nat)
    ensures forall name :: name in labels ==> |name| <= n
  {
    if labels == [] then 0
    else
      var n := MaxLength(labels[1..]);
      if |labels[0]| > n then |labels[0]| else n
  }

  /** `count` names, all longer than `base`. */
  ghost function LongNames(base: nat, count: nat): (names: set<string>)
    ensures forall name :: name in names ==> base < |name| <= base + count
    ensures |names| == count
  {
    if count == 0 then {} else LongNames(base, count - 1) + {seq(base + count, _ => 'x')}
  }

  /** An accepted item that cannot be enumerated, for labels that repeat. */
  lemma RepeatedLabelSlipsThrough(labels: seq<string>) returns (item: Expected)
    requires !NoDuplicates(labels)
    ensures ItemAccepted(labels, item) && !Enumerable(item)
  {
    ElementsCount(labels);
    var known := Elements(labels);
    var extra := LongNames(MaxLength(labels), |labels| - |known|);
    assert known !! extra;
    item := map name | name in known + extra :: if name in known then ["v"] else [];
    assert item.Keys == known + extra && |item| == |known| + |extra|;
    var name :| name in extra;
    assert item[name] == [];
  }

  /** The validation protects the enumeration exactly for metrics whose labels
      are distinct and not empty. */
  lemma ValidationProtects(labels: seq<string>)
    ensures (forall item :: ItemAccepted(labels, item) ==> Enumerable(item)) <==> labels != [] && NoDuplicates(labels)
  {
    if labels == [] {
      assert ItemAccepted(labels, map[]);
    } else if NoDuplicates(labels) {
      forall item | ItemAccepted(labels, item)
        ensures Enumerable(item)
      {
        AcceptedIsEnumerable(labels, item);
      }
    } else {
      var item := RepeatedLabelSlipsThrough(labels);
    }
  }
}
