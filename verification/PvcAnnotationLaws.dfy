/** What repeated reconciliation does to the annotations of a claim. */
module PvcAnnotationLaws {
  import opened Texts
  import opened Labels
  import opened PvcAnnotations

  /** Keys that survive the trip through the tracking text: non-empty, trimmed,
      without a comma. */
  ghost predicate Clean(want: Annotations) {
    forall k :: k in Custom(want) ==> k != "" && TrimSpace(k) == k && Free(k, ',')
  }

  lemma PreparedSame(want: Annotations)
    ensures Custom(Prepared(want)) == Custom(want)
    ensures ListText(Prepared(want)) == ListText(want)
    ensures forall k :: k in Custom(want) ==> Prepared(want)[k] == want[k]
    ensures Custom(want) != {} ==> TRACKING in Prepared(want)
  {
  }

  // -------------------------------------------------------- the tracking text

  /** Reading back the tracking text returns the keys it was made from. */
  lemma NamesOfList(want: Annotations)
    requires Clean(want) && Custom(want) != {}
    ensures Names(ListText(want)) == Custom(want) && ListText(want) != ""
  {
    hide Join, Split, TrimSpace, Free;
    var keys := SortedKeys(Custom(want));
    var k :| k in Custom(want);
    assert k in keys;
    assert forall i :: 0 <= i < |keys| ==> keys[i] in keys;
    SplitJoin(keys, ',');
    SplitOfEmpty();
    assert ListText(want) != "" by {
      assert Split("", ',') == [""] && keys[0] != "";
    }
  }

  lemma SplitOfEmpty()
    ensures Split("", ',') == [""] && Names("") == {}
  {
    assert TrimSpace("") == "";
  }

  /** In general the text names the comma-separated, trimmed parts of the keys. */
  ghost predicate IsPart(want: Annotations, name: string) {
    exists k, p :: k in Custom(want) && p in Split(k, ',') && name == TrimSpace(p) && name != ""
  }

  lemma NamesAreParts(want: Annotations, name: string)
    requires Custom(want) != {}
    ensures name in Names(ListText(want)) <==> IsPart(want, name)
  {
    hide Join, Split, TrimSpace;
    var keys := SortedKeys(Custom(want));
    var some :| some in Custom(want);
    assert some in keys;
    if name in Names(ListText(want)) {
      var p :| p in Split(ListText(want), ',') && TrimSpace(p) != "" && TrimSpace(p) == name;
      SplitJoinParts(keys, ',', p);
      var i :| 0 <= i < |keys| && p in Split(keys[i], ',');
      assert keys[i] in keys;
    }
    if IsPart(want, name) {
      var k, p :| k in Custom(want) && p in Split(k, ',') && name == TrimSpace(p) && name != "";
      assert k in keys;
      var i :| 0 <= i < |keys| && keys[i] == k;
      SplitJoinParts(keys, ',', p);
    }
  }

  /** After a reconciliation the claim tracks exactly what its text names. */
  lemma TracksList(found: Annotations, want: Annotations)
    ensures Tracked(Reconciled(found, want)) == if Custom(want) == {} then {} else Names(ListText(want))
  {
    hide Names, ListText, Overlaid, Dropped;
    SplitOfEmpty();
  }

  // ---------------------------------------------------------- one more call

  lemma Settled(found: Annotations, want: Annotations)
    ensures var after := Reconciled(found, want);
            Dropped(after, want) == {} ==> Reconciled(after, want) == after
  {
    hide Names, ListText, Tracked;
    var m := found - Dropped(found, want);
    var r := Overlaid(m, want, Custom(want));
    var after := WithList(r, want);
    if Dropped(after, want) == {} {
      assert after - Dropped(after, want) == after;
      assert Overlaid(after, want, Custom(want)) == after;
    }
  }

  /** The flag of a reconciliation, as the code computes it. */
  ghost predicate Flag(found: Annotations, want: Annotations) {
    Dropped(found, want) != {} || Reconciled(found, want) != found
  }

  /** A second call with the same wanted annotations reports no change exactly
      when every comma-separated, trimmed part of a wanted key is itself wanted. */
  lemma SecondCallIsQuiet(found: Annotations, want: Annotations)
    ensures var w := Prepared(want);
            !Flag(Reconciled(found, w), w) <==> forall name :: IsPart(want, name) ==> name in w
  {
    hide Names, ListText, Reconciled, IsPart, Tracked;
    var w := Prepared(want);
    PreparedSame(want);
    Settled(found, w);
    TracksList(found, w);
    if Custom(want) == {} {
      forall name
        ensures !IsPart(want, name)
      {
        NoParts(want, name);
      }
    } else {
      forall name
        ensures name in Names(ListText(want)) <==> IsPart(want, name)
      {
        NamesAreParts(want, name);
      }
      var gone := Dropped(Reconciled(found, w), w);
      assert forall name :: name in gone <==> IsPart(want, name) && name !in w;
      assert gone == {} <==> forall name :: IsPart(want, name) ==> name in w;
    }
  }

  lemma NoParts(want: Annotations, name: string)
    requires Custom(want) == {}
    ensures !IsPart(want, name)
  {
  }

  /** With clean keys every second call is quiet ... */
  lemma CleanIsQuiet(found: Annotations, want: Annotations)
    requires Clean(want)
    ensures !Flag(Reconciled(found, Prepared(want)), Prepared(want))
  {
    hide Flag, Reconciled;
    SecondCallIsQuiet(found, want);
    forall name | IsPart(want, name)
      ensures name in Prepared(want)
    {
      var k, p :| k in Custom(want) && p in Split(k, ',') && name == TrimSpace(p) && name != "";
      SplitFree(k, ',');
      PreparedSame(want);
    }
  }

  /** ... and the flag is true exactly when the annotations really changed. */
  lemma FlagIsHonest(found: Annotations, want: Annotations)
    requires Clean(want)
    ensures Flag(found, Prepared(want)) <==> Reconciled(found, Prepared(want)) != found
  {
    hide Names, ListText, Reconciled;
    var w := Prepared(want);
    PreparedSame(want);
    TracksList(found, w);
    if Custom(want) != {} {
      NamesOfList(want);
    }
    assert Tracked(Reconciled(found, w)) == Custom(w);
  }

  /** A key with a comma makes every call report a change that is none. */
  lemma CommaKeyNeverSettles()
    ensures var want: Annotations := map["a,b" := "x"];
            var after := Reconciled(map[], Prepared(want));
            Reconciled(after, Prepared(want)) == after && Flag(after, Prepared(want))
  {
    hide Reconciled, Flag, Names, ListText;
    var want: Annotations := map["a,b" := "x"];
    var w := Prepared(want);
    var after := Reconciled(map[], w);
    assert "a,b" in Custom(want);
    assert IsPart(want, "a") by {
      assert "a,b" == "a" + ([','] + "b");
      SplitFirst("a", ',', "b");
      assert "a" in Split("a,b", ',');
      assert TrimSpace("a") == "a";
    }
    PreparedSame(want);
    assert "a" !in w by {
      hide IsPart;
      assert "a" !in Custom(want);
    }
    SecondCallIsQuiet(map[], want);
    CommaSettles(want, w, after);
  }

  lemma CommaSettles(want: Annotations, w: Annotations, after: Annotations)
    requires want == map["a,b" := "x"] && w == Prepared(want) && after == Reconciled(map[], w)
    ensures Reconciled(after, w) == after
  {
    hide Names, Split, TrimSpace;
    PreparedSame(want);
    var none: Annotations := map[];
    assert none - Dropped(none, w) == none;
    var keys := SortedKeys(Custom(want));
    assert Custom(want) == {"a,b"};
    SortedUnique(keys, ["a,b"]);
    assert ListText(w) == "a,b";
    assert after == map["a,b" := "x", TRACKING := "a,b"];
    forall name | name in Dropped(after, w)
      ensures name != "a,b" && name != TRACKING
    {
    }
    assert after - Dropped(after, w) == after;
    assert Overlaid(after, w, Custom(w)) == after;
  }

  // -------------------------------------------------------------- whole runs

  /** The annotations after the first n reconciliations. */
  ghost function Run(found: Annotations, wants: seq<Annotations>, n: nat): Annotations
    requires n <= |wants|
  {
    if n == 0 then found else Reconciled(Run(found, wants, n - 1), Prepared(wants[n - 1]))
  }

  /** Every key the operator has ever managed. */
  ghost function Managed(found: Annotations, wants: seq<Annotations>, n: nat): set<string>
    requires n <= |wants|
  {
    if n == 0 then Tracked(found) else Managed(found, wants, n - 1) + Custom(wants[n - 1])
  }

  /** One reconciliation, key by key. */
  lemma OneStep(a: Annotations, want: Annotations, k: string)
    requires k != TRACKING
    ensures var after := Reconciled(a, Prepared(want));
            && (k in want ==> Read(after, k) == want[k])
            && (k !in want && k in Tracked(a) ==> k !in after)
            && (k !in want && k !in Tracked(a) ==> (k in after <==> k in a) && (k in a ==> after[k] == a[k]))
  {
    hide ListText, Tracked;
    PreparedSame(want);
    var w := Prepared(want);
    assert k in w <==> k in want;
    var m := a - Dropped(a, w);
    var r := Overlaid(m, w, Custom(w));
    assert Read(r, k) == if k in want then want[k] else Read(m, k);
  }

  lemma {:induction false} RunTracks(found: Annotations, wants: seq<Annotations>, n: nat)
    requires n <= |wants| && forall i :: 0 <= i < |wants| ==> Clean(wants[i])
    ensures Tracked(Run(found, wants, n)) == if n == 0 then Tracked(found) else Custom(wants[n - 1])
  {
    hide Names, ListText, Tracked, Reconciled, Clean;
    if n > 0 {
      var want := wants[n - 1];
      PreparedSame(want);
      TracksList(Run(found, wants, n - 1), Prepared(want));
      if Custom(want) != {} {
        NamesOfList(want);
      }
    }
  }

  /** Over any sequence of wanted annotations with clean keys: a key that was
      never managed keeps its original state; a key once managed but no longer
      wanted is gone; the latest keys read as wanted. */
  lemma {:induction false} RunReconciles(found: Annotations, wants: seq<Annotations>, n: nat, k: string)
    requires n <= |wants| && forall i :: 0 <= i < |wants| ==> Clean(wants[i])
    requires k != TRACKING
    ensures k !in Managed(found, wants, n) ==>
      (k in Run(found, wants, n) <==> k in found) && (k in found ==> Run(found, wants, n)[k] == found[k])
    ensures n > 0 && k in Managed(found, wants, n) && k !in wants[n - 1] ==> k !in Run(found, wants, n)
    ensures n > 0 && k in wants[n - 1] ==> Read(Run(found, wants, n), k) == wants[n - 1][k]
  {
    hide Reconciled, Tracked, Clean, Prepared;
    if n > 0 {
      RunReconciles(found, wants, n - 1, k);
      RunTracks(found, wants, n - 1);
      OneStep(Run(found, wants, n - 1), wants[n - 1], k);
      ManagedCovers(found, wants, n - 1);
    }
  }

  lemma {:induction false} ManagedCovers(found: Annotations, wants: seq<Annotations>, n: nat)
    requires n <= |wants|
    ensures (if n == 0 then Tracked(found) else Custom(wants[n - 1])) <= Managed(found, wants, n)
  {
  }

  // ------------------------------------------------------------ the tracking text

  /** Two wanted keys are tracked as "a,b" in ascending order, in the annotation of
      that name; without wanted keys there is no such annotation. */
  lemma TrackingText(found: Annotations, a: string, x: string, b: string, y: string)
    requires AtMost(a, b) && a != b && a != TRACKING && b != TRACKING
    ensures var key := "deployment.netcracker.com/custom-annotations";
      && key in Reconciled(found, Prepared(map[b := y, a := x]))
      && Reconciled(found, Prepared(map[b := y, a := x]))[key] == a + ("," + b)
      && key !in Reconciled(found, Prepared(map[]))
  {
    hide Names, Overlaid;
    var want: Annotations := map[b := y, a := x];
    PreparedSame(want);
    assert Custom(want) == {a, b};
    SortedUnique(SortedKeys({a, b}), [a, b]);
    assert Join([a, b], ',') == a + ("," + b);
    assert ListText(want) == a + ("," + b);
    assert Custom(map[]) == {};
  }
}
