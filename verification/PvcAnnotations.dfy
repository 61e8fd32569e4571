/** Managed annotations of a volume claim
    (operator/pkg/helper/resource_management.go).  The operator lists the keys it
    manages in one tracking annotation, so that it can later remove those that
    are no longer wanted and leave foreign ones alone. */
module PvcAnnotations {
  import opened Texts
  import opened Labels

  /** A nil map and an empty map read alike. */
  type Annotations = map<string, string>

  const TRACKING := "deployment.netcracker.com/custom-annotations"

  function Read(a: Annotations, key: string): string {
    if key in a then a[key] else ""
  }

  // ------------------------------------------------------------ specification

  function Custom(a: Annotations): set<string> {
    a.Keys - {TRACKING}
  }

  /** The tracking text for the wanted annotations. */
  ghost function ListText(want: Annotations): string {
    Join(SortedKeys(Custom(want)), ',')
  }

  /** The keys that a tracking text names. */
  ghost function Names(text: string): set<string> {
    set p | p in Split(text, ',') && TrimSpace(p) != "" :: TrimSpace(p)
  }

  ghost function Tracked(a: Annotations): set<string> {
    if TRACKING in a then Names(a[TRACKING]) else {}
  }

  ghost function Prepared(want: Annotations): Annotations {
    if Custom(want) == {} then want else want[TRACKING := ListText(want)]
  }

  ghost function Dropped(found: Annotations, want: Annotations): set<string> {
    Tracked(found) - want.Keys
  }

  /** Setting the wanted values of `keys`; an absent key already reads as "". */
  function Overlaid(m: Annotations, want: Annotations, keys: set<string>): Annotations
    requires keys <= want.Keys
  {
    map k | k in m.Keys + keys && (k in m || want[k] != "") :: if k in keys then want[k] else m[k]
  }

  ghost function WithList(m: Annotations, want: Annotations): Annotations {
    if Custom(want) == {} then m - {TRACKING}
    else if Read(m, TRACKING) != ListText(want) then m[TRACKING := ListText(want)]
    else m
  }

  ghost function Reconciled(found: Annotations, want: Annotations): Annotations {
    WithList(Overlaid(found - Dropped(found, want), want, Custom(want)), want)
  }

  // -------------------------------------------------------------- the program

  /** The trimmed, non-empty names of the tracking annotation, in order. */
  method PreviousKeys(found: Annotations) returns (previous: seq<string>)
    ensures forall k :: k in previous <==> k in Tracked(found)
  {
    hide Split, TrimSpace;
    previous := [];
    if TRACKING in found {
      var parts := Split(found[TRACKING], ',');
      for i := 0 to |parts|
        invariant forall k :: k in previous <==> exists j :: 0 <= j < i && TrimSpace(parts[j]) != "" && TrimSpace(parts[j]) == k
      {
        var key := TrimSpace(parts[i]);
        if key != "" {
          previous := previous + [key];
        }
      }
      forall k
        ensures k in previous <==> k in Names(found[TRACKING])
      {
        if k in previous {
          var j :| 0 <= j < |parts| && TrimSpace(parts[j]) != "" && TrimSpace(parts[j]) == k;
          assert parts[j] in parts;
        }
      }
    }
  }

  method RemoveUndesired(found: Annotations, previous: seq<string>, want: Annotations) returns (m: Annotations, changed: bool)
    ensures m == map k | k in found && !(k in previous && k !in want) :: found[k]
    ensures changed <==> exists k :: k in previous && k !in want
  {
    m, changed := found, false;
    for i := 0 to |previous|
      invariant m == map k | k in found && !(k in previous[..i] && k !in want) :: found[k]
      invariant changed <==> exists j :: 0 <= j < i && previous[j] !in want
    {
      assert previous[..i + 1] == previous[..i] + [previous[i]];
      if previous[i] !in want {
        m := m - {previous[i]};
        changed := true;
      }
    }
    assert previous[..|previous|] == previous;
  }

  method Overlay(m: Annotations, want: Annotations) returns (r: Annotations, changed: bool)
    ensures r == Overlaid(m, want, Custom(want))
    ensures changed <==> r != m
  {
    r, changed := m, false;
    var rest := want.Keys;
    assert m == Overlaid(m, want, {});
    while rest != {}
      invariant rest <= want.Keys
      invariant r == Overlaid(m, want, Custom(want) - rest)
      invariant changed <==> r != m
      decreases rest
    {
      var key :| key in rest;
      OverlayStep(m, want, Custom(want) - rest, key);
      assert Custom(want) - (rest - {key}) == if key == TRACKING then Custom(want) - rest else Custom(want) - rest + {key};
      rest := rest - {key};
      if key != TRACKING {
        if Read(r, key) != want[key] {
          r := r[key := want[key]];
          changed := true;
        }
      }
    }
    assert Custom(want) - rest == Custom(want);
  }

  lemma OverlayStep(m: Annotations, want: Annotations, keys: set<string>, key: string)
    requires keys <= want.Keys && key in want && key !in keys
    ensures var r := Overlaid(m, want, keys);
            && Overlaid(m, want, keys + {key}) == (if Read(r, key) != want[key] then r[key := want[key]] else r)
            && (Read(r, key) != want[key] ==> r[key := want[key]] != m)
  {
    var r := Overlaid(m, want, keys);
    assert Read(r, key) == Read(m, key);
  }

  class Pvc {
    var annotations: Annotations

    constructor (annotations: Annotations)
      ensures this.annotations == annotations
    {
      this.annotations := annotations;
    }

    /** preparePvcCustomAnnotations */
    method PrepareCustomAnnotations()
      modifies this
      ensures annotations == Prepared(old(annotations))
    {
      var keys := SortKeys(annotations.Keys - {TRACKING});
      if |keys| == 0 {
        assert forall k :: k in Custom(annotations) ==> k in keys;
        return;
      }
      assert keys[0] in keys;
      annotations := annotations[TRACKING := Join(keys, ',')];
    }

    /** reconcilePvcCustomAnnotations */
    method ReconcileCustomAnnotations(want: Annotations) returns (changed: bool)
      modifies this
      ensures annotations == Reconciled(old(annotations), want)
      ensures changed <==> Dropped(old(annotations), want) != {} || annotations != old(annotations)
    {
      hide Names, Join, SortedKeys, Overlaid;
      var found := annotations;
      var previous := PreviousKeys(found);
      var m, removed := RemoveUndesired(found, previous, want);
      assert m == found - Dropped(found, want);
      assert removed <==> Dropped(found, want) != {} by {
        if removed {
          var k :| k in previous && k !in want;
          assert k in Dropped(found, want);
        }
      }
      var r, overlaid := Overlay(m, want);
      changed := removed || overlaid;
      var keys := SortKeys(want.Keys - {TRACKING});
      assert |keys| > 0 <==> Custom(want) != {} by {
        if |keys| > 0 {
          assert keys[0] in keys;
        }
      }
      TrackingUntouched(m, want);
      if |keys| > 0 {
        var value := Join(keys, ',');
        if Read(r, TRACKING) != value {
          r := r[TRACKING := value];
          changed := true;
        }
      } else if TRACKING in r {
        r := r - {TRACKING};
        changed := true;
      }
      annotations := r;
    }
  }

  lemma TrackingUntouched(m: Annotations, want: Annotations)
    ensures var r := Overlaid(m, want, Custom(want));
            (TRACKING in r <==> TRACKING in m) && (TRACKING in m ==> r[TRACKING] == m[TRACKING])
  {
  }
}
