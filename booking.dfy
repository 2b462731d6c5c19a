/** Selection of the registered plate from the fetched bookings (`get_latest_booking_plate`).
    The database read itself is not modelled: the function receives the already-fetched map. */
module Booking {
  import opened Wrappers
  import PlateText

  /** One booking record: its fields by name. */
  type Record = map<string, string>

  /** Python's `<` on `str`, which `sorted` uses: lexicographic by code point, a proper prefix
      coming first (so "b1" sorts before "b10"). Dafny's own `<` on sequences is the
      proper-prefix relation only. */
  predicate LexLess(a: string, b: string)
    ensures a < b ==> LexLess(a, b)
    ensures LexLess(a, b) && a != [] && b != [] ==> a[0] <= b[0]
    decreases |a|
  {
    if a == [] then b != []
    else if b == [] then false
    else if a[0] != b[0] then a[0] < b[0]
    else LexLess(a[1..], b[1..])
  }

  lemma {:induction false} LexIrreflexive(a: string)
    ensures !LexLess(a, a)
  {
    if a != [] {
      LexIrreflexive(a[1..]);
    }
  }

  lemma {:induction false} LexTransitive(a: string, b: string, c: string)
    requires LexLess(a, b) && LexLess(b, c)
    ensures LexLess(a, c)
    decreases |a|
  {
    if a != [] && b != [] && c != [] && a[0] == b[0] && b[0] == c[0] {
      LexTransitive(a[1..], b[1..], c[1..]);
    }
  }

  lemma {:induction false} LexTotal(a: string, b: string)
    ensures a == b || LexLess(a, b) || LexLess(b, a)
    decreases |a|
  {
    if a != [] && b != [] && a[0] == b[0] {
      LexTotal(a[1..], b[1..]);
      if a[1..] == b[1..] {
        assert a == [a[0]] + a[1..] && b == [b[0]] + b[1..];
      }
    }
  }

  /** `k` is the last key in `sorted(keys)`. */
  predicate IsGreatest(k: string, keys: set<string>) {
    k in keys && forall j :: j in keys ==> j == k || LexLess(j, k)
  }

  lemma {:induction false} GreatestExists(keys: set<string>)
    requires keys != {}
    ensures exists k :: IsGreatest(k, keys)
    decreases |keys|
  {
    var x :| x in keys;
    var rest := keys - {x};
    if rest != {} {
      GreatestExists(rest);
      var m :| IsGreatest(m, rest);
      LexTotal(x, m);
      if LexLess(x, m) {
        assert IsGreatest(m, keys);
      } else {
        forall j | j in keys
          ensures j == x || LexLess(j, x)
        {
          if j != x && j != m {
            LexTransitive(j, m, x);
          }
        }
        assert IsGreatest(x, keys);
      }
    } else {
      assert keys == {x};
      assert IsGreatest(x, keys);
    }
  }

  lemma GreatestUnique(k1: string, k2: string, keys: set<string>)
    requires IsGreatest(k1, keys) && IsGreatest(k2, keys)
    ensures k1 == k2
  {
    if k1 != k2 {
      LexTransitive(k1, k2, k1);
      LexIrreflexive(k1);
    }
  }

  lemma GreatestIsUnique(keys: set<string>)
    ensures forall k1, k2 :: IsGreatest(k1, keys) && IsGreatest(k2, keys) ==> k1 == k2
  {
    forall k1, k2 | IsGreatest(k1, keys) && IsGreatest(k2, keys) ensures k1 == k2 {
      GreatestUnique(k1, k2, keys);
    }
  }

  /** `sorted(bookings.keys())[-1]`. */
  function LatestKey(bookings: map<string, Record>): (k: string)
    requires bookings != map[]
    ensures k in bookings
    ensures forall j :: j in bookings && j != k ==> LexLess(j, k)
  {
    GreatestExists(bookings.Keys);
    GreatestIsUnique(bookings.Keys);
    var k :| IsGreatest(k, bookings.Keys);
    k
  }

  /** `bookings[key].get("plate", "")`. */
  function PlateOf(r: Record): string {
    if "plate" in r then r["plate"] else ""
  }

  /** `get_latest_booking_plate`, applied to the fetched map (an absent or empty map is falsy). */
  function LatestBookingPlate(bookings: map<string, Record>): (r: Option<string>)
    ensures r == None <==> bookings == map[]
    ensures forall k :: IsGreatest(k, bookings.Keys) ==> r == Some(PlateText.Upper(PlateOf(bookings[k])))
  {
    if bookings == map[] then None
    else
      var k := LatestKey(bookings);
      GreatestIsUnique(bookings.Keys);
      Some(PlateText.Upper(PlateOf(bookings[k])))
  }

  lemma LatestBookingExample()
    ensures LatestBookingPlate(map["b1" := map["plate" := "ab12"], "b2" := map["plate" := "cd34"]]) == Some("CD34")
    ensures LatestBookingPlate(map["b1" := map["plate" := "ab12"], "b2" := map[]]) == Some("")
  {
    var m1 := map["b1" := map["plate" := "ab12"], "b2" := map["plate" := "cd34"]];
    assert IsGreatest("b2", m1.Keys) by {
      assert m1.Keys == {"b1", "b2"};
      assert LexLess("b1", "b2");
    }
    var m2 := map["b1" := map["plate" := "ab12"], "b2" := map[]];
    assert IsGreatest("b2", m2.Keys) by {
      assert m2.Keys == {"b1", "b2"};
      assert LexLess("b1", "b2");
    }
    assert PlateText.Upper("cd34") == "CD34";
  }
}
