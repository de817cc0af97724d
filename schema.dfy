/**
 * The tables of the charging-spot store and the rows that the schema
 * bootstrap seeds: users, the four spots, the queue and the singletons.
 */
module Schema {
  import opened Wrappers

  /** A user's charger preference (`pref IN ('both','tesla','chargepoint')`). */
  datatype Pref = Both | Tesla | ChargePoint

  /** A spot's charger type (`type IN ('tesla','chargepoint')`). */
  datatype SpotKind = TeslaCharger | ChargePointCharger

  /** A row of `users`, keyed by its serial id. */
  datatype User = User(name: string, pref: Pref)

  /** A row of `spots`, keyed by its text id; `caption` is the `label` column and `userId` the assignment. */
  datatype Spot = Spot(kind: SpotKind, caption: string, userId: Option<int>)

  /** A row of `queue` as a read returns it. */
  datatype QueueRow = QueueRow(position: int, userId: int)

  /** A row of `spots` as a read returns it. */
  datatype SpotRow = SpotRow(id: string, kind: SpotKind, caption: string, userId: Option<int>)

  /** The four spots the bootstrap inserts, unassigned. */
  const SeedSpots: map<string, Spot> := map[
    "tesla-1" := Spot(TeslaCharger, "Tesla #1", None),
    "tesla-2" := Spot(TeslaCharger, "Tesla #2", None),
    "chargepoint-1" := Spot(ChargePointCharger, "ChargePoint #1", None),
    "chargepoint-2" := Spot(ChargePointCharger, "ChargePoint #2", None)
  ]

  /** The seeded spot ids in the order `ORDER BY id` lists them. */
  const SeedOrder: seq<string> := ["chargepoint-1", "chargepoint-2", "tesla-1", "tesla-2"]

  /**
   * `INSERT ... ON CONFLICT (id) DO NOTHING`: each row whose key is absent
   * is added, and a row already present is left as it is.
   */
  function InsertOrIgnore<K, V>(table: map<K, V>, rows: map<K, V>): (r: map<K, V>)
    ensures r.Keys == table.Keys + rows.Keys
    ensures forall k :: k in table ==> r[k] == table[k]
    ensures forall k :: k in rows && k !in table ==> r[k] == rows[k]
  {
    rows + table
  }

  /** Running the seeding a second time changes nothing. */
  lemma InsertOrIgnoreIdempotent<K, V>(table: map<K, V>, rows: map<K, V>)
    ensures InsertOrIgnore(InsertOrIgnore(table, rows), rows) == InsertOrIgnore(table, rows)
  {
    var once := InsertOrIgnore(table, rows);
    var twice := InsertOrIgnore(once, rows);
    assert twice.Keys == once.Keys;
  }

  /** Seeding an empty `spots` table creates exactly the four spots, all unassigned. */
  lemma SeedingCreatesFourSpots()
    ensures var spots := InsertOrIgnore(map[], SeedSpots);
      && spots == SeedSpots
      && |spots| == 4
      && forall k :: k in spots ==> spots[k].userId == None
  {
    var spots := InsertOrIgnore(map[], SeedSpots);
    assert spots.Keys == SeedSpots.Keys;
    assert SeedSpots.Keys == {"tesla-1", "tesla-2", "chargepoint-1", "chargepoint-2"};
  }

  /** Text order by code point, as `ORDER BY` on a text key under the C collation. */
  predicate CodePointLess(a: string, b: string) {
    if a == [] then b != []
    else if b == [] then false
    else if a[0] != b[0] then a[0] < b[0]
    else CodePointLess(a[1..], b[1..])
  }

  /** A common prefix does not change the order. */
  lemma {:induction false} CodePointLessPrefix(p: string, a: string, b: string)
    ensures CodePointLess(p + a, p + b) == CodePointLess(a, b)
  {
    if p == [] {
      assert p + a == a && p + b == b;
    } else {
      assert (p + a)[1..] == p[1..] + a;
      assert (p + b)[1..] == p[1..] + b;
      CodePointLessPrefix(p[1..], a, b);
    }
  }

  /** The seed order lists every seeded spot exactly once. */
  lemma SeedOrderCoversSeeds()
    ensures |SeedOrder| == |SeedSpots|
    ensures forall k :: k in SeedSpots <==> k in SeedOrder
  {
    assert SeedSpots.Keys == {"tesla-1", "tesla-2", "chargepoint-1", "chargepoint-2"};
  }

  /** The two ChargePoint ids differ only in their last digit. */
  lemma SeedOrderChargePoint()
    ensures CodePointLess(SeedOrder[0], SeedOrder[1])
  {
    CodePointLessPrefix("chargepoint-", "1", "2");
    assert SeedOrder[0] == "chargepoint-" + "1" && SeedOrder[1] == "chargepoint-" + "2";
  }

  /** The two Tesla ids differ only in their last digit. */
  lemma SeedOrderTesla()
    ensures CodePointLess(SeedOrder[2], SeedOrder[3])
  {
    CodePointLessPrefix("tesla-", "1", "2");
    assert SeedOrder[2] == "tesla-" + "1" && SeedOrder[3] == "tesla-" + "2";
  }

  /** Texts whose first characters differ are ordered by those characters. */
  lemma FirstCharDecides(a: string, b: string)
    requires a != [] && b != [] && a[0] < b[0]
    ensures CodePointLess(a, b)
  {
  }

  /** Every ChargePoint id sorts before every Tesla id ('c' < 't'). */
  lemma SeedOrderAcrossFamilies()
    ensures CodePointLess(SeedOrder[0], SeedOrder[2]) && CodePointLess(SeedOrder[0], SeedOrder[3])
    ensures CodePointLess(SeedOrder[1], SeedOrder[2]) && CodePointLess(SeedOrder[1], SeedOrder[3])
  {
    var c1, c2, t1, t2 := SeedOrder[0], SeedOrder[1], SeedOrder[2], SeedOrder[3];
    assert c1[0] == 'c' && c2[0] == 'c' && t1[0] == 't' && t2[0] == 't';
    FirstCharDecides(c1, t1);
    FirstCharDecides(c1, t2);
    FirstCharDecides(c2, t1);
    FirstCharDecides(c2, t2);
  }

  /** The seed order is ascending by id, so it is what `ORDER BY id` returns. */
  lemma SeedOrderAscending()
    ensures forall i, j :: 0 <= i < j < |SeedOrder| ==> CodePointLess(SeedOrder[i], SeedOrder[j])
  {
    forall i, j | 0 <= i < j < |SeedOrder|
      ensures CodePointLess(SeedOrder[i], SeedOrder[j])
    {
      if j < 2 {
        SeedOrderChargePoint();
        assert i == 0 && j == 1;
      } else if 2 <= i {
        SeedOrderTesla();
        assert i == 2 && j == 3;
      } else {
        SeedOrderAcrossFamilies();
        assert i == 0 || i == 1;
        assert j == 2 || j == 3;
      }
    }
  }

  /** No text sorts before itself. */
  lemma {:induction false} CodePointLessIrreflexive(a: string)
    ensures !CodePointLess(a, a)
  {
    if a != [] {
      CodePointLessIrreflexive(a[1..]);
    }
  }

  /** The ids in the seed order are pairwise different. */
  lemma SeedOrderDistinct()
    ensures forall i, j :: 0 <= i < j < |SeedOrder| ==> SeedOrder[i] != SeedOrder[j]
  {
    SeedOrderAscending();
    forall i, j | 0 <= i < j < |SeedOrder|
      ensures SeedOrder[i] != SeedOrder[j]
    {
      CodePointLessIrreflexive(SeedOrder[i]);
    }
  }
}
