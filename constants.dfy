/** The `EARTH_REGIONS` table of constants.ts: four longitude bands, each a
    half-open interval [min, max) of the globe's normalised rotation. */
module Constants {
  import opened JsMath

  datatype Region = Region(name: string, min: real, max: real)

  const EarthRegions: seq<Region> := [
    Region("PACIFIC OCEAN", 0.0, 1.5),
    Region("ASIA / AUSTRALIA", 1.5, 3.0),
    Region("AFRICA / EUROPE", 3.0, 4.5),
    Region("AMERICAS", 4.5, 6.3)
  ]

  /** The test `find` applies to each entry: `v >= r.min && v < r.max`. */
  predicate Contains(r: Region, v: real) {
    r.min <= v < r.max
  }

  /** Every interval of the table is non-empty. */
  predicate NonEmpty(table: seq<Region>) {
    forall i :: 0 <= i < |table| ==> table[i].min < table[i].max
  }

  /** Each interval ends where the next one begins. */
  predicate Contiguous(table: seq<Region>) {
    forall i :: 0 <= i < |table| - 1 ==> table[i].max == table[i + 1].min
  }

  /** The table has four regions, in this order, with these bounds. */
  lemma EarthRegionsShape()
    ensures |EarthRegions| == 4
    ensures EarthRegions[0].name == "PACIFIC OCEAN" && EarthRegions[1].name == "ASIA / AUSTRALIA"
    ensures EarthRegions[2].name == "AFRICA / EUROPE" && EarthRegions[3].name == "AMERICAS"
    ensures NonEmpty(EarthRegions) && Contiguous(EarthRegions)
    ensures EarthRegions[0].min == 0.0 && EarthRegions[3].max == 6.3
    ensures EarthRegions[3].max > TwoPi()
  {
  }

  /** In a table of non-empty contiguous intervals, an earlier interval ends
      no later than a later one begins. */
  lemma {:induction false} Ordered(table: seq<Region>, i: int, j: int)
    requires NonEmpty(table) && Contiguous(table)
    requires 0 <= i < j < |table|
    ensures table[i].max <= table[j].min
    decreases j - i
  {
    if i + 1 < j {
      Ordered(table, i + 1, j);
    }
  }

  /** So at most one entry contains any value. */
  lemma Disjoint(table: seq<Region>, i: int, j: int, v: real)
    requires NonEmpty(table) && Contiguous(table)
    requires 0 <= i < |table| && 0 <= j < |table|
    requires Contains(table[i], v) && Contains(table[j], v)
    ensures i == j
  {
    if i < j {
      Ordered(table, i, j);
    } else if j < i {
      Ordered(table, j, i);
    }
  }

  /** And a value between the first minimum and the last maximum is contained
      in some entry. */
  lemma {:induction false} Covered(table: seq<Region>, v: real) returns (i: nat)
    requires Contiguous(table) && |table| > 0
    requires table[0].min <= v < table[|table| - 1].max
    ensures i < |table| && Contains(table[i], v)
  {
    if v < table[0].max || |table| == 1 {
      i := 0;
    } else {
      assert Contiguous(table[1..]) by {
        forall k | 0 <= k < |table[1..]| - 1
          ensures table[1..][k].max == table[1..][k + 1].min
        {
          assert table[1..][k] == table[k + 1];
        }
      }
      var j := Covered(table[1..], v);
      i := j + 1;
    }
  }
}
