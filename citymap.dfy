/**
 * The user map page (src/pages/MapPage.tsx): a city's colour band from its
 * approved share, the circle markers and count labels the marker effect
 * places for the cities that have coordinates, and city selection.
 */
module CityMap {
  import opened Optional
  import Theme
  import InvitationTree

  // ------------------------------------------------------------------
  // Data
  // ------------------------------------------------------------------

  datatype StatusCounts = StatusCounts(approved: nat, published: nat, pending: nat, rejected: nat)

  /** One city with its coordinates (either may be missing) and its users' status counts. */
  datatype CityData = CityData(
    city: string,
    lat: Option<real>,
    lng: Option<real>,
    count: nat,
    statusCounts: StatusCounts)

  // ------------------------------------------------------------------
  // Colours
  // ------------------------------------------------------------------

  /** `STATUS_COLORS`, written with literal colour codes in this page. */
  const StatusColors: map<string, string> := map[
    "approved" := "#34D399",
    "published" := "#60A5FA",
    "rejected" := "#F87171",
    "pending" := "#FBBF24"]

  /** `getStatusDot` of this page: muted grey for statuses outside the table. */
  function StatusDot(status: string): (c: string)
    ensures c == "#55556A" <==> status !in StatusColors
    ensures status in StatusColors ==> c == StatusColors[status]
  {
    if status in StatusColors then StatusColors[status] else "#55556A"
  }

  /** The map page and the network page colour every status alike. */
  lemma StatusDotAgreesWithNetworkPage(status: string)
    ensures StatusDot(status) == InvitationTree.StatusDot(status)
  {
  }

  const HighShareColor: string := "#34D399"
  const MidShareColor: string := "#60A5FA"
  const LowShareColor: string := "#FBBF24"

  /** Approved users are those approved or already published. */
  function ApprovedCount(sc: StatusCounts): nat
  {
    sc.approved + sc.published
  }

  function Total(sc: StatusCounts): nat
  {
    ApprovedCount(sc) + sc.rejected + sc.pending
  }

  /** Multiplying both sides by a positive factor keeps the order. */
  lemma ScaleKeepsOrder(x: real, y: real, k: real)
    requires k > 0.0
    ensures x >= y <==> x * k >= y * k
  {
    assert x * k - y * k == (x - y) * k;
  }

  /** For a positive total, `a / t >= n / d` holds exactly when `d * a >= n * t`. */
  lemma ShareAtLeast(a: nat, t: nat, n: nat, d: nat)
    requires t > 0 && d > 0
    ensures a as real / t as real >= n as real / d as real <==> d * a >= n * t
  {
    var q := a as real / t as real;
    var p := n as real / d as real;
    var k := d as real * t as real;
    assert k > 0.0;
    ScaleKeepsOrder(q, p, k);
    assert q * t as real == a as real;
    assert p * d as real == n as real;
    assert q * k == d as real * (q * t as real);
    assert p * k == t as real * (p * d as real);
    assert (d * a) as real == d as real * a as real;
    assert (n * t) as real == t as real * n as real;
  }

  /**
   * `getBubbleColor`: the accent colour when the city has no counted users,
   * otherwise a band by approved share: at least 70%, at least 40%, below.
   * The contract states the bands with integer cross-multiplication.
   */
  function BubbleColor(sc: StatusCounts): (c: string)
    ensures c == Theme.Accent <==> Total(sc) == 0
    ensures c == HighShareColor <==> Total(sc) > 0 && 10 * ApprovedCount(sc) >= 7 * Total(sc)
    ensures c == MidShareColor
            <==> Total(sc) > 0 && 10 * ApprovedCount(sc) < 7 * Total(sc) && 10 * ApprovedCount(sc) >= 4 * Total(sc)
    ensures c == LowShareColor <==> Total(sc) > 0 && 10 * ApprovedCount(sc) < 4 * Total(sc)
  {
    var approved := sc.approved + sc.published;
    var total := approved + sc.rejected + sc.pending;
    if total == 0 then Theme.Accent
    else
      var rate := approved as real / total as real;
      ShareAtLeast(approved, total, 7, 10);
      ShareAtLeast(approved, total, 4, 10);
      if rate >= 0.7 then "#34D399"
      else if rate >= 0.4 then "#60A5FA"
      else "#FBBF24"
  }

  // ------------------------------------------------------------------
  // Markers
  // ------------------------------------------------------------------

  /** A coordinate is usable when it is present and not 0 (JavaScript truthiness). */
  predicate Truthy(coord: Option<real>)
  {
    coord.Some? && coord.value != 0.0
  }

  predicate HasCoordinates(c: CityData)
  {
    Truthy(c.lat) && Truthy(c.lng)
  }

  /** `validCities`: the cities that get a marker, in their given order. */
  function ValidCities(cities: seq<CityData>): (valid: seq<CityData>)
    ensures forall c :: c in valid ==> c in cities && HasCoordinates(c)
    ensures forall c :: c in cities && HasCoordinates(c) ==> c in valid
    ensures |valid| <= |cities|
  {
    if cities == [] then []
    else (if HasCoordinates(cities[0]) then [cities[0]] else []) + ValidCities(cities[1..])
  }

  /** The filter keeps the given order: the valid cities of two lists in sequence are those of each, in sequence. */
  lemma {:induction false} ValidCitiesConcat(a: seq<CityData>, b: seq<CityData>)
    ensures ValidCities(a + b) == ValidCities(a) + ValidCities(b)
  {
    if a == [] {
      assert a + b == b;
    } else {
      assert (a + b)[0] == a[0];
      assert (a + b)[1..] == a[1..] + b;
      ValidCitiesConcat(a[1..], b);
    }
  }

  /** Nothing is reordered or merged: when every city has coordinates, the list is kept as it is, duplicates included. */
  lemma {:induction false} ValidCitiesKeepsAll(cities: seq<CityData>)
    requires forall i :: 0 <= i < |cities| ==> HasCoordinates(cities[i])
    ensures ValidCities(cities) == cities
  {
    if cities != [] {
      ValidCitiesKeepsAll(cities[1..]);
      assert cities == [cities[0]] + cities[1..];
    }
  }

  function Max(a: nat, b: nat): nat
  {
    if a >= b then a else b
  }

  /** `maxCount`: the largest count among the valid cities, and at least 1. */
  function MaxCount(valid: seq<CityData>): (m: nat)
    ensures m >= 1
    ensures forall c :: c in valid ==> c.count <= m
    ensures m == 1 || exists c :: c in valid && c.count == m
  {
    if valid == [] then 1 else Max(valid[0].count, MaxCount(valid[1..]))
  }

  function MinReal(a: real, b: real): real
  {
    if a <= b then a else b
  }

  function MaxReal(a: real, b: real): real
  {
    if a >= b then a else b
  }

  lemma DivAtMostOne(c: real, m: real)
    requires m > 0.0 && 0.0 <= c <= m
    ensures c / m <= 1.0
  {
    assert (c / m) * m == c;
  }

  lemma DivAtLeastOne(c: real, m: real)
    requires m > 0.0 && c >= m
    ensures c / m >= 1.0
  {
    assert (c / m) * m == c;
  }

  lemma DivMonotone(c1: real, c2: real, m: real)
    requires m > 0.0 && c1 <= c2
    ensures c1 / m <= c2 / m
  {
    assert (c1 / m) * m == c1 && (c2 / m) * m == c2;
  }

  /**
   * The marker radius: the count scaled by the largest count onto [8, 35].
   * For a count up to `maxCount` the clamp never cuts: the radius grows
   * linearly from 8 to 35.
   */
  function BaseRadius(count: nat, maxCount: nat): (r: real)
    requires maxCount >= 1
    ensures 8.0 <= r <= 35.0
    ensures count <= maxCount ==> r == 8.0 + 27.0 * (count as real / maxCount as real)
    ensures count >= maxCount ==> r == 35.0
  {
    var share := count as real / maxCount as real;
    if count <= maxCount then
      DivAtMostOne(count as real, maxCount as real);
      MaxReal(8.0, MinReal(35.0, 8.0 + share * 27.0))
    else
      DivAtLeastOne(count as real, maxCount as real);
      MaxReal(8.0, MinReal(35.0, 8.0 + share * 27.0))
  }

  /** A larger city never gets a smaller marker. */
  lemma BaseRadiusMonotone(c1: nat, c2: nat, maxCount: nat)
    requires maxCount >= 1 && c1 <= c2
    ensures BaseRadius(c1, maxCount) <= BaseRadius(c2, maxCount)
  {
    DivMonotone(c1 as real, c2 as real, maxCount as real);
  }

  /** A city whose count is the largest gets the largest marker, 35. */
  lemma LargestCityHasLargestRadius(cities: seq<CityData>, c: CityData)
    requires c in ValidCities(cities)
    requires c.count == MaxCount(ValidCities(cities))
    ensures BaseRadius(c.count, MaxCount(ValidCities(cities))) == 35.0
  {
  }

  datatype Marker =
    | Circle(city: string, radius: real, fillColor: string, selected: bool)
    | CountLabel(city: string, count: nat, radius: real)

  /** `isSelected`: the selected city has the same name. */
  predicate IsSelected(selected: Option<CityData>, c: CityData)
  {
    selected.Some? && selected.value.city == c.city
  }

  /** The circle marker of a valid city: base radius, 4 larger when selected, filled with its bubble colour. */
  function CircleFor(c: CityData, maxCount: nat, selected: Option<CityData>): Marker
    requires maxCount >= 1
  {
    var radius := BaseRadius(c.count, maxCount);
    var isSelected := IsSelected(selected, c);
    Circle(c.city, if isSelected then radius + 4.0 else radius, BubbleColor(c.statusCounts), isSelected)
  }

  /** The count label of a city, sized by its base radius. */
  function LabelFor(c: CityData, maxCount: nat): Marker
    requires maxCount >= 1
  {
    CountLabel(c.city, c.count, BaseRadius(c.count, maxCount))
  }

  /**
   * What the marker effect adds for one valid city: its circle, then a count
   * label when at least two users live there.
   */
  function MarkersFor(c: CityData, maxCount: nat, selected: Option<CityData>): seq<Marker>
    requires maxCount >= 1
  {
    [CircleFor(c, maxCount, selected)] + (if c.count >= 2 then [LabelFor(c, maxCount)] else [])
  }

  /** The markers for a run of valid cities, in order. */
  function MarkersOf(valid: seq<CityData>, maxCount: nat, selected: Option<CityData>): seq<Marker>
    requires maxCount >= 1
  {
    if valid == [] then []
    else MarkersOf(valid[..|valid| - 1], maxCount, selected) + MarkersFor(valid[|valid| - 1], maxCount, selected)
  }

  /** The whole marker layer the effect leaves behind for `cities` and the current selection. */
  function MarkerLayer(cities: seq<CityData>, selected: Option<CityData>): seq<Marker>
  {
    var valid := ValidCities(cities);
    MarkersOf(valid, MaxCount(valid), selected)
  }

  /** The markers currently on the map (`markersRef.current`). */
  class MarkerSet {
    var markers: seq<Marker>

    constructor ()
      ensures markers == []
    {
      markers := [];
    }

    /** One pass of the marker loop: push the city's circle, then its count label if it has one. */
    method PushCity(c: CityData, maxCount: nat, selected: Option<CityData>)
      requires maxCount >= 1
      modifies this
      ensures markers == old(markers) + MarkersFor(c, maxCount, selected)
    {
      markers := markers + [CircleFor(c, maxCount, selected)];
      if c.count >= 2 {
        markers := markers + [LabelFor(c, maxCount)];
      }
    }

    /** The marker effect: clear the old markers, then push a circle (and label) per valid city. */
    method Refresh(cities: seq<CityData>, selected: Option<CityData>)
      modifies this
      ensures markers == MarkerLayer(cities, selected)
    {
      markers := [];
      var valid := ValidCities(cities);
      if |valid| == 0 {
        return;
      }
      var maxCount := MaxCount(valid);
      var i := 0;
      while i < |valid|
        invariant 0 <= i <= |valid|
        invariant markers == MarkersOf(valid[..i], maxCount, selected)
      {
        ghost var before := markers;
        PushCity(valid[i], maxCount, selected);
        assert valid[..i + 1][..i] == valid[..i] && valid[..i + 1][i] == valid[i];
        assert MarkersOf(valid[..i + 1], maxCount, selected) == before + MarkersFor(valid[i], maxCount, selected);
        i := i + 1;
      }
      assert valid[..i] == valid;
    }
  }

  lemma {:induction false} MarkersOfBounds(valid: seq<CityData>, maxCount: nat, selected: Option<CityData>, m: Marker)
    requires maxCount >= 1
    requires m in MarkersOf(valid, maxCount, selected)
    ensures m.Circle? && !m.selected ==> 8.0 <= m.radius <= 35.0
    ensures m.Circle? && m.selected ==> 12.0 <= m.radius <= 39.0
    ensures m.CountLabel? ==> m.count >= 2
    ensures exists c :: c in valid && c.city == m.city
    ensures exists c :: c in valid && (m == CircleFor(c, maxCount, selected) || (c.count >= 2 && m == LabelFor(c, maxCount)))
    decreases |valid|
  {
    var init := valid[..|valid| - 1];
    var last := valid[|valid| - 1];
    if m in MarkersOf(init, maxCount, selected) {
      MarkersOfBounds(init, maxCount, selected, m);
      var c :| c in init && c.city == m.city;
      assert c in valid;
      var d :| d in init && (m == CircleFor(d, maxCount, selected) || (d.count >= 2 && m == LabelFor(d, maxCount)));
      assert d in valid;
    } else {
      var r := BaseRadius(last.count, maxCount);
      assert m in MarkersFor(last, maxCount, selected);
      assert m.Circle? ==> m.radius == r + (if m.selected then 4.0 else 0.0);
      assert last in valid;
    }
  }

  /**
   * Every marker on the map belongs to a city with coordinates; unselected
   * circles have radius in [8, 35], selected ones in [12, 39], and count labels
   * appear only for cities with at least two users.
   */
  lemma MarkerLayerProperties(cities: seq<CityData>, selected: Option<CityData>, m: Marker)
    requires m in MarkerLayer(cities, selected)
    ensures m.Circle? && !m.selected ==> 8.0 <= m.radius <= 35.0
    ensures m.Circle? && m.selected ==> 12.0 <= m.radius <= 39.0
    ensures m.CountLabel? ==> m.count >= 2
    ensures exists c :: c in cities && HasCoordinates(c) && c.city == m.city
    ensures exists c ::
              c in cities && HasCoordinates(c) &&
              (m == CircleFor(c, MaxCount(ValidCities(cities)), selected) || (c.count >= 2 && m == LabelFor(c, MaxCount(ValidCities(cities)))))
  {
    var valid := ValidCities(cities);
    MarkersOfBounds(valid, MaxCount(valid), selected, m);
    var c :| c in valid && c.city == m.city;
    assert c in cities && HasCoordinates(c);
    var d :| d in valid && (m == CircleFor(d, MaxCount(valid), selected) || (d.count >= 2 && m == LabelFor(d, MaxCount(valid))));
    assert d in cities && HasCoordinates(d);
  }

  lemma {:induction false} MarkersOfContains(valid: seq<CityData>, maxCount: nat, selected: Option<CityData>, c: CityData)
    requires maxCount >= 1
    requires c in valid
    ensures forall m :: m in MarkersFor(c, maxCount, selected) ==> m in MarkersOf(valid, maxCount, selected)
    decreases |valid|
  {
    var init := valid[..|valid| - 1];
    if c != valid[|valid| - 1] {
      assert valid == init + [valid[|valid| - 1]];
      assert c in init;
      MarkersOfContains(init, maxCount, selected, c);
    }
  }

  lemma CityMarkedIn(valid: seq<CityData>, maxCount: nat, selected: Option<CityData>, c: CityData)
    requires maxCount >= 1 && c in valid
    ensures CircleFor(c, maxCount, selected) in MarkersOf(valid, maxCount, selected)
    ensures c.count >= 2 ==> LabelFor(c, maxCount) in MarkersOf(valid, maxCount, selected)
  {
    MarkersOfContains(valid, maxCount, selected, c);
  }

  /**
   * Every city with coordinates gets its circle on the map, and a count label
   * when at least two users live there.
   */
  lemma EveryValidCityIsMarked(cities: seq<CityData>, selected: Option<CityData>, c: CityData)
    requires c in cities && HasCoordinates(c)
    ensures CircleFor(c, MaxCount(ValidCities(cities)), selected) in MarkerLayer(cities, selected)
    ensures c.count >= 2 ==> LabelFor(c, MaxCount(ValidCities(cities))) in MarkerLayer(cities, selected)
  {
    var valid := ValidCities(cities);
    assert c in valid;
    CityMarkedIn(valid, MaxCount(valid), selected, c);
  }

  // ------------------------------------------------------------------
  // Selection
  // ------------------------------------------------------------------

  /** `handleSelectCity`'s updater: clicking the selected city again clears the selection. */
  function SelectCity(prev: Option<CityData>, c: CityData): (next: Option<CityData>)
    ensures next.None? <==> IsSelected(prev, c)
    ensures next.Some? ==> next.value == c && IsSelected(next, c)
  {
    if prev.Some? && prev.value.city == c.city then None else Some(c)
  }

  /** Clicking a city twice, starting from any selection of another city, ends with nothing selected. */
  lemma SelectTwiceClears(prev: Option<CityData>, c: CityData)
    requires !IsSelected(prev, c)
    ensures SelectCity(SelectCity(prev, c), c) == None
  {
  }
}
