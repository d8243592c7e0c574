/** The core of `build_map`: check the header, keep the rows that have both
    coordinates, optionally downsample, clean the postal codes, and sort each
    row's marker into the "present" or the "missing" cluster while collecting
    the bounds the viewport is fitted to. */
module MapBuilder {
  import opened Wrappers
  import opened Columns
  import opened ZipClean
  import opened Markers

  /** One input row, restricted to the three required columns: its table
      index, and the latitude, longitude and postal-code cells (`None` for a
      null cell; the code as the text of the cell). */
  datatype Row = Row(index: int, lat: Option<real>, lon: Option<real>, zip: Option<string>)

  /** The input table: its header and its rows. */
  datatype Table = Table(columns: seq<string>, rows: seq<Row>)

  /** A retained row with its cleaned code `zipClean` and the `isMissing`
      flag. */
  datatype CleanRow = CleanRow(index: int, lat: real, lon: real,
                               zipClean: Option<string>, isMissing: bool)

  /** The exceptions `build_map` raises: a header that lacks required
      columns (with the sorted missing names), and a negative sample size,
      which the table library rejects. */
  datatype BuildError = MissingColumnsError(names: seq<string>) | NegativeSample(n: int)

  /** A marker layer: its name, initial visibility and the one cluster it
      holds (its name and markers). */
  datatype Layer = Layer(name: string, show: bool, clusterName: string, markers: seq<Marker>)

  /** A request to fit the viewport to `bounds` with a padding in pixels. */
  datatype FitBounds = FitBounds(bounds: seq<(real, real)>, padding: (nat, nat))

  /** The map as built: initial zoom, scale control, the layers in the order
      they are attached, the layer control's position and the viewport fit,
      if any. */
  datatype MapDoc = MapDoc(zoomStart: nat, controlScale: bool, layers: seq<Layer>,
                           controlPosition: string, fit: Option<FitBounds>)

  const PresentLayerName: string := "ZipCode pr\U{E9}sent"
  const MissingLayerName: string := "ZipCode manquant"
  const PresentClusterName: string := "Pr\U{E9}sent"
  const MissingClusterName: string := "Manquant"
  const ZoomStart: nat := 11
  const FitPadding: (nat, nat) := (20, 20)

  // ---------------------------------------------------------------------
  // Row filter

  predicate HasCoords(r: Row) {
    r.lat.Some? && r.lon.Some?
  }

  /** The rows whose latitude and longitude are both non-null, in their
      original order. */
  function Retained(rows: seq<Row>): (r: seq<Row>)
    ensures forall x :: x in r <==> x in rows && HasCoords(x)
    ensures |r| <= |rows|
  {
    if rows == [] then []
    else (if HasCoords(rows[0]) then [rows[0]] else []) + Retained(rows[1..])
  }

  /** The filter works row by row, so it keeps the relative order of the rows:
      filtering a concatenation concatenates the filtered parts. */
  lemma {:induction false} RetainedConcat(a: seq<Row>, b: seq<Row>)
    ensures Retained(a + b) == Retained(a) + Retained(b)
  {
    if a == [] {
      assert a + b == b;
    } else {
      assert (a + b)[1..] == a[1..] + b;
      RetainedConcat(a[1..], b);
    }
  }

  /** Two rows agree on everything but the postal code. */
  predicate SameButZip(x: Row, y: Row) {
    x.index == y.index && x.lat == y.lat && x.lon == y.lon
  }

  /** The postal code never decides whether a row is kept: tables that differ
      only in their codes keep the same rows, position by position. */
  lemma {:induction false} RetainedIgnoresZip(a: seq<Row>, b: seq<Row>)
    requires |a| == |b| && forall k :: 0 <= k < |a| ==> SameButZip(a[k], b[k])
    ensures |Retained(a)| == |Retained(b)|
    ensures forall k :: 0 <= k < |Retained(a)| ==> SameButZip(Retained(a)[k], Retained(b)[k])
  {
    if a != [] {
      RetainedIgnoresZip(a[1..], b[1..]);
      var ra, rb := Retained(a[1..]), Retained(b[1..]);
      assert SameButZip(a[0], b[0]);
      if HasCoords(a[0]) {
        assert Retained(a) == [a[0]] + ra && Retained(b) == [b[0]] + rb;
        forall k | 0 <= k < |Retained(a)| ensures SameButZip(Retained(a)[k], Retained(b)[k]) {
          if k > 0 {
            assert Retained(a)[k] == ra[k - 1] && Retained(b)[k] == rb[k - 1];
          }
        }
      } else {
        assert Retained(a) == ra && Retained(b) == rb;
      }
    }
  }

  // ---------------------------------------------------------------------
  // Downsampling

  /** The sampler is used only when a size is given and the rows outnumber it. */
  predicate SampleApplies(n: nat, sample: Option<int>) {
    sample.Some? && n > sample.value
  }

  /** What the seeded sampler may return: `size` distinct positions among
      `n` rows, in any order. */
  predicate ValidDraw(draw: seq<nat>, n: nat, size: int) {
    |draw| == size
    && (forall k :: 0 <= k < |draw| ==> draw[k] < n)
    && (forall i, j :: 0 <= i < j < |draw| ==> draw[i] != draw[j])
  }

  /** The rows at the positions `draw`, in the order drawn. */
  function Drawn(data: seq<Row>, draw: seq<nat>): (r: seq<Row>)
    requires forall k :: 0 <= k < |draw| ==> draw[k] < |data|
    ensures |r| == |draw| && forall k :: 0 <= k < |draw| ==> r[k] == data[draw[k]]
  {
    if draw == [] then [] else Drawn(data, draw[..|draw| - 1]) + [data[draw[|draw| - 1]]]
  }

  /** The rows at a set of positions, in table order. */
  function AtPositions(data: seq<Row>, positions: set<nat>): seq<Row>
  {
    if data == [] then []
    else AtPositions(data[..|data| - 1], positions)
         + (if |data| - 1 in positions then [data[|data| - 1]] else [])
  }

  lemma {:induction false} AtPositionsSubMultiset(data: seq<Row>, positions: set<nat>)
    ensures multiset(AtPositions(data, positions)) <= multiset(data)
  {
    if data != [] {
      var init := data[..|data| - 1];
      AtPositionsSubMultiset(init, positions);
      assert data == init + [data[|data| - 1]];
    }
  }

  lemma {:induction false} AtPositionsBeyond(data: seq<Row>, positions: set<nat>, d: nat)
    requires d >= |data|
    ensures AtPositions(data, positions + {d}) == AtPositions(data, positions)
  {
    if data != [] {
      AtPositionsBeyond(data[..|data| - 1], positions, d);
    }
  }

  lemma {:induction false} AtPositionsAdd(data: seq<Row>, positions: set<nat>, d: nat)
    requires d < |data| && d !in positions
    ensures multiset(AtPositions(data, positions + {d}))
            == multiset(AtPositions(data, positions)) + multiset{data[d]}
  {
    var init := data[..|data| - 1];
    if d == |data| - 1 {
      AtPositionsBeyond(init, positions, d);
    } else {
      AtPositionsAdd(init, positions, d);
      assert init[d] == data[d];
    }
  }

  /** The set of positions a draw takes. */
  function Positions(draw: seq<nat>): (s: set<nat>)
    ensures forall x :: x in s <==> x in draw
  {
    if draw == [] then {} else Positions(draw[..|draw| - 1]) + {draw[|draw| - 1]}
  }

  /** Rows drawn at distinct positions are, as a multiset, the rows at the
      set of those positions. */
  lemma {:induction false} DrawnAtPositions(data: seq<Row>, draw: seq<nat>)
    requires forall k :: 0 <= k < |draw| ==> draw[k] < |data|
    requires forall i, j :: 0 <= i < j < |draw| ==> draw[i] != draw[j]
    ensures multiset(Drawn(data, draw)) == multiset(AtPositions(data, Positions(draw)))
  {
    if draw == [] {
      AtPositionsEmpty(data);
    } else {
      var init, d := draw[..|draw| - 1], draw[|draw| - 1];
      DrawnAtPositions(data, init);
      assert d !in Positions(init) by {
        forall k | 0 <= k < |init| ensures init[k] != d {
          assert init[k] == draw[k];
        }
      }
      AtPositionsAdd(data, Positions(init), d);
    }
  }

  /** Rows drawn at distinct positions are a sub-multiset of the table: no
      row is taken more often than it occurs. */
  lemma DrawnSubMultiset(data: seq<Row>, draw: seq<nat>)
    requires forall k :: 0 <= k < |draw| ==> draw[k] < |data|
    requires forall i, j :: 0 <= i < j < |draw| ==> draw[i] != draw[j]
    ensures multiset(Drawn(data, draw)) <= multiset(data)
  {
    DrawnAtPositions(data, draw);
    AtPositionsSubMultiset(data, Positions(draw));
  }

  lemma {:induction false} AtPositionsEmpty(data: seq<Row>)
    ensures AtPositions(data, {}) == []
  {
    if data != [] {
      AtPositionsEmpty(data[..|data| - 1]);
    }
  }

  /** `data.sample(sample, random_state=42)` when it applies, with the
      sampler's choice of positions given as `draw`; the rows unchanged
      otherwise. A sample has exactly the requested number of rows, and takes
      no row more often than it occurs in the input. */
  function Sampled(data: seq<Row>, sample: Option<int>, draw: seq<nat>): (r: seq<Row>)
    requires SampleApplies(|data|, sample) ==> ValidDraw(draw, |data|, sample.value)
    ensures !SampleApplies(|data|, sample) ==> r == data
    ensures SampleApplies(|data|, sample) ==>
              |r| == sample.value && multiset(r) <= multiset(data)
  {
    if SampleApplies(|data|, sample) then
      DrawnSubMultiset(data, draw);
      Drawn(data, draw)
    else data
  }

  // ---------------------------------------------------------------------
  // Cleaning

  /** The `ZipClean` and `is_missing` columns of one retained row. */
  function CleanRowOf(r: Row): (c: CleanRow)
    requires HasCoords(r)
    ensures c.index == r.index && c.lat == r.lat.value && c.lon == r.lon.value
    ensures c.zipClean == CleanZip(r.zip)
    ensures c.isMissing == c.zipClean.None?
    ensures c.isMissing <==> r.zip.None? || !HasDigit(r.zip.value)
  {
    var zc := CleanZip(r.zip);
    CleanRow(r.index, r.lat.value, r.lon.value, zc, zc.None?)
  }

  /** The cleaned table: row by row, in order, the cleaned row of each row
      (so index and coordinates are kept, the code is cleaned by `CleanZip`
      and `isMissing` records its absence, as `CleanRowOf` states). */
  function CleanRows(rows: seq<Row>): (r: seq<CleanRow>)
    requires forall x :: x in rows ==> HasCoords(x)
    ensures |r| == |rows|
    ensures forall k :: 0 <= k < |rows| ==> rows[k] in rows && r[k] == CleanRowOf(rows[k])
  {
    seq(|rows|, k requires 0 <= k < |rows| => CleanRowOf(rows[k]))
  }

  // ---------------------------------------------------------------------
  // Classification

  /** The marker drawn for a cleaned row. */
  function MarkerOf(c: CleanRow): Marker {
    MarkerAt(c.index, c.lat, c.lon, c.zipClean)
  }

  /** The markers the loop adds to the "missing" cluster (`miss`) or to the
      "present" one, for the rows in `rows`, in iteration order. */
  function Cluster(rows: seq<CleanRow>, miss: bool): seq<Marker>
  {
    if rows == [] then []
    else
      var last := rows[|rows| - 1];
      Cluster(rows[..|rows| - 1], miss) + (if last.zipClean.None? == miss then [MarkerOf(last)] else [])
  }

  /** The markers of all the rows, in iteration order. */
  function AllMarkers(rows: seq<CleanRow>): (ms: seq<Marker>)
    ensures |ms| == |rows| && forall k :: 0 <= k < |rows| ==> ms[k] == MarkerOf(rows[k])
  {
    if rows == [] then [] else AllMarkers(rows[..|rows| - 1]) + [MarkerOf(rows[|rows| - 1])]
  }

  /** The two clusters partition the rows' markers: together they hold every
      marker once, counted with multiplicity. */
  lemma {:induction false} ClustersPartition(rows: seq<CleanRow>)
    ensures |Cluster(rows, true)| + |Cluster(rows, false)| == |rows|
    ensures multiset(Cluster(rows, true)) + multiset(Cluster(rows, false)) == multiset(AllMarkers(rows))
  {
    if rows != [] {
      ClustersPartition(rows[..|rows| - 1]);
    }
  }

  /** A marker is in the cluster for `miss` exactly when it is the marker of
      a row whose code is missing (`miss`) or present, and then it has that
      cluster's style. */
  lemma {:induction false} ClusterMembers(rows: seq<CleanRow>, miss: bool, m: Marker)
    ensures m in Cluster(rows, miss) <==>
              exists c :: c in rows && c.zipClean.None? == miss && m == MarkerOf(c)
    ensures m in Cluster(rows, miss) ==> m.style == StyleFor(miss)
  {
    if rows != [] {
      var init, last := rows[..|rows| - 1], rows[|rows| - 1];
      ClusterMembers(init, miss, m);
      assert rows == init + [last];
      assert forall c :: c in rows <==> c in init || c == last;
    }
  }

  /** No marker is in both clusters. */
  lemma ClustersDisjoint(rows: seq<CleanRow>, m: Marker)
    ensures !(m in Cluster(rows, true) && m in Cluster(rows, false))
  {
    ClusterMembers(rows, true, m);
    ClusterMembers(rows, false, m);
  }

  /** Without sampling, every row with both coordinates is drawn, in the
      cluster its cleaned code selects: "missing" exactly when the code has no
      digit or is null. */
  lemma EveryRetainedRowDrawn(rows: seq<Row>, k: int)
    requires 0 <= k < |rows| && HasCoords(rows[k])
    ensures var cleaned := CleanRows(Retained(rows));
            var miss := rows[k].zip.None? || !HasDigit(rows[k].zip.value);
            MarkerOf(CleanRowOf(rows[k])) in Cluster(cleaned, miss)
  {
    var kept := Retained(rows);
    assert rows[k] in kept;
    var j :| 0 <= j < |kept| && kept[j] == rows[k];
    var cleaned := CleanRows(kept);
    assert cleaned[j] == CleanRowOf(rows[k]);
    ClusterMembers(cleaned, CleanRowOf(rows[k]).zipClean.None?, MarkerOf(CleanRowOf(rows[k])));
  }

  // ---------------------------------------------------------------------
  // The whole build

  /** The bounds entries of the rows: one (latitude, longitude) pair per row,
      in iteration order. */
  function Bounds(rows: seq<CleanRow>): (b: seq<(real, real)>)
    ensures |b| == |rows| && forall k :: 0 <= k < |rows| ==> b[k] == (rows[k].lat, rows[k].lon)
  {
    if rows == [] then [] else Bounds(rows[..|rows| - 1]) + [(rows[|rows| - 1].lat, rows[|rows| - 1].lon)]
  }

  /** One more iteration of the loop adds the next row's marker to its
      cluster only. */
  lemma ClusterStep(rows: seq<CleanRow>, i: nat, miss: bool)
    requires i < |rows|
    ensures Cluster(rows[..i + 1], miss)
            == Cluster(rows[..i], miss) + (if rows[i].zipClean.None? == miss then [MarkerOf(rows[i])] else [])
  {
    assert rows[..i + 1][..i] == rows[..i];
  }

  /** The loop of `build_map` over the cleaned rows: each row's marker goes
      to the "missing" cluster when its cleaned code is absent and to the
      "present" cluster otherwise, and its coordinates are appended to the
      bounds. */
  method PlaceMarkers(rows: seq<CleanRow>) returns (present: seq<Marker>, missing: seq<Marker>,
                                                    bounds: seq<(real, real)>)
    ensures present == Cluster(rows, false) && missing == Cluster(rows, true)
    ensures bounds == Bounds(rows)
  {
    present, missing, bounds := [], [], [];
    for i := 0 to |rows|
      invariant present == Cluster(rows[..i], false)
      invariant missing == Cluster(rows[..i], true)
      invariant bounds == Bounds(rows[..i])
    {
      var row := rows[i];
      var miss := row.zipClean.None?;
      var marker := MarkerOf(row);
      ClusterStep(rows, i, true);
      ClusterStep(rows, i, false);
      assert rows[..i + 1][..i] == rows[..i];
      if miss {
        missing := missing + [marker];
      } else {
        present := present + [marker];
      }
      bounds := bounds + [(row.lat, row.lon)];
    }
    assert rows[..|rows|] == rows;
  }

  /** `build_map(df, sample)`. `draw` is the sampler's choice of positions,
      used only when sampling applies; the map centre is not modelled. */
  method BuildMap(df: Table, sample: Option<int>, draw: seq<nat>) returns (r: Result<MapDoc, BuildError>)
    requires SampleApplies(|Retained(df.rows)|, sample) && sample.value >= 0 ==>
               ValidDraw(draw, |Retained(df.rows)|, sample.value)
    ensures (r.Failure? && r.error.MissingColumnsError?) <==> !HasRequired(df.columns)
    ensures r.Failure? && r.error.MissingColumnsError? ==> r.error.names == MissingColumns(df.columns)
    ensures (r.Failure? && r.error.NegativeSample?) <==>
              HasRequired(df.columns) && sample.Some? && sample.value < 0
    ensures r.Success? ==>
              var rows := CleanRows(Sampled(Retained(df.rows), sample, draw));
              && r.value.zoomStart == ZoomStart && r.value.controlScale
              && r.value.layers == [Layer(PresentLayerName, true, PresentClusterName, Cluster(rows, false)),
                                    Layer(MissingLayerName, true, MissingClusterName, Cluster(rows, true))]
              && r.value.controlPosition == "topleft"
              && (r.value.fit.Some? <==> rows != [])
              && (r.value.fit.Some? ==> r.value.fit.value == FitBounds(Bounds(rows), FitPadding))
  {
    var missingNames := MissingColumns(df.columns);
    if missingNames != [] {
      return Failure(MissingColumnsError(missingNames));
    }
    var data := Retained(df.rows);
    if SampleApplies(|data|, sample) && sample.value < 0 {
      return Failure(NegativeSample(sample.value));
    }
    data := Sampled(data, sample, draw);
    var rows := CleanRows(data);

    var present, missing, bounds := PlaceMarkers(rows);
    var fit: Option<FitBounds> := None;
    if bounds != [] {
      fit := Some(FitBounds(bounds, FitPadding));
    }
    var layers := [Layer(PresentLayerName, true, PresentClusterName, present),
                   Layer(MissingLayerName, true, MissingClusterName, missing)];
    return Success(MapDoc(ZoomStart, true, layers, "topleft", fit));
  }
}
