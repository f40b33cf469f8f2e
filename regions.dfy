/**
 * The region table of the dashboard and what the user's selection does with
 * it: the multiselect's option list, the per-region map traces coloured by
 * selection, the table of selected rows, and the two pie values.
 */
module Regions {
  import opened Wrappers
  import opened Flattener
  import opened Lexicographic

  /** One row of the region table: `REGION_NAM` (possibly null), `Rate`, `Area` and its boundary. */
  datatype Region = Region(name: Option<string>, rate: real, area: real, geometry: Geometry)

  /** The names the user picked in the multiselect, in the order picked. */
  type Selection = seq<string>

  /** `name in selected_regions` (and `isin`): a null name is never selected. */
  predicate IsSelected(r: Region, sel: Selection)
  {
    r.name.Some? && r.name.value in sel
  }

  // ---------------------------------------------------------------------
  // The multiselect's options

  /** `REGION_NAM.dropna()`: the non-null names in table order. */
  function DropNull(regions: seq<Region>): seq<string>
  {
    if regions == [] then []
    else (if regions[0].name.Some? then [regions[0].name.value] else []) + DropNull(regions[1..])
  }

  /** The set of names that occur in the table, nulls excluded. */
  function NonNullNames(regions: seq<Region>): set<string>
  {
    set i | 0 <= i < |regions| && regions[i].name.Some? :: regions[i].name.value
  }

  lemma {:induction false} DropNullElems(regions: seq<Region>)
    ensures Elems(DropNull(regions)) == NonNullNames(regions)
  {
    if regions != [] {
      DropNullElems(regions[1..]);
      var head := if regions[0].name.Some? then [regions[0].name.value] else [];
      assert Elems(head + DropNull(regions[1..])) == Elems(head) + Elems(DropNull(regions[1..]));
      forall x | x in NonNullNames(regions)
        ensures x in Elems(head) + NonNullNames(regions[1..])
      {
        var i :| 0 <= i < |regions| && regions[i].name.Some? && regions[i].name.value == x;
        if i > 0 {
          assert regions[1..][i - 1] == regions[i];
        }
      }
      forall x | x in NonNullNames(regions[1..])
        ensures x in NonNullNames(regions)
      {
        var i :| 0 <= i < |regions[1..]| && regions[1..][i].name.Some? && regions[1..][i].name.value == x;
        assert regions[i + 1] == regions[1..][i];
      }
    }
  }

  /**
   * `sorted(REGION_NAM.dropna().unique())`: strictly ascending (so free of
   * duplicates), and holding exactly the non-null names of the table.
   */
  function RegionNames(regions: seq<Region>): (names: seq<string>)
    ensures StrictlyAscending(names)
    ensures Elems(names) == NonNullNames(regions)
    ensures forall i, j :: 0 <= i < j < |names| ==> names[i] != names[j]
  {
    DropNullElems(regions);
    AscendingDistinct(SortUnique(DropNull(regions)));
    SortUnique(DropNull(regions))
  }

  /** The option list is the only strictly ascending list of the table's non-null names. */
  lemma RegionNamesUnique(regions: seq<Region>, names: seq<string>)
    requires StrictlyAscending(names)
    requires Elems(names) == NonNullNames(regions)
    ensures names == RegionNames(regions)
  {
    AscendingUnique(names, RegionNames(regions));
  }

  // ---------------------------------------------------------------------
  // The map: one trace per region

  datatype Fill = LightBlue | LightGrey

  /** A filled path trace of the main map, with the region name its hover text shows. */
  datatype Trace = Trace(xs: seq<Coord>, ys: seq<Coord>, fill: Fill, name: Option<string>)

  /**
   * The loop over the table that adds one trace per region: its flattened
   * boundary, filled light blue exactly when its name is selected.
   */
  method DrawRegions(regions: seq<Region>, sel: Selection) returns (traces: seq<Trace>)
    ensures |traces| == |regions|
    ensures forall i :: 0 <= i < |regions| ==>
      && Path(traces[i].xs, traces[i].ys) == Flatten(regions[i].geometry)
      && traces[i].name == regions[i].name
      && (traces[i].fill == LightBlue <==> IsSelected(regions[i], sel))
    ensures sel == [] ==> forall i :: 0 <= i < |traces| ==> traces[i].fill == LightGrey
  {
    traces := [];
    for i := 0 to |regions|
      invariant |traces| == i
      invariant forall k :: 0 <= k < i ==>
        && Path(traces[k].xs, traces[k].ys) == Flatten(regions[k].geometry)
        && traces[k].name == regions[k].name
        && (traces[k].fill == LightBlue <==> IsSelected(regions[k], sel))
    {
      var x, y := ExtractCoordinates(regions[i].geometry);
      var fill := if IsSelected(regions[i], sel) then LightBlue else LightGrey;
      traces := traces + [Trace(x, y, fill, regions[i].name)];
    }
  }

  // ---------------------------------------------------------------------
  // The table of selected rows

  /** `gdf[gdf['REGION_NAM'].isin(selected_regions)]`: the selected rows in table order. */
  function SelectedRows(regions: seq<Region>, sel: Selection): seq<Region>
  {
    if regions == [] then []
    else (if IsSelected(regions[0], sel) then [regions[0]] else []) + SelectedRows(regions[1..], sel)
  }

  /** The rows left out of the selected view, null-named rows among them. */
  function UnselectedRows(regions: seq<Region>, sel: Selection): seq<Region>
  {
    if regions == [] then []
    else (if IsSelected(regions[0], sel) then [] else [regions[0]]) + UnselectedRows(regions[1..], sel)
  }

  /** Filtering commutes with concatenation, so the original relative order is kept. */
  lemma {:induction false} SelectedRowsAppend(a: seq<Region>, b: seq<Region>, sel: Selection)
    ensures SelectedRows(a + b, sel) == SelectedRows(a, sel) + SelectedRows(b, sel)
  {
    if a == [] {
      assert a + b == b;
    } else {
      assert (a + b)[1..] == a[1..] + b;
      SelectedRowsAppend(a[1..], b, sel);
    }
  }

  /**
   * Every row of the view is selected, every row of the table with a selected
   * name is kept, as often as it occurs, and nothing else appears.
   */
  lemma {:induction false} SelectedRowsCount(regions: seq<Region>, sel: Selection, r: Region)
    ensures multiset(SelectedRows(regions, sel))[r]
         == if IsSelected(r, sel) then multiset(regions)[r] else 0
  {
    if regions != [] {
      SelectedRowsCount(regions[1..], sel, r);
      assert regions == [regions[0]] + regions[1..];
    }
  }

  /** A row appears in the view iff it is a row of the table whose name is selected. */
  lemma SelectedRowsMembers(regions: seq<Region>, sel: Selection, r: Region)
    ensures r in SelectedRows(regions, sel) <==> r in regions && IsSelected(r, sel)
  {
    SelectedRowsCount(regions, sel, r);
  }

  /** With nothing selected the view is empty; with every row selected it is the whole table. */
  lemma {:induction false} SelectedRowsExtremes(regions: seq<Region>, sel: Selection)
    ensures sel == [] ==> SelectedRows(regions, sel) == []
    ensures (forall i :: 0 <= i < |regions| ==> IsSelected(regions[i], sel))
         ==> SelectedRows(regions, sel) == regions
  {
    if regions != [] {
      SelectedRowsExtremes(regions[1..], sel);
      if forall i :: 0 <= i < |regions| ==> IsSelected(regions[i], sel) {
        assert forall i :: 0 <= i < |regions[1..]| ==> regions[1..][i] == regions[i + 1];
      }
    }
  }

  // ---------------------------------------------------------------------
  // The pie: selected area against the rest

  /** `Area.sum()` over some rows. */
  function TotalArea(regions: seq<Region>): real
  {
    if regions == [] then 0.0 else regions[0].area + TotalArea(regions[1..])
  }

  /** `selected_gdf['Area'].sum()`. */
  function SelectedArea(regions: seq<Region>, sel: Selection): real
  {
    TotalArea(SelectedRows(regions, sel))
  }

  /** The two slices of the pie. */
  datatype Pie = Pie(selected: real, remaining: real)

  /**
   * The pie values, computed only when something is selected:
   * `[selected_area, total_area - selected_area]`.
   */
  function PieValues(regions: seq<Region>, sel: Selection): Option<Pie>
  {
    if sel == [] then None
    else
      var selected := SelectedArea(regions, sel);
      Some(Pie(selected, TotalArea(regions) - selected))
  }

  /** The selected and unselected rows split the table's area between them. */
  lemma {:induction false} AreaSplit(regions: seq<Region>, sel: Selection)
    ensures SelectedArea(regions, sel) + TotalArea(UnselectedRows(regions, sel)) == TotalArea(regions)
  {
    if regions != [] {
      AreaSplit(regions[1..], sel);
      var r := regions[0];
      var rest := regions[1..];
      if IsSelected(r, sel) {
        assert ([r] + SelectedRows(rest, sel))[1..] == SelectedRows(rest, sel);
        assert ([] + UnselectedRows(rest, sel)) == UnselectedRows(rest, sel);
      } else {
        assert ([r] + UnselectedRows(rest, sel))[1..] == UnselectedRows(rest, sel);
        assert ([] + SelectedRows(rest, sel)) == SelectedRows(rest, sel);
      }
    }
  }

  /**
   * The pie exists iff something is selected; its slices add up to the total
   * area, and the remaining slice is the area of the rows not selected.
   */
  lemma PieSlices(regions: seq<Region>, sel: Selection)
    ensures PieValues(regions, sel).Some? <==> sel != []
    ensures PieValues(regions, sel).Some? ==>
      && PieValues(regions, sel).value.selected + PieValues(regions, sel).value.remaining == TotalArea(regions)
      && PieValues(regions, sel).value.remaining == TotalArea(UnselectedRows(regions, sel))
  {
    AreaSplit(regions, sel);
  }

  predicate NonNegativeAreas(regions: seq<Region>)
  {
    forall i :: 0 <= i < |regions| ==> regions[i].area >= 0.0
  }

  lemma {:induction false} TotalAreaNonNegative(regions: seq<Region>)
    requires NonNegativeAreas(regions)
    ensures TotalArea(regions) >= 0.0
  {
    if regions != [] {
      assert NonNegativeAreas(regions[1..]) by {
        assert forall i :: 0 <= i < |regions[1..]| ==> regions[1..][i] == regions[i + 1];
      }
      TotalAreaNonNegative(regions[1..]);
    }
  }

  lemma {:induction false} UnselectedNonNegative(regions: seq<Region>, sel: Selection)
    requires NonNegativeAreas(regions)
    ensures NonNegativeAreas(UnselectedRows(regions, sel))
  {
    if regions != [] {
      assert NonNegativeAreas(regions[1..]) by {
        assert forall i :: 0 <= i < |regions[1..]| ==> regions[1..][i] == regions[i + 1];
      }
      UnselectedNonNegative(regions[1..], sel);
    }
  }

  /** With no negative area, the selected slice is at most the total and the remainder is not negative. */
  lemma SelectedAtMostTotal(regions: seq<Region>, sel: Selection)
    requires NonNegativeAreas(regions)
    ensures 0.0 <= TotalArea(regions) - SelectedArea(regions, sel)
    ensures SelectedArea(regions, sel) <= TotalArea(regions)
  {
    AreaSplit(regions, sel);
    UnselectedNonNegative(regions, sel);
    TotalAreaNonNegative(UnselectedRows(regions, sel));
  }

  /** The rows whose name is null. */
  function NullNamedRows(regions: seq<Region>): seq<Region>
  {
    if regions == [] then []
    else (if regions[0].name.None? then [regions[0]] else []) + NullNamedRows(regions[1..])
  }

  /**
   * Selecting every option of the multiselect leaves exactly the null-named
   * rows unselected, so the remainder is their area: 0 when every row is named.
   */
  lemma {:induction false} SelectAllNames(regions: seq<Region>, sel: Selection)
    requires forall name :: name in NonNullNames(regions) ==> name in sel
    ensures UnselectedRows(regions, sel) == NullNamedRows(regions)
    ensures sel != [] ==> PieValues(regions, sel).value.remaining == TotalArea(NullNamedRows(regions))
    ensures sel != [] && (forall i :: 0 <= i < |regions| ==> regions[i].name.Some?)
         ==> PieValues(regions, sel).value.remaining == 0.0
  {
    AreaSplit(regions, sel);
    if regions != [] {
      assert regions[0].name.Some? ==> regions[0].name.value in NonNullNames(regions);
      forall name | name in NonNullNames(regions[1..])
        ensures name in sel
      {
        var i :| 0 <= i < |regions[1..]| && regions[1..][i].name.Some? && regions[1..][i].name.value == name;
        assert regions[i + 1] == regions[1..][i];
      }
      SelectAllNames(regions[1..], sel);
      if forall i :: 0 <= i < |regions| ==> regions[i].name.Some? {
        assert regions[0].name.Some?;
        assert forall i :: 0 <= i < |regions[1..]| ==> regions[1..][i] == regions[i + 1];
      }
    }
  }

  /** Areas A = 10, B = 20, C = 5 with selection {A, C}: view [A, C] and pie values [15, 20]. */
  lemma PieExample(g: Geometry)
    ensures var a := Region(Some("A"), 0.0, 10.0, g);
      var b := Region(Some("B"), 0.0, 20.0, g);
      var c := Region(Some("C"), 0.0, 5.0, g);
      && SelectedRows([a, b, c], ["A", "C"]) == [a, c]
      && PieValues([a, b, c], ["A", "C"]) == Some(Pie(15.0, 20.0))
  {
    var a := Region(Some("A"), 0.0, 10.0, g);
    var b := Region(Some("B"), 0.0, 20.0, g);
    var c := Region(Some("C"), 0.0, 5.0, g);
    assert [a, b, c][1..] == [b, c] && [b, c][1..] == [c];
    assert "B"[0] != "A"[0] && "B"[0] != "C"[0];
    assert !IsSelected(b, ["A", "C"]);
    assert IsSelected(a, ["A", "C"]) && IsSelected(c, ["A", "C"]);
    assert SelectedRows([c], ["A", "C"]) == [c];
    assert SelectedRows([b, c], ["A", "C"]) == [c];
    assert SelectedRows([a, b, c], ["A", "C"]) == [a, c];
    assert TotalArea([c]) == 5.0 by {
      assert [c][1..] == [];
    }
    assert TotalArea([a, c]) == 15.0 by {
      assert [a, c][1..] == [c];
    }
    assert TotalArea([a, b, c]) == 35.0;
  }
}
