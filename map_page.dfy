/**
 * Map Page: the data `generate_html` feeds into the page template, namely the list of
 * opportunities without a zip code and the summary statistics over the joined features.
 */
module MapPage {
  import opened Wrappers
  import opened ZipAggregator
  import opened BoundaryMatcher

  /** One entry of the virtual-opportunity list. */
  datatype VirtualOpp = VirtualOpp(title: string, organization: string, date: string, oppType: string, url: string)

  /** The projection of one virtual row: `title` and `organization` are required, the rest default to "". */
  function VirtualEntry(row: Row): (r: Result<VirtualOpp, Error>)
    ensures r.Success? <==> "title" in row && "organization" in row
    ensures r.Failure? ==> r.error == MissingKey(if "title" in row then "organization" else "title")
    ensures r.Success? ==>
      && r.value.title == row["title"] && r.value.organization == row["organization"]
      && r.value.date == Field(row, "date", "") && r.value.oppType == Field(row, "opportunity_type", "")
      && r.value.url == Field(row, "opportunity_url", "")
  {
    if "title" !in row then Failure(MissingKey("title"))
    else if "organization" !in row then Failure(MissingKey("organization"))
    else Success(VirtualOpp(row["title"], row["organization"], Field(row, "date", ""),
                            Field(row, "opportunity_type", ""), Field(row, "opportunity_url", "")))
  }

  /** The `virtual_list` comprehension: the first row lacking a required field raises. */
  function VirtualList(rows: seq<Row>): Result<seq<VirtualOpp>, Error>
  {
    if rows == [] then Success([])
    else
      match VirtualList(rows[..|rows| - 1])
      case Failure(e) => Failure(e)
      case Success(acc) =>
        match VirtualEntry(rows[|rows| - 1])
        case Failure(e) => Failure(e)
        case Success(v) => Success(acc + [v])
  }

  /** The virtual list has one entry per virtual row, in the same order, or the first row's error. */
  lemma {:induction false} VirtualListIsRowwise(rows: seq<Row>)
    ensures VirtualList(rows).Success? <==> forall i | 0 <= i < |rows| :: VirtualEntry(rows[i]).Success?
    ensures VirtualList(rows).Success? ==>
      && |VirtualList(rows).value| == |rows|
      && forall i | 0 <= i < |rows| :: VirtualEntry(rows[i]) == Success(VirtualList(rows).value[i])
    ensures VirtualList(rows).Failure? ==>
      exists i | 0 <= i < |rows| ::
        && VirtualEntry(rows[i]) == Failure(VirtualList(rows).error)
        && forall k | 0 <= k < i :: VirtualEntry(rows[k]).Success?
  {
    if rows != [] {
      var init := rows[..|rows| - 1];
      VirtualListIsRowwise(init);
      assert forall i | 0 <= i < |init| :: rows[i] == init[i];
    }
  }

  /** `total_mapped`: the sum of the feature counts. */
  function TotalMapped(features: seq<ZipFeature>): nat
  {
    if features == [] then 0 else TotalMapped(features[..|features| - 1]) + features[|features| - 1].count
  }

  /** `max_count`: the largest feature count, or 1 when there are no features. */
  function MaxCount(features: seq<ZipFeature>): (r: nat)
    ensures features == [] ==> r == 1
    ensures forall i | 0 <= i < |features| :: features[i].count <= r
    ensures features != [] ==> exists i | 0 <= i < |features| :: r == features[i].count
  {
    if features == [] then 1
    else if |features| == 1 then features[0].count
    else
      var init, last := features[..|features| - 1], features[|features| - 1];
      var m := MaxCount(init);
      assert forall i | 0 <= i < |init| :: features[i] == init[i];
      if last.count <= m then m else last.count
  }

  /** No feature is counted more than the total; with every count positive, the total is at least the number of features. */
  lemma {:induction false} TotalMappedBounds(features: seq<ZipFeature>)
    ensures forall i | 0 <= i < |features| :: features[i].count <= TotalMapped(features)
    ensures (forall i | 0 <= i < |features| :: features[i].count >= 1) ==> TotalMapped(features) >= |features|
  {
    if features != [] {
      var init := features[..|features| - 1];
      TotalMappedBounds(init);
      assert forall i | 0 <= i < |init| :: features[i] == init[i];
    }
  }

  /** The page's colour scale divides by `max_count`: it is at least 1 whenever no feature has count 0, and never exceeds the total when there are features. */
  lemma MaxCountBounds(features: seq<ZipFeature>)
    ensures (forall i | 0 <= i < |features| :: features[i].count >= 1) ==> MaxCount(features) >= 1
    ensures features != [] ==> MaxCount(features) <= TotalMapped(features)
  {
    TotalMappedBounds(features);
  }

  /** The numbers substituted into the page. */
  datatype Stats = Stats(totalMapped: nat, totalZips: nat, virtualCount: nat, maxCount: nat)

  /** What the page is generated from. */
  datatype PageData = PageData(geojson: FeatureCollection, virtualList: seq<VirtualOpp>, stats: Stats)

  /** The data part of `generate_html`: the virtual list (which may raise) and the statistics. */
  function GeneratePageData(geojson: FeatureCollection, virtualOpps: seq<Row>): (r: Result<PageData, Error>)
    ensures r.Success? <==> VirtualList(virtualOpps).Success?
    ensures r.Success? ==>
      && r.value.geojson == geojson
      && r.value.virtualList == VirtualList(virtualOpps).value
      && r.value.stats.totalZips == |geojson.features|
      && r.value.stats.virtualCount == |virtualOpps|
      && r.value.stats.totalMapped == TotalMapped(geojson.features)
      && r.value.stats.maxCount == MaxCount(geojson.features)
  {
    match VirtualList(virtualOpps)
    case Failure(e) => Failure(e)
    case Success(list) =>
      Success(PageData(geojson, list, Stats(TotalMapped(geojson.features), |geojson.features|, |virtualOpps|,
                                            MaxCount(geojson.features))))
  }

  /**
   * On the output of the join over a grouping, every count is a bucket size of at least 1,
   * so `max_count` is at least 1 and `total_mapped` at least the number of zip features.
   */
  lemma JoinedStats(rows: seq<Row>, byZip: map<string, seq<Row>>, virtual: seq<Row>,
                    boundaries: BoundaryCollection)
    requires IsGrouping(ZipOf, rows, byZip, virtual)
    requires Choropleth(byZip, boundaries).Success?
    ensures var fc := Choropleth(byZip, boundaries).value;
      && MaxCount(fc.features) >= 1
      && TotalMapped(fc.features) >= |fc.features|
      && forall i | 0 <= i < |fc.features| ::
           fc.features[i].zipcode in byZip && fc.features[i].count == |byZip[fc.features[i].zipcode]|
  {
    var fc := Choropleth(byZip, boundaries).value;
    forall i | 0 <= i < |fc.features|
      ensures fc.features[i].zipcode in byZip && fc.features[i].count == |byZip[fc.features[i].zipcode]| >= 1
    {
      ChoroplethFeatures(byZip, boundaries, i);
    }
    MaxCountBounds(fc.features);
    TotalMappedBounds(fc.features);
  }
}
