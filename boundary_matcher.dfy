/**
 * Boundary Matcher: `_find_zip_property` and `build_choropleth_geojson`, which find
 * the property holding the zip code in the boundary features and join each boundary
 * polygon whose zip code has a bucket with that bucket's opportunities, producing
 * a GeoJSON FeatureCollection (sections 3.2 and 3.3 of RFC 7946).
 */
module BoundaryMatcher {
  import opened Wrappers
  import opened Sequences
  import opened ZipAggregator

  /** A JSON property value: a string, or any other value with the text `str()` gives it. */
  datatype Value = Str(s: string) | NonStr(rendered: string)

  /** Python's `str(v)`. */
  function PyStr(v: Value): string
  {
    match v
    case Str(s) => s
    case NonStr(rendered) => rendered
  }

  /** A feature's `properties` object, in insertion order. */
  type Props = seq<(string, Value)>

  /** Python dicts never repeat a key. */
  predicate DistinctKeys(props: Props)
  {
    forall i, j | 0 <= i < j < |props| :: props[i].0 != props[j].0
  }

  /** The value stored under `key`, if any (the first entry with that key). */
  function Lookup(props: Props, key: string): Option<Value>
  {
    if props == [] then None
    else if props[0].0 == key then Some(props[0].1)
    else Lookup(props[1..], key)
  }

  /** The property names, in insertion order. */
  function Keys(props: Props): (r: seq<string>)
    ensures |r| == |props| && forall i | 0 <= i < |props| :: r[i] == props[i].0
  {
    seq(|props|, i requires 0 <= i < |props| => props[i].0)
  }

  /** A boundary feature: `geometry` and `properties` may be absent from the JSON. */
  datatype Geometry = Geometry(json: string)
  datatype Boundary = Boundary(geometry: Option<Geometry>, properties: Option<Props>)
  /** The downloaded boundary document; its `features` member may be absent. */
  datatype BoundaryCollection = BoundaryCollection(features: Option<seq<Boundary>>)

  /** A feature's properties, with a missing properties member read as no properties. */
  function PropsOf(f: Boundary): Props
  {
    f.properties.GetOr([])
  }

  /** The property names tried first, in this order. */
  const ZipKeyCandidates: seq<string> := ["ZCTA5CE10", "ZCTA5CE20", "ZIP", "ZIPCODE", "zip", "GEOID10", "GEOID20"]

  /** A string value that the zip pattern matches in full. */
  predicate IsZipValue(v: Value)
  {
    v.Str? && ZipFullMatch(v.s)
  }

  /** The value under `key` is a string that the zip pattern matches in full. */
  predicate HoldsZip(props: Props, key: string)
  {
    Lookup(props, key).Some? && IsZipValue(Lookup(props, key).value)
  }

  /** The first candidate at or after `c` whose value holds a zip code. */
  function FirstCandidate(props: Props, c: nat): (r: Option<nat>)
    requires c <= |ZipKeyCandidates|
    ensures r.Some? ==> c <= r.value < |ZipKeyCandidates| && HoldsZip(props, ZipKeyCandidates[r.value])
    ensures forall d | c <= d < |ZipKeyCandidates| && (r.None? || d < r.value) :: !HoldsZip(props, ZipKeyCandidates[d])
    decreases |ZipKeyCandidates| - c
  {
    if c == |ZipKeyCandidates| then None
    else if HoldsZip(props, ZipKeyCandidates[c]) then Some(c)
    else FirstCandidate(props, c + 1)
  }

  /** The first entry at or after `j` whose value is a zip string. */
  function FirstZipEntry(props: Props, j: nat): (r: Option<nat>)
    requires j <= |props|
    ensures r.Some? ==> j <= r.value < |props| && IsZipValue(props[r.value].1)
    ensures forall k | j <= k < |props| && (r.None? || k < r.value) :: !IsZipValue(props[k].1)
    decreases |props| - j
  {
    if j == |props| then None
    else if IsZipValue(props[j].1) then Some(j)
    else FirstZipEntry(props, j + 1)
  }

  /** `_find_zip_property` on a feature's properties. */
  function FindZipProperty(props: Props): Option<string>
  {
    match FirstCandidate(props, 0)
    case Some(c) => Some(ZipKeyCandidates[c])
    case None =>
      match FirstZipEntry(props, 0)
      case Some(j) => Some(props[j].0)
      case None => None
  }

  /**
   * The candidates win in their fixed order; only when none holds a zip code is the
   * first entry, in insertion order, whose value is a zip string taken; non-strings never count.
   */
  lemma FindZipPropertyIsFirstHit(props: Props)
    ensures var r := FindZipProperty(props);
      && (r.None? <==> (forall c | 0 <= c < |ZipKeyCandidates| :: !HoldsZip(props, ZipKeyCandidates[c]))
                       && forall j | 0 <= j < |props| :: !IsZipValue(props[j].1))
      && ((exists c | 0 <= c < |ZipKeyCandidates| :: HoldsZip(props, ZipKeyCandidates[c])) ==>
            exists c | 0 <= c < |ZipKeyCandidates| ::
              && r == Some(ZipKeyCandidates[c]) && HoldsZip(props, ZipKeyCandidates[c])
              && forall d | 0 <= d < c :: !HoldsZip(props, ZipKeyCandidates[d]))
      && ((forall c | 0 <= c < |ZipKeyCandidates| :: !HoldsZip(props, ZipKeyCandidates[c])) && r.Some? ==>
            exists j | 0 <= j < |props| ::
              && r.value == props[j].0 && IsZipValue(props[j].1)
              && forall k | 0 <= k < j :: !IsZipValue(props[k].1))
  {
    match FirstCandidate(props, 0)
    case Some(c) =>
    case None =>
      match FirstZipEntry(props, 0)
      case Some(j) =>
      case None =>
  }

  /** With distinct keys (as in every dict), the detected key's value is a five-digit string. */
  lemma FoundKeyHoldsZip(props: Props)
    requires DistinctKeys(props)
    ensures FindZipProperty(props).Some? ==> HoldsZip(props, FindZipProperty(props).value)
  {
    if FirstCandidate(props, 0).None? && FirstZipEntry(props, 0).Some? {
      var j := FirstZipEntry(props, 0).value;
      LookupDistinct(props, j);
    }
  }

  lemma {:induction false} LookupDistinct(props: Props, j: nat)
    requires DistinctKeys(props) && j < |props|
    ensures Lookup(props, props[j].0) == Some(props[j].1)
  {
    if j > 0 {
      LookupDistinct(props[1..], j - 1);
    }
  }

  /** `if zip_key:`: a key was returned and it is not the empty string. */
  predicate IsFoundKey(k: Option<string>)
  {
    k.Some? && k.value != ""
  }

  /** How many features the key search looks at. */
  const KeySearchLimit: nat := 5

  function SearchedCount(fs: seq<Boundary>): (n: nat)
    ensures n <= |fs| && n <= KeySearchLimit && (n == |fs| || n == KeySearchLimit)
  {
    if |fs| < KeySearchLimit then |fs| else KeySearchLimit
  }

  /** What `_find_zip_property` returns for each feature. */
  function KeysFound(fs: seq<Boundary>): (r: seq<Option<string>>)
    ensures |r| == |fs| && forall j | 0 <= j < |fs| :: r[j] == FindZipProperty(PropsOf(fs[j]))
  {
    seq(|fs|, j requires 0 <= j < |fs| => FindZipProperty(PropsOf(fs[j])))
  }

  /** The first usable key among `found[i..n]`. */
  function KeyFrom(found: seq<Option<string>>, i: nat, n: nat): (r: Option<string>)
    requires n <= |found|
    ensures r.Some? ==> IsFoundKey(r)
    decreases n - i
  {
    if n <= i then None
    else if IsFoundKey(found[i]) then found[i]
    else KeyFrom(found, i + 1, n)
  }

  /** The key the search over `boundaries["features"][:5]` settles on. */
  function DetectZipKey(fs: seq<Boundary>): Option<string>
  {
    KeyFrom(KeysFound(fs), 0, SearchedCount(fs))
  }

  lemma {:induction false} KeyFromIsFirstHit(found: seq<Option<string>>, i: nat, n: nat)
    requires i <= n <= |found|
    ensures KeyFrom(found, i, n).None? <==> forall j | i <= j < n :: !IsFoundKey(found[j])
    ensures KeyFrom(found, i, n).Some? ==>
      exists j | i <= j < n :: KeyFrom(found, i, n) == found[j] && forall k | i <= k < j :: !IsFoundKey(found[k])
    decreases n - i
  {
    if i < n && !IsFoundKey(found[i]) {
      KeyFromIsFirstHit(found, i + 1, n);
    }
  }

  /** The key comes from the first of the first five features that yields one; later features are never looked at. */
  lemma DetectZipKeyIsFirstHit(fs: seq<Boundary>)
    ensures DetectZipKey(fs).None? <==>
      forall j | 0 <= j < |fs| && j < KeySearchLimit :: !IsFoundKey(FindZipProperty(PropsOf(fs[j])))
    ensures DetectZipKey(fs).Some? ==>
      exists j | 0 <= j < |fs| && j < KeySearchLimit ::
        && DetectZipKey(fs) == FindZipProperty(PropsOf(fs[j]))
        && forall k | 0 <= k < j :: !IsFoundKey(FindZipProperty(PropsOf(fs[k])))
  {
    KeyFromIsFirstHit(KeysFound(fs), 0, SearchedCount(fs));
  }

  lemma {:induction false} KeyFromPrefix(found: seq<Option<string>>, more: seq<Option<string>>, i: nat, n: nat)
    requires i <= n <= |found|
    ensures KeyFrom(found + more, i, n) == KeyFrom(found, i, n)
    decreases n - i
  {
    if i < n {
      assert (found + more)[i] == found[i];
      KeyFromPrefix(found, more, i + 1, n);
    }
  }

  /** Features after the fifth do not influence which key is detected. */
  lemma DetectZipKeyIgnoresTail(fs: seq<Boundary>, more: seq<Boundary>)
    requires |fs| >= KeySearchLimit
    ensures DetectZipKey(fs + more) == DetectZipKey(fs)
  {
    assert KeysFound(fs + more) == KeysFound(fs) + KeysFound(more);
    KeyFromPrefix(KeysFound(fs), KeysFound(more), 0, KeySearchLimit);
  }

  /** What `build_choropleth_geojson` and `generate_html` raise. */
  datatype Error =
    | MissingKey(key: string)                      // KeyError
    | ZipPropertyNotFound(available: seq<string>)  // ValueError with a sample of property names

  /** One projected opportunity inside an output feature. */
  datatype MappedOpp = MappedOpp(title: string, organization: string, date: string, time: string,
                                 oppType: string, url: string)

  /** The summary of one row: `title` and `organization` are required, the rest default to "". */
  function Summarize(row: Row): (r: Result<MappedOpp, Error>)
    ensures r.Success? <==> "title" in row && "organization" in row
    ensures r.Failure? ==> r.error == MissingKey(if "title" in row then "organization" else "title")
    ensures r.Success? ==>
      && r.value.title == row["title"] && r.value.organization == row["organization"]
      && r.value.date == Field(row, "date", "") && r.value.time == Field(row, "time", "")
      && r.value.oppType == Field(row, "opportunity_type", "") && r.value.url == Field(row, "opportunity_url", "")
  {
    if "title" !in row then Failure(MissingKey("title"))
    else if "organization" !in row then Failure(MissingKey("organization"))
    else Success(MappedOpp(row["title"], row["organization"], Field(row, "date", ""), Field(row, "time", ""),
                           Field(row, "opportunity_type", ""), Field(row, "opportunity_url", "")))
  }

  /** The `opportunities` list comprehension: the first row lacking a required field raises. */
  function Summaries(rows: seq<Row>): Result<seq<MappedOpp>, Error>
  {
    if rows == [] then Success([])
    else
      match Summaries(rows[..|rows| - 1])
      case Failure(e) => Failure(e)
      case Success(acc) =>
        match Summarize(rows[|rows| - 1])
        case Failure(e) => Failure(e)
        case Success(m) => Success(acc + [m])
  }

  /** The summaries are one per row, in row order; they fail exactly when some row lacks a required field, with the first such row's error. */
  lemma {:induction false} SummariesAreRowwise(rows: seq<Row>)
    ensures Summaries(rows).Success? <==> forall i | 0 <= i < |rows| :: Summarize(rows[i]).Success?
    ensures Summaries(rows).Success? ==>
      && |Summaries(rows).value| == |rows|
      && forall i | 0 <= i < |rows| :: Summarize(rows[i]) == Success(Summaries(rows).value[i])
    ensures Summaries(rows).Failure? ==>
      exists i | 0 <= i < |rows| ::
        && Summarize(rows[i]) == Failure(Summaries(rows).error)
        && forall k | 0 <= k < i :: Summarize(rows[k]).Success?
  {
    SummariesSucceed(rows);
    SummariesFirstFailure(rows);
  }

  /** The success half: every row summarises, and the summaries line up with the rows. */
  lemma {:induction false} SummariesSucceed(rows: seq<Row>)
    ensures Summaries(rows).Success? <==> forall i | 0 <= i < |rows| :: Summarize(rows[i]).Success?
    ensures Summaries(rows).Success? ==>
      && |Summaries(rows).value| == |rows|
      && forall i | 0 <= i < |rows| :: Summarize(rows[i]) == Success(Summaries(rows).value[i])
  {
    if rows != [] {
      var init := rows[..|rows| - 1];
      SummariesSucceed(init);
      assert forall i | 0 <= i < |init| :: rows[i] == init[i];
    }
  }

  /** The failure half: the error is the one of the first row that does not summarise. */
  lemma {:induction false} SummariesFirstFailure(rows: seq<Row>)
    ensures Summaries(rows).Failure? ==>
      exists i | 0 <= i < |rows| ::
        && Summarize(rows[i]) == Failure(Summaries(rows).error)
        && forall k | 0 <= k < i :: Summarize(rows[k]).Success?
  {
    if rows != [] {
      var init := rows[..|rows| - 1];
      SummariesSucceed(init);
      SummariesFirstFailure(init);
      assert forall i | 0 <= i < |init| :: rows[i] == init[i];
      if Summaries(init).Failure? {
        var i :| 0 <= i < |init| && Summarize(init[i]) == Failure(Summaries(init).error)
                 && forall k | 0 <= k < i :: Summarize(init[k]).Success?;
        assert Summarize(rows[i]) == Failure(Summaries(rows).error);
      } else if Summaries(rows).Failure? {
        assert Summarize(rows[|init|]) == Failure(Summaries(rows).error);
      }
    }
  }

  /** The zip code of a boundary feature: the text of its value under the detected key, "" when it has none. */
  function BoundaryZip(props: Props, key: string): string
  {
    PyStr(Lookup(props, key).GetOr(Str("")))
  }

  /** An output Feature (RFC 7946 section 3.2) with its `properties` spelled out. */
  datatype ZipFeature = ZipFeature(geometry: Geometry, zipcode: string, count: nat, opportunities: seq<MappedOpp>)
  /** An output FeatureCollection (RFC 7946 section 3.3). */
  datatype FeatureCollection = FeatureCollection(features: seq<ZipFeature>)

  /** One pass of the join loop: the feature it appends, if any, or the error it raises. */
  function Emit(byZip: map<string, seq<Row>>, key: string, f: Boundary): Result<Option<ZipFeature>, Error>
  {
    match f.properties
    case None => Failure(MissingKey("properties"))
    case Some(props) =>
      var zc := BoundaryZip(props, key);
      if zc !in byZip then Success(None)
      else if f.geometry.None? then Failure(MissingKey("geometry"))
      else
        match Summaries(byZip[zc])
        case Failure(e) => Failure(e)
        case Success(opps) => Success(Some(ZipFeature(f.geometry.value, zc, |byZip[zc]|, opps)))
  }

  /** The join loop over all boundary features, in boundary order. */
  function Join(byZip: map<string, seq<Row>>, key: string, fs: seq<Boundary>): Result<seq<ZipFeature>, Error>
  {
    if fs == [] then Success([])
    else
      match Join(byZip, key, fs[..|fs| - 1])
      case Failure(e) => Failure(e)
      case Success(acc) =>
        match Emit(byZip, key, fs[|fs| - 1])
        case Failure(e) => Failure(e)
        case Success(None) => Success(acc)
        case Success(Some(feature)) => Success(acc + [feature])
  }

  /** The ValueError raised when no key is found: it lists the first feature's property names. */
  function NoKeyError(fs: seq<Boundary>): Error
  {
    if fs == [] then ZipPropertyNotFound([])
    else if fs[0].properties.None? then MissingKey("properties")
    else ZipPropertyNotFound(Keys(fs[0].properties.value))
  }

  /** `build_choropleth_geojson`, as a value. */
  function Choropleth(byZip: map<string, seq<Row>>, boundaries: BoundaryCollection): Result<FeatureCollection, Error>
  {
    match boundaries.features
    case None => Failure(MissingKey("features"))
    case Some(fs) =>
      if !IsFoundKey(DetectZipKey(fs)) then Failure(NoKeyError(fs))
      else
        match Join(byZip, DetectZipKey(fs).value, fs)
        case Failure(e) => Failure(e)
        case Success(out) => Success(FeatureCollection(out))
  }

  /** The zip codes of the output features. */
  function Zipcodes(features: seq<ZipFeature>): set<string>
  {
    set f | f in features :: f.zipcode
  }

  /** Once the join loop has raised, later features change nothing. */
  lemma {:induction false} JoinFailureSticks(byZip: map<string, seq<Row>>, key: string, fs: seq<Boundary>, n: nat)
    requires n <= |fs| && Join(byZip, key, fs[..n]).Failure?
    ensures Join(byZip, key, fs) == Join(byZip, key, fs[..n])
    decreases |fs| - n
  {
    if n < |fs| {
      assert fs[..n + 1][..n] == fs[..n];
      JoinFailureSticks(byZip, key, fs, n + 1);
    } else {
      assert fs[..n] == fs;
    }
  }

  /**
   * `build_choropleth_geojson`: detect the zip property in the first five features,
   * then emit one feature per boundary whose zip code has a bucket, in boundary order.
   * `unmatched` is the set of bucket zip codes no boundary carries (only reported).
   */
  method BuildChoroplethGeojson(byZip: map<string, seq<Row>>, boundaries: BoundaryCollection)
    returns (r: Result<FeatureCollection, Error>, unmatched: set<string>)
    ensures r == Choropleth(byZip, boundaries)
    ensures r.Success? ==> unmatched == byZip.Keys - Zipcodes(r.value.features)
    ensures r.Failure? ==> unmatched == {}
  {
    unmatched := {};
    if boundaries.features.None? {
      return Failure(MissingKey("features")), unmatched;
    }
    var fs := boundaries.features.value;
    var n := if |fs| < KeySearchLimit then |fs| else KeySearchLimit;
    var zipKey: Option<string> := None;
    ghost var found := KeysFound(fs);
    for k := 0 to n
      invariant DetectZipKey(fs) == KeyFrom(found, k, n)
      invariant !IsFoundKey(zipKey)
    {
      zipKey := FindZipProperty(PropsOf(fs[k]));
      if IsFoundKey(zipKey) {
        break;
      }
    }
    if !IsFoundKey(zipKey) {
      if fs == [] {
        return Failure(ZipPropertyNotFound([])), unmatched;
      } else if fs[0].properties.None? {
        return Failure(MissingKey("properties")), unmatched;
      }
      return Failure(ZipPropertyNotFound(Keys(fs[0].properties.value))), unmatched;
    }
    var joined, matched := JoinFeatures(byZip, zipKey.value, fs);
    if joined.Failure? {
      return Failure(joined.error), unmatched;
    }
    unmatched := byZip.Keys - matched;
    r := Success(FeatureCollection(joined.value));
  }

  /** The join loop of `build_choropleth_geojson`, with the set of zip codes it matched. */
  method JoinFeatures(byZip: map<string, seq<Row>>, key: string, fs: seq<Boundary>)
    returns (r: Result<seq<ZipFeature>, Error>, matched: set<string>)
    ensures r == Join(byZip, key, fs)
    ensures r.Success? ==> matched == Zipcodes(r.value)
  {
    var features: seq<ZipFeature> := [];
    matched := {};
    for i := 0 to |fs|
      invariant Join(byZip, key, fs[..i]) == Success(features)
      invariant matched == Zipcodes(features)
    {
      var feature := fs[i];
      assert fs[..i + 1][..i] == fs[..i];
      if feature.properties.None? {
        JoinFailureSticks(byZip, key, fs, i + 1);
        return Failure(MissingKey("properties")), matched;
      }
      var zc := BoundaryZip(feature.properties.value, key);
      if zc in byZip {
        var opps := byZip[zc];
        if feature.geometry.None? {
          JoinFailureSticks(byZip, key, fs, i + 1);
          return Failure(MissingKey("geometry")), matched;
        }
        var summaries := Summaries(opps);
        if summaries.Failure? {
          JoinFailureSticks(byZip, key, fs, i + 1);
          return Failure(summaries.error), matched;
        }
        var added := ZipFeature(feature.geometry.value, zc, |opps|, summaries.value);
        assert Zipcodes(features + [added]) == Zipcodes(features) + {zc};
        features := features + [added];
        matched := matched + {zc};
      }
    }
    assert fs[..|fs|] == fs;
    r := Success(features);
  }

  /** The boundary features that carry properties and a zip code with a bucket, in boundary order. */
  function Emitted(byZip: map<string, seq<Row>>, key: string, fs: seq<Boundary>): (r: seq<Boundary>)
    ensures forall f :: f in r <==> f in fs && f.properties.Some? && BoundaryZip(f.properties.value, key) in byZip
  {
    if fs == [] then []
    else
      var f := fs[|fs| - 1];
      assert fs == fs[..|fs| - 1] + [f];
      Emitted(byZip, key, fs[..|fs| - 1])
        + if f.properties.Some? && BoundaryZip(f.properties.value, key) in byZip then [f] else []
  }

  /** The kept features appear in boundary order, duplicates included. */
  lemma {:induction false} EmittedIsSubsequence(byZip: map<string, seq<Row>>, key: string, fs: seq<Boundary>)
    ensures IsSubsequence(Emitted(byZip, key, fs), fs)
  {
    if fs != [] {
      var init, f := fs[..|fs| - 1], fs[|fs| - 1];
      EmittedIsSubsequence(byZip, key, init);
      var a := Emitted(byZip, key, fs);
      if f.properties.Some? && BoundaryZip(f.properties.value, key) in byZip {
        assert a == Emitted(byZip, key, init) + [f];
        assert a[..|a| - 1] == Emitted(byZip, key, init);
      } else {
        assert a == Emitted(byZip, key, init);
      }
    }
  }

  /** A kept feature is kept as often as it occurs among the boundaries; any other feature not at all. */
  lemma {:induction false} EmittedCount(byZip: map<string, seq<Row>>, key: string, fs: seq<Boundary>, f: Boundary)
    ensures multiset(Emitted(byZip, key, fs))[f] ==
      if f.properties.Some? && BoundaryZip(f.properties.value, key) in byZip then multiset(fs)[f] else 0
  {
    if fs != [] {
      var init, last := fs[..|fs| - 1], fs[|fs| - 1];
      EmittedCount(byZip, key, init, f);
      assert fs == init + [last];
    }
  }

  /** A feature the join passes over without raising. */
  predicate Joinable(byZip: map<string, seq<Row>>, key: string, f: Boundary)
  {
    && f.properties.Some?
    && (BoundaryZip(f.properties.value, key) in byZip ==>
          f.geometry.Some? && Summaries(byZip[BoundaryZip(f.properties.value, key)]).Success?)
  }

  /** The join succeeds exactly when every feature is joinable; it then emits one feature per entry of `Emitted`, in order. */
  lemma {:induction false} JoinFollowsEmitted(byZip: map<string, seq<Row>>, key: string, fs: seq<Boundary>)
    ensures Join(byZip, key, fs).Success? <==> forall i | 0 <= i < |fs| :: Joinable(byZip, key, fs[i])
    ensures Join(byZip, key, fs).Success? ==>
      var out := Join(byZip, key, fs).value;
      && |out| == |Emitted(byZip, key, fs)|
      && forall i | 0 <= i < |out| :: Emit(byZip, key, Emitted(byZip, key, fs)[i]) == Success(Some(out[i]))
  {
    if fs != [] {
      var init, f := fs[..|fs| - 1], fs[|fs| - 1];
      JoinFollowsEmitted(byZip, key, init);
      assert forall i | 0 <= i < |init| :: fs[i] == init[i];
      assert Emit(byZip, key, f).Success? <==> Joinable(byZip, key, f);
    }
  }

  /**
   * Each emitted feature keeps the boundary's geometry, carries the bucket's zip code,
   * counts the bucket's rows and summarises them one by one in bucket order.
   */
  lemma EmitShape(byZip: map<string, seq<Row>>, key: string, f: Boundary, g: ZipFeature)
    requires Emit(byZip, key, f) == Success(Some(g))
    ensures f.properties.Some? && g.zipcode == BoundaryZip(f.properties.value, key)
    ensures g.zipcode in byZip && f.geometry == Some(g.geometry)
    ensures g.count == |byZip[g.zipcode]| == |g.opportunities|
    ensures forall j | 0 <= j < g.count :: Summarize(byZip[g.zipcode][j]) == Success(g.opportunities[j])
  {
    SummariesAreRowwise(byZip[g.zipcode]);
  }

  /**
   * A successful `build_choropleth_geojson`: one output feature per boundary feature
   * whose zip code is a bucket key, in boundary order (duplicates kept), each with the
   * geometry unchanged and a count of at least 1 when no bucket is empty.
   */
  lemma ChoroplethFeatures(byZip: map<string, seq<Row>>, boundaries: BoundaryCollection, i: nat)
    requires Choropleth(byZip, boundaries).Success?
    requires i < |Choropleth(byZip, boundaries).value.features|
    ensures boundaries.features.Some? && IsFoundKey(DetectZipKey(boundaries.features.value))
    ensures var fs, key := boundaries.features.value, DetectZipKey(boundaries.features.value).value;
      var out, src := Choropleth(byZip, boundaries).value.features, Emitted(byZip, key, fs);
      && |out| == |src|
      && src[i] in fs
      && src[i].geometry == Some(out[i].geometry)
      && out[i].zipcode == BoundaryZip(src[i].properties.value, key) && out[i].zipcode in byZip
      && out[i].count == |byZip[out[i].zipcode]| == |out[i].opportunities|
      && (byZip[out[i].zipcode] != [] ==> out[i].count >= 1)
  {
    var fs := boundaries.features.value;
    var key := DetectZipKey(fs).value;
    JoinFollowsEmitted(byZip, key, fs);
    var out := Choropleth(byZip, boundaries).value.features;
    EmitShape(byZip, key, Emitted(byZip, key, fs)[i], out[i]);
  }

  /** The output zip codes are exactly the bucket keys some boundary carries; the other bucket keys are only reported. */
  lemma ChoroplethZipcodes(byZip: map<string, seq<Row>>, boundaries: BoundaryCollection)
    requires Choropleth(byZip, boundaries).Success?
    ensures boundaries.features.Some? && IsFoundKey(DetectZipKey(boundaries.features.value))
    ensures var fs, key := boundaries.features.value, DetectZipKey(boundaries.features.value).value;
      forall z :: z in Zipcodes(Choropleth(byZip, boundaries).value.features) <==>
        z in byZip && exists f | f in fs :: f.properties.Some? && BoundaryZip(f.properties.value, key) == z
  {
    var fs := boundaries.features.value;
    var key := DetectZipKey(fs).value;
    var out := Choropleth(byZip, boundaries).value.features;
    assert Join(byZip, key, fs) == Success(out);
    JoinFollowsEmitted(byZip, key, fs);
    forall z ensures z in Zipcodes(out) <==> z in byZip && exists f | f in fs :: f.properties.Some? && BoundaryZip(f.properties.value, key) == z {
      JoinedZipcode(byZip, key, fs, out, z);
    }
  }

  /** One zip code of the join's output, in both directions. */
  lemma JoinedZipcode(byZip: map<string, seq<Row>>, key: string, fs: seq<Boundary>, out: seq<ZipFeature>, z: string)
    requires |out| == |Emitted(byZip, key, fs)|
    requires forall i | 0 <= i < |out| :: Emit(byZip, key, Emitted(byZip, key, fs)[i]) == Success(Some(out[i]))
    ensures z in Zipcodes(out) <==> z in byZip && exists f | f in fs :: f.properties.Some? && BoundaryZip(f.properties.value, key) == z
  {
    var src := Emitted(byZip, key, fs);
    if z in Zipcodes(out) {
      var i :| 0 <= i < |out| && out[i].zipcode == z;
      EmitShape(byZip, key, src[i], out[i]);
      assert src[i] in fs;
    }
    if z in byZip && exists f | f in fs :: f.properties.Some? && BoundaryZip(f.properties.value, key) == z {
      var f :| f in fs && f.properties.Some? && BoundaryZip(f.properties.value, key) == z;
      assert f in src;
      var i :| 0 <= i < |src| && src[i] == f;
      EmitShape(byZip, key, src[i], out[i]);
      assert out[i] in out;
    }
  }

  /** Without a usable key among the first five features, nothing is produced and ValueError (or a KeyError for the sample) is raised. */
  lemma NoKeyNoOutput(byZip: map<string, seq<Row>>, fs: seq<Boundary>)
    requires forall j | 0 <= j < |fs| && j < KeySearchLimit :: !IsFoundKey(FindZipProperty(PropsOf(fs[j])))
    ensures Choropleth(byZip, BoundaryCollection(Some(fs))) == Failure(NoKeyError(fs))
    ensures fs == [] ==> Choropleth(byZip, BoundaryCollection(Some(fs))) == Failure(ZipPropertyNotFound([]))
  {
    DetectZipKeyIsFirstHit(fs);
  }
}
