/**
 * Zip Aggregator: `extract_zipcode` and `group_by_zip`, which split the scraped rows
 * into one bucket per five-digit zip code and a list of rows without one ("virtual").
 */
module ZipAggregator {
  import opened Wrappers
  import opened Text
  import opened Sequences

  /** A row as `csv.DictReader` yields it: column name to cell text. */
  type Row = map<string, string>

  /** The value of column `key`, or `default` when the row lacks it. */
  function Field(row: Row, key: string, default: string): string
  {
    if key in row then row[key] else default
  }

  /** Exactly five ASCII digits. */
  predicate IsZip(z: string)
  {
    |z| == 5 && forall k | 0 <= k < 5 :: IsDigit(z[k])
  }

  /** `\b(\d{5})\b` matches at `i`: five digits with no word character on either side. */
  predicate ZipAt(s: string, i: int)
  {
    && 0 <= i && i + 5 <= |s|
    && IsZip(s[i..i + 5])
    && (i == 0 || !IsWordChar(s[i - 1]))
    && (i + 5 == |s| || !IsWordChar(s[i + 5]))
  }

  /** `ZIP_RE.fullmatch(v)`: the match at 0 covers all of `v`. */
  predicate ZipFullMatch(v: string)
  {
    ZipAt(v, 0) && |v| == 5
  }

  /** A full match of the zip pattern is nothing but a five-digit string. */
  lemma ZipFullMatchIsZip(v: string)
    ensures ZipFullMatch(v) <==> IsZip(v)
  {
    if IsZip(v) {
      assert v[0..5] == v;
    }
  }

  /** The leftmost match position at or after `i` (what `search` tries, left to right). */
  function FirstZipFrom(s: string, i: nat): (r: Option<nat>)
    requires i <= |s|
    ensures r.Some? ==> i <= r.value && r.value + 5 <= |s| && IsZip(s[r.value..r.value + 5])
    decreases |s| - i
  {
    if i + 5 > |s| then None
    else if ZipAt(s, i) then Some(i)
    else FirstZipFrom(s, i + 1)
  }

  /** The position found matches and no position before it does; when none is found no position at all matches. */
  lemma {:induction false} FirstZipFromIsLeftmost(s: string, i: nat)
    requires i <= |s|
    ensures FirstZipFrom(s, i).Some? ==> ZipAt(s, FirstZipFrom(s, i).value)
    ensures FirstZipFrom(s, i).Some? ==> forall j | i <= j < FirstZipFrom(s, i).value :: !ZipAt(s, j)
    ensures FirstZipFrom(s, i).None? ==> forall j | i <= j :: !ZipAt(s, j)
    decreases |s| - i
  {
    if i + 5 <= |s| && !ZipAt(s, i) {
      FirstZipFromIsLeftmost(s, i + 1);
    }
  }

  /**
   * `extract_zipcode`: the leftmost standalone run of five digits in the location
   * (`None` and "" are searched as ""), or `None` when there is none; the match is
   * characterised by `ExtractZipcodeIsLeftmostMatch`.
   */
  function ExtractZipcode(location: Option<string>): (r: Option<string>)
    ensures r.Some? ==> IsZip(r.value)
  {
    var s := location.GetOr("");
    match FirstZipFrom(s, 0)
    case None => None
    case Some(i) => Some(s[i..i + 5])
  }

  /** The result is the leftmost match of `\b(\d{5})\b`, and there is none exactly when no position matches. */
  lemma ExtractZipcodeIsLeftmostMatch(location: Option<string>)
    ensures var s, r := location.GetOr(""), ExtractZipcode(location);
      && (r.None? <==> forall j :: !ZipAt(s, j))
      && (r.Some? ==> exists i :: ZipAt(s, i) && r.value == s[i..i + 5] && forall j | 0 <= j < i :: !ZipAt(s, j))
  {
    var s := location.GetOr("");
    FirstZipFromIsLeftmost(s, 0);
    if FirstZipFrom(s, 0).Some? {
      var i := FirstZipFrom(s, 0).value;
      assert ZipAt(s, i);
    }
  }

  /** Positions holding no digit cannot start a match, so the search skips them. */
  lemma {:induction false} SkipNonDigits(s: string, i: nat, j: nat)
    requires i <= j <= |s| && forall k | i <= k < j :: !IsDigit(s[k])
    ensures FirstZipFrom(s, i) == FirstZipFrom(s, j)
    decreases j - i
  {
    if i < j {
      assert !ZipAt(s, i) by {
        if i + 5 <= |s| {
          assert s[i..i + 5][0] == s[i];
        }
      }
      SkipNonDigits(s, i + 1, j);
    }
  }

  /** The ZIP+4 form "CA 90065-1234" yields "90065". */
  lemma ExtractZipcodeFindsZipPlusFour()
    ensures ExtractZipcode(Some("CA 90065-1234")) == Some("90065")
  {
    var b := "CA 90065-1234";
    SkipNonDigits(b, 0, 3);
    assert b[3..8] == "90065";
    assert ZipAt(b, 3);
  }

  /** A six-digit run, digits glued to letters, a missing or empty location yield nothing. */
  lemma ExtractZipcodeRejects()
    ensures ExtractZipcode(Some("900651")) == None
    ensures ExtractZipcode(Some("CA90065")) == None
    ensures ExtractZipcode(None) == None && ExtractZipcode(Some("")) == None
  {
    var c := "900651";
    assert !ZipAt(c, 0) && !ZipAt(c, 1);
    var d := "CA90065";
    SkipNonDigits(d, 0, 2);
    assert !ZipAt(d, 2) by { assert d[1] == 'A'; }
  }

  /** The zip code `group_by_zip` files a row under: the one found in its location, read as "" when missing. */
  function ZipOf(row: Row): (r: Option<string>)
    ensures r.Some? ==> IsZip(r.value)
  {
    ExtractZipcode(Some(Field(row, "location", "")))
  }

  /** The rows whose zip code is `zip` (`None`: the virtual rows), in input order. */
  function Routed(key: Row -> Option<string>, rows: seq<Row>, zip: Option<string>): (r: seq<Row>)
    ensures |r| <= |rows|
  {
    if rows == [] then []
    else
      var last := rows[|rows| - 1];
      Routed(key, rows[..|rows| - 1], zip) + if key(last) == zip then [last] else []
  }

  /**
   * `byZip` and `virtual` are the grouping of `rows`: the keys are the zip codes that
   * occur, each bucket holds that zip's rows in input order, `virtual` the others.
   */
  ghost predicate IsGrouping(key: Row -> Option<string>, rows: seq<Row>, byZip: map<string, seq<Row>>, virtual: seq<Row>)
  {
    && (forall z :: z in byZip <==> Routed(key, rows, Some(z)) != [])
    && (forall z | z in byZip :: byZip[z] == Routed(key, rows, Some(z)))
    && virtual == Routed(key, rows, None)
  }

  /** `group_by_zip` over rows already read from the CSV. */
  method GroupByZip(rows: seq<Row>) returns (byZip: map<string, seq<Row>>, virtual: seq<Row>)
    ensures IsGrouping(ZipOf, rows, byZip, virtual)
    ensures forall z | z in byZip :: IsZip(z) && byZip[z] != []
  {
    byZip, virtual := map[], [];
    for i := 0 to |rows|
      invariant IsGrouping(ZipOf, rows[..i], byZip, virtual)
      invariant forall z | z in byZip :: IsZip(z)
    {
      var row := rows[i];
      var zc := ExtractZipcode(Some(Field(row, "location", "")));
      GroupingSnoc(ZipOf, rows, i, byZip, virtual);
      if zc.Some? {
        var bucket := if zc.value in byZip then byZip[zc.value] else [];
        byZip := byZip[zc.value := bucket + [row]];
      } else {
        virtual := virtual + [row];
      }
    }
    assert rows[..|rows|] == rows;
  }

  /** Each row lands in the bucket of its own zip code, or in `virtual`, as often as it occurs, and nowhere else. */
  lemma {:induction false} RoutedCount(key: Row -> Option<string>, rows: seq<Row>, zip: Option<string>, row: Row)
    ensures multiset(Routed(key, rows, zip))[row] == if key(row) == zip then multiset(rows)[row] else 0
  {
    if rows != [] {
      var init, last := rows[..|rows| - 1], rows[|rows| - 1];
      RoutedCount(key, init, zip, row);
      assert rows == init + [last];
    }
  }

  /** The grouping is a partition of the rows: every row is in exactly one place. */
  lemma GroupingIsPartition(key: Row -> Option<string>, rows: seq<Row>, byZip: map<string, seq<Row>>, virtual: seq<Row>, row: Row)
    requires IsGrouping(key, rows, byZip, virtual)
    ensures forall z | z in byZip :: multiset(byZip[z])[row] == if key(row) == Some(z) then multiset(rows)[row] else 0
    ensures multiset(virtual)[row] == if key(row).None? then multiset(rows)[row] else 0
    ensures row in rows && key(row).Some? ==> key(row).value in byZip
  {
    forall z | z in byZip
      ensures multiset(byZip[z])[row] == if key(row) == Some(z) then multiset(rows)[row] else 0
    {
      RoutedCount(key, rows, Some(z), row);
    }
    RoutedCount(key, rows, None, row);
    if row in rows && key(row).Some? {
      RoutedCount(key, rows, key(row), row);
      assert row in multiset(rows);
      assert row in multiset(Routed(key, rows, key(row)));
    }
  }

  /** Filing keeps the input order. */
  lemma {:induction false} RoutedIsSubsequence(key: Row -> Option<string>, rows: seq<Row>, zip: Option<string>)
    ensures IsSubsequence(Routed(key, rows, zip), rows)
  {
    if rows != [] {
      var init, last := rows[..|rows| - 1], rows[|rows| - 1];
      RoutedIsSubsequence(key, init, zip);
      var a := Routed(key, rows, zip);
      assert rows[..|rows| - 1] == init;
      if key(last) == zip {
        assert a == Routed(key, init, zip) + [last];
        assert a[..|a| - 1] == Routed(key, init, zip);
      } else {
        assert a == Routed(key, init, zip);
      }
    }
  }

  /** Every bucket and the virtual list keep the relative order of the input rows. */
  lemma GroupingKeepsOrder(key: Row -> Option<string>, rows: seq<Row>, byZip: map<string, seq<Row>>, virtual: seq<Row>)
    requires IsGrouping(key, rows, byZip, virtual)
    ensures forall z | z in byZip :: IsSubsequence(byZip[z], rows)
    ensures IsSubsequence(virtual, rows)
  {
    forall z | z in byZip ensures IsSubsequence(byZip[z], rows) {
      RoutedIsSubsequence(key, rows, Some(z));
    }
    RoutedIsSubsequence(key, rows, None);
  }

  /** Total size of the buckets of a grouping. */
  ghost function SumSizes(m: map<string, seq<Row>>): nat
    decreases |m.Keys|
  {
    if m == map[] then 0
    else
      var k :| k in m;
      |m[k]| + SumSizes(m - {k})
  }

  /** The sum does not depend on which key is taken out first. */
  lemma {:induction false} SumSizesRemove(m: map<string, seq<Row>>, k: string)
    requires k in m
    ensures SumSizes(m) == |m[k]| + SumSizes(m - {k})
    decreases |m.Keys|
  {
    var k' :| k' in m && SumSizes(m) == |m[k']| + SumSizes(m - {k'});
    if k' != k {
      SumSizesRemove(m - {k'}, k);
      SumSizesRemove(m - {k}, k');
      assert m - {k'} - {k} == m - {k} - {k'};
    }
  }

  lemma SumSizesUpdate(m: map<string, seq<Row>>, k: string, v: seq<Row>)
    ensures SumSizes(m[k := v]) == SumSizes(m - {k}) + |v|
    ensures k in m ==> SumSizes(m) == SumSizes(m - {k}) + |m[k]|
    ensures k !in m ==> SumSizes(m) == SumSizes(m - {k})
  {
    SumSizesRemove(m[k := v], k);
    assert m[k := v] - {k} == m - {k};
    if k in m {
      SumSizesRemove(m, k);
    } else {
      assert m - {k} == m;
    }
  }

  /** Filing one more row only touches the bucket of that row's zip code. */
  lemma RoutedSnoc(key: Row -> Option<string>, rows: seq<Row>, i: nat, zip: Option<string>)
    requires i < |rows|
    ensures Routed(key, rows[..i + 1], zip) == Routed(key, rows[..i], zip) + if key(rows[i]) == zip then [rows[i]] else []
  {
    assert rows[..i + 1][..i] == rows[..i];
  }

  /** Filing row `i` as the loop body does keeps the grouping. */
  lemma GroupingSnoc(key: Row -> Option<string>, rows: seq<Row>, i: nat, byZip: map<string, seq<Row>>, virtual: seq<Row>)
    requires i < |rows| && IsGrouping(key, rows[..i], byZip, virtual)
    ensures key(rows[i]).None? ==> IsGrouping(key, rows[..i + 1], byZip, virtual + [rows[i]])
    ensures key(rows[i]).Some? ==>
      var z := key(rows[i]).value;
      IsGrouping(key, rows[..i + 1], byZip[z := (if z in byZip then byZip[z] else []) + [rows[i]]], virtual)
  {
    if key(rows[i]).Some? {
      FileIntoBucket(key, rows, i, byZip, virtual);
    } else {
      FileAsVirtual(key, rows, i, byZip, virtual);
    }
  }

  lemma FileAsVirtual(key: Row -> Option<string>, rows: seq<Row>, i: nat, byZip: map<string, seq<Row>>, virtual: seq<Row>)
    requires i < |rows| && IsGrouping(key, rows[..i], byZip, virtual) && key(rows[i]).None?
    ensures IsGrouping(key, rows[..i + 1], byZip, virtual + [rows[i]])
  {
    RoutedSnoc(key, rows, i, None);
    forall z ensures Routed(key, rows[..i + 1], Some(z)) == Routed(key, rows[..i], Some(z)) {
      RoutedSnoc(key, rows, i, Some(z));
    }
  }

  lemma FileIntoBucket(key: Row -> Option<string>, rows: seq<Row>, i: nat, byZip: map<string, seq<Row>>, virtual: seq<Row>)
    requires i < |rows| && IsGrouping(key, rows[..i], byZip, virtual) && key(rows[i]).Some?
    ensures var z := key(rows[i]).value;
      IsGrouping(key, rows[..i + 1], byZip[z := (if z in byZip then byZip[z] else []) + [rows[i]]], virtual)
  {
    var z0 := key(rows[i]).value;
    var m := byZip[z0 := (if z0 in byZip then byZip[z0] else []) + [rows[i]]];
    RoutedSnoc(key, rows, i, None);
    forall z ensures (z in m <==> Routed(key, rows[..i + 1], Some(z)) != []) && (z in m ==> m[z] == Routed(key, rows[..i + 1], Some(z))) {
      BucketAfterFiling(key, rows, i, byZip, virtual, z);
    }
  }

  /** The bucket of `z` after filing row `i`. */
  lemma BucketAfterFiling(key: Row -> Option<string>, rows: seq<Row>, i: nat, byZip: map<string, seq<Row>>, virtual: seq<Row>, z: string)
    requires i < |rows| && IsGrouping(key, rows[..i], byZip, virtual) && key(rows[i]).Some?
    ensures var z0 := key(rows[i]).value;
      var m := byZip[z0 := (if z0 in byZip then byZip[z0] else []) + [rows[i]]];
      (z in m <==> Routed(key, rows[..i + 1], Some(z)) != []) && (z in m ==> m[z] == Routed(key, rows[..i + 1], Some(z)))
  {
    RoutedSnoc(key, rows, i, Some(z));
    var before := Routed(key, rows[..i], Some(z));
    assert z in byZip ==> byZip[z] == before;
    assert z !in byZip ==> before == [];
  }

  /** A grouping is determined by its rows. */
  lemma GroupingUnique(key: Row -> Option<string>, rows: seq<Row>, byZip: map<string, seq<Row>>, virtual: seq<Row>,
                       byZip': map<string, seq<Row>>, virtual': seq<Row>)
    requires IsGrouping(key, rows, byZip, virtual) && IsGrouping(key, rows, byZip', virtual')
    ensures byZip == byZip' && virtual == virtual'
  {
    assert byZip.Keys == byZip'.Keys;
  }

  /** Every row sequence has a grouping. */
  lemma {:induction false} GroupOf(key: Row -> Option<string>, rows: seq<Row>) returns (byZip: map<string, seq<Row>>, virtual: seq<Row>)
    ensures IsGrouping(key, rows, byZip, virtual)
  {
    if rows == [] {
      byZip, virtual := map[], [];
    } else {
      var n := |rows| - 1;
      byZip, virtual := GroupOf(key, rows[..n]);
      GroupingSnoc(key, rows, n, byZip, virtual);
      assert rows[..n + 1] == rows;
      if key(rows[n]).Some? {
        var z := key(rows[n]).value;
        byZip := byZip[z := (if z in byZip then byZip[z] else []) + [rows[n]]];
      } else {
        virtual := virtual + [rows[n]];
      }
    }
  }

  /** The bucket sizes plus the number of virtual rows add up to the number of rows. */
  lemma {:induction false} GroupingSizes(key: Row -> Option<string>, rows: seq<Row>, byZip: map<string, seq<Row>>, virtual: seq<Row>)
    requires IsGrouping(key, rows, byZip, virtual)
    ensures SumSizes(byZip) + |virtual| == |rows|
    decreases |rows|
  {
    if rows == [] {
      assert byZip == map[];
    } else {
      var n := |rows| - 1;
      var init, last := rows[..n], rows[n];
      var m, v := GroupOf(key, init);
      GroupingSizes(key, init, m, v);
      GroupingSnoc(key, rows, n, m, v);
      assert rows[..n + 1] == rows;
      if key(last).Some? {
        var z := key(last).value;
        var m' := m[z := (if z in m then m[z] else []) + [last]];
        GroupingUnique(key, rows, byZip, virtual, m', v);
        SumSizesUpdate(m, z, m'[z]);
      } else {
        GroupingUnique(key, rows, byZip, virtual, m, v + [last]);
      }
    }
  }
}
