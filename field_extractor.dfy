/**
 * Field Extractor: turns what the browser reads from one result row into an
 * `Opportunity`, with the fallbacks `_extract_row` applies to missing parts.
 */
module FieldExtractor {
  import opened Wrappers
  import opened Text
  import opened Config
  import opened Models

  // ---------------------------------------------------------------------------
  // Opportunity ID: the letters and digits that follow the first "/opportunity/" in the link
  // ---------------------------------------------------------------------------

  /** The literal part of the pattern. */
  const OpportunityPath: string := "/opportunity/"

  /** The pattern matches at `i`: the literal path followed by at least one letter or digit. */
  predicate IdAt(s: string, i: int)
  {
    OccursAt(s, OpportunityPath, i) && i + |OpportunityPath| < |s| && IsAlnum(s[i + |OpportunityPath|])
  }

  /** `id` is the whole run of letters and digits that starts right after the path at `i`. */
  predicate CapturedAt(s: string, i: int, id: string)
  {
    var j := i + |OpportunityPath|;
    0 <= j && j + |id| <= |s| && s[j..j + |id|] == id
    && (j + |id| == |s| || !IsAlnum(s[j + |id|]))
  }

  /** End of the run of letters and digits that starts at `j` (the greedy `+`). */
  function AlnumRunEnd(s: string, j: nat): (k: nat)
    requires j <= |s|
    ensures j <= k <= |s|
    ensures forall m | j <= m < k :: IsAlnum(s[m])
    ensures k == |s| || !IsAlnum(s[k])
    decreases |s| - j
  {
    if j < |s| && IsAlnum(s[j]) then AlnumRunEnd(s, j + 1) else j
  }

  /** The leftmost match position at or after `i`. */
  function FirstIdFrom(s: string, i: nat): (r: Option<nat>)
    requires i <= |s|
    ensures r.Some? ==> i <= r.value && IdAt(s, r.value) && forall j | i <= j < r.value :: !IdAt(s, j)
    ensures r.None? ==> forall j | i <= j :: !IdAt(s, j)
    decreases |s| - i
  {
    if i == |s| then None
    else if IdAt(s, i) then Some(i)
    else FirstIdFrom(s, i + 1)
  }

  /**
   * `_extract_id_from_href`: nothing for a missing or empty href; otherwise the
   * alphanumeric run after the leftmost "/opportunity/" that has one.
   */
  function ExtractIdFromHref(href: Option<string>): (r: Option<string>)
    ensures href.None? || href == Some("") ==> r.None?
    ensures r.None? <==> href.None? || forall i :: !IdAt(href.value, i)
    ensures r.Some? ==>
      && href.Some?
      && |r.value| > 0
      && (forall k | 0 <= k < |r.value| :: IsAlnum(r.value[k]))
      && exists i :: IdAt(href.value, i) && (forall j | 0 <= j < i :: !IdAt(href.value, j)) && CapturedAt(href.value, i, r.value)
  {
    if href.None? || href.value == "" then None
    else
      var s := href.value;
      var r := IdIn(s);
      assert r.Some? ==> CapturedAt(s, FirstIdFrom(s, 0).value, r.value);
      r
  }

  /** The capture of the leftmost match in `s`, if any. */
  function IdIn(s: string): Option<string>
  {
    match FirstIdFrom(s, 0)
    case None => None
    case Some(i) =>
      var j := i + |OpportunityPath|;
      Some(s[j..AlnumRunEnd(s, j)])
  }

  // ---------------------------------------------------------------------------
  // URL resolution: a link that starts with a slash is made absolute against the site origin
  // ---------------------------------------------------------------------------

  predicate IsRootRelative(href: Option<string>)
  {
    href.Some? && href.value != "" && href.value[0] == '/'
  }

  /** A root-relative link gets the site origin in front; anything else, `None` included, is kept. */
  function ResolveHref(href: Option<string>): (r: Option<string>)
    ensures IsRootRelative(href) ==> r == Some(BaseUrl + href.value)
    ensures !IsRootRelative(href) ==> r == href
    ensures !IsRootRelative(r)
  {
    if IsRootRelative(href) then Some(BaseUrl + href.value) else href
  }

  /** The only slashes in the origin are the two of "https://", and neither starts the path literal. */
  lemma NoIdInOrigin(x: string, j: int)
    requires 0 <= j < |BaseUrl|
    ensures !IdAt(BaseUrl + x, j)
  {
    var s := BaseUrl + x;
    var p := OpportunityPath;
    if j + |p| <= |s| {
      assert s[j..j + |p|][0] == BaseUrl[j];
      if j + 1 < |BaseUrl| {
        assert s[j..j + |p|][1] == BaseUrl[j + 1];
      }
    }
  }

  lemma IdAtShifted(x: string, j: int)
    requires 0 <= j
    ensures IdAt(BaseUrl + x, |BaseUrl| + j) <==> IdAt(x, j)
  {
    var s := BaseUrl + x;
    var n := |BaseUrl|;
    var p := |OpportunityPath|;
    if j + p <= |x| {
      assert s[n + j..n + j + p] == x[j..j + p];
    }
    if j + p < |x| {
      assert s[n + j + p] == x[j + p];
    }
  }

  lemma {:induction false} FirstIdFromShifted(x: string, j: nat)
    requires j <= |x|
    ensures FirstIdFrom(BaseUrl + x, |BaseUrl| + j)
         == (match FirstIdFrom(x, j) case None => None case Some(i) => Some(|BaseUrl| + i))
    decreases |x| - j
  {
    IdAtShifted(x, j);
    if j < |x| {
      FirstIdFromShifted(x, j + 1);
    }
  }

  lemma {:induction false} FirstIdSkipsOrigin(x: string, j: nat)
    requires j <= |BaseUrl|
    ensures FirstIdFrom(BaseUrl + x, j) == FirstIdFrom(BaseUrl + x, |BaseUrl|)
    decreases |BaseUrl| - j
  {
    if j < |BaseUrl| {
      NoIdInOrigin(x, j);
      FirstIdSkipsOrigin(x, j + 1);
    }
  }

  lemma {:induction false} RunEndShifted(x: string, j: nat)
    requires j <= |x|
    ensures AlnumRunEnd(BaseUrl + x, |BaseUrl| + j) == |BaseUrl| + AlnumRunEnd(x, j)
    decreases |x| - j
  {
    if j < |x| {
      assert (BaseUrl + x)[|BaseUrl| + j] == x[j];
      RunEndShifted(x, j + 1);
    }
  }

  /** The run of letters and digits at `j` in `x` is the run at the shifted position once the origin is prepended. */
  lemma RunShifted(x: string, j: nat)
    requires j <= |x|
    ensures (BaseUrl + x)[|BaseUrl| + j..AlnumRunEnd(BaseUrl + x, |BaseUrl| + j)] == x[j..AlnumRunEnd(x, j)]
  {
    RunEndShifted(x, j);
    var e := AlnumRunEnd(x, j);
    assert (BaseUrl + x)[|BaseUrl| + j..|BaseUrl| + e] == x[j..e];
  }

  lemma PrefixedKeepsId(x: string)
    ensures IdIn(BaseUrl + x) == IdIn(x)
  {
    FirstIdSkipsOrigin(x, 0);
    FirstIdFromShifted(x, 0);
    var f := FirstIdFrom(x, 0);
    if f.Some? {
      RunShifted(x, f.value + |OpportunityPath|);
    }
  }

  /** Taking the ID from the raw href, as the extractor does, gives the same ID as taking it from the resolved URL. */
  lemma ResolvedHrefKeepsId(href: Option<string>)
    ensures ExtractIdFromHref(ResolveHref(href)) == ExtractIdFromHref(href)
  {
    if IsRootRelative(href) {
      PrefixedKeepsId(href.value);
      assert ResolveHref(href) == Some(BaseUrl + href.value);
    }
  }

  // ---------------------------------------------------------------------------
  // Opportunity type: first marker of OPP_TYPE_CLASSES found in the link's class
  // ---------------------------------------------------------------------------

  /** The link's class attribute, with a missing attribute read as "". */
  function ClassString(linkClass: Option<string>): string
  {
    linkClass.GetOr("")
  }

  /** Index of the first marker among the first `n` table entries that occurs in `cls`. */
  function FirstMarker(cls: string, n: nat): (r: Option<nat>)
    requires n <= |OppTypeClasses|
    ensures r.Some? ==>
      && r.value < n
      && Contains(cls, OppTypeClasses[r.value].0)
      && forall j | 0 <= j < r.value :: !Contains(cls, OppTypeClasses[j].0)
    ensures r.None? ==> forall j | 0 <= j < n :: !Contains(cls, OppTypeClasses[j].0)
  {
    if n == 0 then None
    else match FirstMarker(cls, n - 1)
      case Some(i) => Some(i)
      case None => if Contains(cls, OppTypeClasses[n - 1].0) then Some(n - 1) else None
  }

  /**
   * The type a link's class string denotes: the value of the first marker in table
   * order that is a substring of it, or the default; always one of the four types.
   */
  function TypeFor(cls: string): (r: string)
    ensures r in OppTypes
    ensures (forall j | 0 <= j < |OppTypeClasses| :: !Contains(cls, OppTypeClasses[j].0)) ==> r == DefaultOppType
    ensures forall i | 0 <= i < |OppTypeClasses| ::
      Contains(cls, OppTypeClasses[i].0) && (forall j | 0 <= j < i :: !Contains(cls, OppTypeClasses[j].0))
      ==> r == OppTypeClasses[i].1
  {
    match FirstMarker(cls, |OppTypeClasses|)
    case Some(i) => OppTypeClasses[i].1
    case None => DefaultOppType
  }

  /** The first-match loop of `_extract_row` over the marker table. */
  method ClassifyType(linkClass: Option<string>) returns (oppType: string)
    ensures oppType == TypeFor(ClassString(linkClass))
  {
    var cls := if linkClass.None? || linkClass.value == "" then "" else linkClass.value;
    oppType := DefaultOppType;
    for i := 0 to |OppTypeClasses|
      invariant forall j | 0 <= j < i :: !Contains(cls, OppTypeClasses[j].0)
      invariant oppType == DefaultOppType
    {
      var (marker, typeName) := OppTypeClasses[i];
      if Contains(cls, marker) {
        oppType := typeName;
        break;
      }
    }
  }

  // ---------------------------------------------------------------------------
  // Date with the "Ongoing" fallback
  // ---------------------------------------------------------------------------

  /** Python falsiness of an optional string: `None` or empty. */
  predicate IsBlank(text: Option<string>)
  {
    text.None? || text.value == ""
  }

  /**
   * A blank date becomes "Ongoing" exactly when the raw text of the time cell contains
   * "ongoing" in any letter case; any other date is kept as it was.
   */
  function DateWithFallback(dateText: Option<string>, rawCellText: string): (r: Option<string>)
    ensures !IsBlank(dateText) ==> r == dateText
    ensures IsBlank(dateText) ==> (r == Some("Ongoing") <==> ContainsIgnoringCase(rawCellText, "ongoing"))
    ensures r != Some("Ongoing") ==> r == dateText
  {
    assert IsPlainLowerWord("ongoing");
    LowerStripContains(rawCellText, "ongoing");
    if IsBlank(dateText) && Contains(ToLower(Strip(rawCellText)), "ongoing") then Some("Ongoing") else dateText
  }

  // ---------------------------------------------------------------------------
  // One row
  // ---------------------------------------------------------------------------

  /** A DOM element as the extractor reads it: its inner text and its attributes. */
  datatype Element = Element(innerText: string, attributes: map<string, string>)

  /** An attribute of an element: `None` when the element lacks it. */
  function Attribute(e: Element, name: string): Option<string>
  {
    if name in e.attributes then Some(e.attributes[name]) else None
  }

  /**
   * What each locator of `_extract_row` matches in one row, in document order: the
   * links of the Opportunity and Organization cells, the Where, Time and Distance
   * cells, and the date, time and duration spans inside the Time cell.
   */
  datatype RowView = RowView(
    opportunityLinks: seq<Element>,
    organizationLinks: seq<Element>,
    whereCells: seq<Element>,
    timeCells: seq<Element>,
    dateRows: seq<Element>,
    timeRows: seq<Element>,
    durations: seq<Element>,
    distanceCells: seq<Element>)

  /**
   * Every read of `_extract_row` succeeds: `.first` needs at least one link; a read on
   * a cell needs exactly one match (none times out, several break strict mode); an
   * optional span is read only when present and then must be unique.
   */
  predicate Extractable(v: RowView)
  {
    && |v.opportunityLinks| > 0
    && |v.organizationLinks| > 0
    && |v.whereCells| == 1
    && |v.timeCells| == 1
    && |v.dateRows| <= 1
    && |v.timeRows| <= 1
    && |v.durations| <= 1
    && |v.distanceCells| == 1
  }

  /** An optional span's trimmed text, read only when the span is present. */
  function OptionalText(els: seq<Element>): (r: Option<string>)
    ensures r.None? <==> els == []
    ensures r.Some? ==> IsTrimmed(r.value)
  {
    if els == [] then None else Some(Strip(els[0].innerText))
  }

  /** The record `_extract_row` builds for a row, or `None` when one of its reads raises. */
  function RowRecord(v: RowView): (r: Option<Opportunity>)
    ensures r.Some? <==> Extractable(v)
  {
    if !Extractable(v) then None
    else
      var link := v.opportunityLinks[0];
      var href := Attribute(link, "href");
      var orgLink := v.organizationLinks[0];
      var timeCell := v.timeCells[0];
      Some(Opportunity(
        title := Strip(link.innerText),
        organization := Strip(orgLink.innerText),
        location := Strip(v.whereCells[0].innerText),
        date := DateWithFallback(OptionalText(v.dateRows), timeCell.innerText),
        time := OptionalText(v.timeRows),
        duration := OptionalText(v.durations),
        datetimeIso := Attribute(timeCell, "data-order"),
        distance := Some(Strip(v.distanceCells[0].innerText)),
        opportunityType := TypeFor(ClassString(Attribute(link, "class"))),
        opportunityUrl := ResolveHref(href),
        opportunityId := ExtractIdFromHref(href),
        organizationUrl := ResolveHref(Attribute(orgLink, "href"))))
  }

  /**
   * What a successful extraction promises: every text field is trimmed, the type is one
   * of the four, no URL is left root-relative, the ID comes from the raw href, the
   * timestamp is the `data-order` attribute verbatim, and a row without a date span
   * is dated "Ongoing" exactly when its time cell mentions "ongoing" in any case.
   */
  lemma ExtractedRecordIsNormalised(v: RowView)
    requires Extractable(v)
    ensures var o := RowRecord(v).value;
      && IsTrimmed(o.title)
      && IsTrimmed(o.organization)
      && IsTrimmed(o.location)
      && o.distance.Some? && IsTrimmed(o.distance.value)
      && (o.date.Some? ==> IsTrimmed(o.date.value))
      && (o.time.Some? ==> IsTrimmed(o.time.value))
      && (o.duration.Some? ==> IsTrimmed(o.duration.value))
      && o.opportunityType in OppTypes
      && !IsRootRelative(o.opportunityUrl)
      && !IsRootRelative(o.organizationUrl)
      && o.opportunityUrl == ResolveHref(Attribute(v.opportunityLinks[0], "href"))
      && o.organizationUrl == ResolveHref(Attribute(v.organizationLinks[0], "href"))
      && o.opportunityType == TypeFor(ClassString(Attribute(v.opportunityLinks[0], "class")))
      && o.opportunityId == ExtractIdFromHref(Attribute(v.opportunityLinks[0], "href"))
      && o.datetimeIso == Attribute(v.timeCells[0], "data-order")
      && (v.dateRows == [] ==> (o.date == Some("Ongoing") <==> ContainsIgnoringCase(v.timeCells[0].innerText, "ongoing")))
  {
    var o := RowRecord(v).value;
    var dateText := OptionalText(v.dateRows);
    assert o.date == DateWithFallback(dateText, v.timeCells[0].innerText);
    FallbackKeepsTrimmed(dateText, v.timeCells[0].innerText);
  }

  /** The date fallback never leaves whitespace at the ends of a trimmed date. */
  lemma FallbackKeepsTrimmed(dateText: Option<string>, rawCellText: string)
    requires dateText.Some? ==> IsTrimmed(dateText.value)
    ensures var r := DateWithFallback(dateText, rawCellText); r.Some? ==> IsTrimmed(r.value)
  {
    assert IsTrimmed("Ongoing");
  }

  /** A row whose opportunity link has no text still yields a record, with an empty title. */
  lemma EmptyTitleIsKept()
    ensures exists v :: Extractable(v) && RowRecord(v).value.title == ""
  {
    var blank := Element("", map[]);
    var v := RowView([blank], [blank], [blank], [blank], [], [], [], [blank]);
    assert Extractable(v);
    RecordTitle(v);
    assert Strip("") == "";
  }

  /** The title is the opportunity link's text, trimmed, and nothing more is asked of it. */
  lemma RecordTitle(v: RowView)
    requires Extractable(v)
    ensures RowRecord(v).value.title == Strip(v.opportunityLinks[0].innerText)
  {
  }

  /** `_extract_row`: the reads in source order, the type loop and the conditional date overwrite. */
  method ExtractRow(v: RowView) returns (r: Option<Opportunity>)
    ensures r == RowRecord(v)
  {
    if !Extractable(v) {
      return None;
    }
    var link := v.opportunityLinks[0];
    var title := link.innerText;
    var href := Attribute(link, "href");
    var oppUrl := if href.Some? && href.value != "" && href.value[0] == '/' then Some(BaseUrl + href.value) else href;
    var oppId := ExtractIdFromHref(href);
    var oppType := ClassifyType(Attribute(link, "class"));

    var orgLink := v.organizationLinks[0];
    var organization := orgLink.innerText;
    var orgHref := Attribute(orgLink, "href");
    var orgUrl := if orgHref.Some? && orgHref.value != "" && orgHref.value[0] == '/' then Some(BaseUrl + orgHref.value) else orgHref;

    var location := Strip(v.whereCells[0].innerText);

    var timeCell := v.timeCells[0];
    var datetimeIso := Attribute(timeCell, "data-order");
    var dateStr := OptionalText(v.dateRows);
    var timeStr := OptionalText(v.timeRows);
    var duration := OptionalText(v.durations);

    if dateStr.None? || dateStr.value == "" {
      var rawTime := Strip(timeCell.innerText);
      if Contains(ToLower(rawTime), "ongoing") {
        dateStr := Some("Ongoing");
      }
    }
    assert dateStr == DateWithFallback(OptionalText(v.dateRows), timeCell.innerText);

    var distance := Strip(v.distanceCells[0].innerText);

    r := Some(Opportunity(
      title := Strip(title),
      organization := Strip(organization),
      location := location,
      date := dateStr,
      time := timeStr,
      duration := duration,
      datetimeIso := datetimeIso,
      distance := Some(distance),
      opportunityType := oppType,
      opportunityUrl := oppUrl,
      opportunityId := oppId,
      organizationUrl := orgUrl));
  }
}
