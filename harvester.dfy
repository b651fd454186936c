/**
 * Result Harvester: `_extract_all_rows` runs the extractor on every row in document
 * order, keeps what succeeds and skips the rows whose extraction raises.
 */
module Harvester {
  import opened Wrappers
  import opened Models
  import opened FieldExtractor

  /** The outcome of extracting each row: its record, or `None` when the extraction raises. */
  function Outcomes(rows: seq<RowView>): (r: seq<Option<Opportunity>>)
    ensures |r| == |rows|
    ensures forall i | 0 <= i < |rows| :: r[i] == RowRecord(rows[i])
  {
    seq(|rows|, i requires 0 <= i < |rows| => RowRecord(rows[i]))
  }

  /** The records of the successful outcomes, in order. */
  function Successes(outcomes: seq<Option<Opportunity>>): (r: seq<Opportunity>)
    ensures |r| <= |outcomes|
  {
    if outcomes == [] then []
    else
      Successes(outcomes[..|outcomes| - 1])
      + match outcomes[|outcomes| - 1] { case Some(o) => [o] case None => [] }
  }

  /** The loop of `_extract_all_rows`, with the try/except that skips a failing row. */
  method ExtractAllRows(rows: seq<RowView>) returns (opportunities: seq<Opportunity>)
    ensures opportunities == Successes(Outcomes(rows))
  {
    ghost var outcomes := Outcomes(rows);
    opportunities := [];
    for i := 0 to |rows|
      invariant opportunities == Successes(outcomes[..i])
    {
      var opp := ExtractRow(rows[i]);
      assert opp == outcomes[i];
      assert outcomes[..i + 1][..i] == outcomes[..i];
      assert Successes(outcomes[..i + 1])
          == Successes(outcomes[..i]) + match opp { case Some(o) => [o] case None => [] };
      if opp.Some? {
        opportunities := opportunities + [opp.value];
      }
    }
    assert outcomes[..|rows|] == outcomes;
  }

  /** Records of earlier rows come first, and each stretch of rows contributes on its own. */
  lemma {:induction false} SuccessesAppend(a: seq<Option<Opportunity>>, b: seq<Option<Opportunity>>)
    ensures Successes(a + b) == Successes(a) + Successes(b)
    decreases |b|
  {
    if b == [] {
      assert a + b == a;
    } else {
      var c := b[..|b| - 1];
      assert (a + b)[..|a + b| - 1] == a + c;
      assert (a + b)[|a + b| - 1] == b[|b| - 1];
      SuccessesAppend(a, c);
    }
  }

  /** A row whose extraction raises adds nothing and does not disturb the rows around it. */
  lemma SkipsFailedRow(a: seq<Option<Opportunity>>, b: seq<Option<Opportunity>>)
    ensures Successes(a + [None] + b) == Successes(a) + Successes(b)
  {
    var one: seq<Option<Opportunity>> := [None];
    assert Successes(one) == [] by { assert one[..0] == []; }
    SuccessesAppend(a, one);
    SuccessesAppend(a + one, b);
  }

  /** Every row yields a record exactly when no extraction raises. */
  lemma {:induction false} SuccessesComplete(outcomes: seq<Option<Opportunity>>)
    ensures |Successes(outcomes)| == |outcomes| <==> forall i | 0 <= i < |outcomes| :: outcomes[i].Some?
  {
    if outcomes != [] {
      var init := outcomes[..|outcomes| - 1];
      SuccessesComplete(init);
      assert forall i | 0 <= i < |init| :: init[i] == outcomes[i];
    }
  }

  /** A row is lost exactly when one of the reads of `_extract_row` fails on it. */
  lemma OutcomeFails(rows: seq<RowView>, i: int)
    requires 0 <= i < |rows|
    ensures Outcomes(rows)[i].None? <==> !Extractable(rows[i])
  {
  }
}
