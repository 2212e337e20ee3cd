/**
 The dashboard (main.py, lines 319-369): counts over the ledger, the response
 rate, and the refresh that copies the tracking service's knowledge into the
 ledger's "opened" field.
 */
module Analytics {
  import opened Ledger
  import Tracking

  /** The number of records in the given status. */
  function CountStatus(ledger: seq<Record>, status: Status): (r: nat)
    ensures r <= |ledger|
    decreases |ledger|
  {
    if ledger == [] then 0
    else (if ledger[0].status == status then 1 else 0) + CountStatus(ledger[1..], status)
  }

  /** The number of records marked opened, whatever their status. */
  function CountOpened(ledger: seq<Record>): (r: nat)
    ensures r <= |ledger|
    decreases |ledger|
  {
    if ledger == [] then 0
    else (if ledger[0].openState == Yes then 1 else 0) + CountOpened(ledger[1..])
  }

  /** The number of Sent records marked opened. */
  function CountOpenedSent(ledger: seq<Record>): (r: nat)
    ensures r <= |ledger|
    decreases |ledger|
  {
    if ledger == [] then 0
    else (if ledger[0].status == Sent && ledger[0].openState == Yes then 1 else 0) + CountOpenedSent(ledger[1..])
  }

  /** Every record is in exactly one of the three statuses. */
  lemma {:induction false} StatusPartition(ledger: seq<Record>)
    ensures CountStatus(ledger, Scheduled) + CountStatus(ledger, Sent) + CountStatus(ledger, Failed) == |ledger|
    decreases |ledger|
  {
    if ledger != [] {
      StatusPartition(ledger[1..]);
    }
  }

  /** Opened Sent records are at most the Sent records and at most the opened records. */
  lemma {:induction false} OpenedSentBounds(ledger: seq<Record>)
    ensures CountOpenedSent(ledger) <= CountStatus(ledger, Sent)
    ensures CountOpenedSent(ledger) <= CountOpened(ledger)
    decreases |ledger|
  {
    if ledger != [] {
      OpenedSentBounds(ledger[1..]);
    }
  }

  /** `part / whole * 100`, and 0 when `whole` is 0. */
  function Percent(part: nat, whole: nat): (r: real)
    ensures whole == 0 ==> r == 0.0
    ensures whole > 0 ==> r * (whole as real) == (part as real) * 100.0
    ensures r >= 0.0
    ensures part <= whole ==> r <= 100.0
  {
    if whole > 0 then (part as real) / (whole as real) * 100.0 else 0.0
  }

  /**
   The rate as written (main.py:328-336): opened records of ANY status over
   Sent records. Zero when nothing was sent, whatever was opened.
   */
  function ResponseRateAsWritten(ledger: seq<Record>): (r: real)
    ensures CountStatus(ledger, Sent) == 0 ==> r == 0.0
    ensures CountStatus(ledger, Sent) > 0 ==>
              r * (CountStatus(ledger, Sent) as real) == (CountOpened(ledger) as real) * 100.0
  {
    Percent(CountOpened(ledger), CountStatus(ledger, Sent))
  }

  /**
   A rerun leaves two records for one address, one Sent and one Failed; once
   the address is known to the tracker both are marked opened, and the rate as
   written reads 200%.
   */
  lemma RateAsWrittenExceedsHundred()
    ensures var ledger := [Record("Acme", "a@x.com", Sent, Delivered, Yes),
                           Record("Acme", "a@x.com", Failed, Bounced, Yes)];
            ResponseRateAsWritten(ledger) == 200.0
  {
    var ledger := [Record("Acme", "a@x.com", Sent, Delivered, Yes),
                   Record("Acme", "a@x.com", Failed, Bounced, Yes)];
    assert ledger[1..] == [Record("Acme", "a@x.com", Failed, Bounced, Yes)];
    assert ledger[1..][1..] == [];
    assert CountStatus(ledger, Sent) == 1;
    assert CountOpened(ledger) == 2;
  }

  /** The response rate as intended: opened Sent records over Sent records. */
  function ResponseRate(ledger: seq<Record>): (r: real)
    ensures 0.0 <= r <= 100.0
    ensures CountStatus(ledger, Sent) == 0 ==> r == 0.0
    ensures CountStatus(ledger, Sent) > 0 ==>
              r * (CountStatus(ledger, Sent) as real) == (CountOpenedSent(ledger) as real) * 100.0
  {
    OpenedSentBounds(ledger);
    Percent(CountOpenedSent(ledger), CountStatus(ledger, Sent))
  }

  /** Where every opened record is a Sent one, the two rates agree. */
  lemma RatesAgreeWhenOnlySentOpened(ledger: seq<Record>)
    requires forall i :: 0 <= i < |ledger| && ledger[i].openState == Yes ==> ledger[i].status == Sent
    ensures ResponseRate(ledger) == ResponseRateAsWritten(ledger)
  {
    OpenedOnlySent(ledger);
  }

  lemma {:induction false} OpenedOnlySent(ledger: seq<Record>)
    requires forall i :: 0 <= i < |ledger| && ledger[i].openState == Yes ==> ledger[i].status == Sent
    ensures CountOpenedSent(ledger) == CountOpened(ledger)
    decreases |ledger|
  {
    if ledger != [] {
      assert forall i :: 0 <= i < |ledger[1..]| ==> ledger[1..][i] == ledger[i + 1];
      OpenedOnlySent(ledger[1..]);
    }
  }

  /** The metrics table. */
  datatype Summary = Summary(total: nat, sent: nat, failed: nat, pending: int, openCount: nat, rate: real)

  /**
   The metrics table as written (main.py:323-336): total, Sent, Failed,
   pending as `total - sent - failed` (which is the number of records still
   Scheduled), opened records of any status, and those as a percentage of the
   Sent records.
   */
  function Summarize(ledger: seq<Record>): (s: Summary)
    ensures s.total == |ledger|
    ensures s.sent == CountStatus(ledger, Sent) && s.failed == CountStatus(ledger, Failed)
    ensures s.sent + s.failed + s.pending == s.total
    ensures s.pending == CountStatus(ledger, Scheduled)
    ensures s.openCount == CountOpened(ledger)
    ensures s.rate == Percent(s.openCount, s.sent)
  {
    StatusPartition(ledger);
    var sent := CountStatus(ledger, Sent);
    var failed := CountStatus(ledger, Failed);
    Summary(|ledger|, sent, failed, |ledger| - sent - failed, CountOpened(ledger), ResponseRateAsWritten(ledger))
  }

  /** The metrics table with the intended rate, which never leaves 0-100%. */
  function SummarizeIntended(ledger: seq<Record>): (s: Summary)
    ensures s.total == |ledger|
    ensures s.sent == CountStatus(ledger, Sent) && s.failed == CountStatus(ledger, Failed)
    ensures s.sent + s.failed + s.pending == s.total
    ensures s.pending == CountStatus(ledger, Scheduled)
    ensures s.openCount == CountOpened(ledger)
    ensures s.rate == Percent(CountOpenedSent(ledger), s.sent)
    ensures 0.0 <= s.rate <= 100.0
  {
    StatusPartition(ledger);
    var sent := CountStatus(ledger, Sent);
    var failed := CountStatus(ledger, Failed);
    Summary(|ledger|, sent, failed, |ledger| - sent - failed, CountOpened(ledger), ResponseRate(ledger))
  }

  /** The two tables differ only when a record that is not Sent is marked opened. */
  lemma SummariesAgree(ledger: seq<Record>)
    requires forall i :: 0 <= i < |ledger| && ledger[i].openState == Yes ==> ledger[i].status == Sent
    ensures Summarize(ledger) == SummarizeIntended(ledger)
  {
    RatesAgreeWhenOnlySentOpened(ledger);
  }

  /**
   The dashboard refresh: every record's opened field becomes Yes when its
   address is a key of the tracker's map and No otherwise. Nothing else in the
   ledger changes.
   */
  function Merge(ledger: seq<Record>, snapshot: Tracking.Store): (r: seq<Record>)
    ensures |r| == |ledger|
    ensures forall i :: 0 <= i < |ledger| ==> (r[i].openState == Yes <==> ledger[i].email in snapshot)
    ensures forall i :: 0 <= i < |ledger| ==>
              && r[i].company == ledger[i].company && r[i].email == ledger[i].email
              && r[i].status == ledger[i].status && r[i].delivery == ledger[i].delivery
    decreases |ledger|
  {
    if ledger == [] then []
    else
      var first := ledger[0].(openState := if ledger[0].email in snapshot then Yes else No);
      [first] + Merge(ledger[1..], snapshot)
  }

  /** The merged ledger depends on the records and on the set of tracked addresses only. */
  lemma MergeByKeys(ledger: seq<Record>, a: Tracking.Store, b: Tracking.Store)
    requires a.Keys == b.Keys
    ensures Merge(ledger, a) == Merge(ledger, b)
  {
    var x, y := Merge(ledger, a), Merge(ledger, b);
    forall i | 0 <= i < |ledger|
      ensures x[i] == y[i]
    {
      assert x[i].openState == y[i].openState;
    }
  }

  /** Refreshing twice from the same map is refreshing once. */
  lemma MergeIdempotent(ledger: seq<Record>, snapshot: Tracking.Store)
    ensures Merge(Merge(ledger, snapshot), snapshot) == Merge(ledger, snapshot)
  {
    var once, twice := Merge(ledger, snapshot), Merge(Merge(ledger, snapshot), snapshot);
    forall i | 0 <= i < |ledger|
      ensures twice[i] == once[i]
    {
      assert twice[i].openState == once[i].openState;
    }
  }

  /**
   A reset of the tracker keeps its keys, so a refresh after the reset marks
   exactly the same records opened as a refresh before it.
   */
  lemma MergeIgnoresReset(ledger: seq<Record>, store: Tracking.Store)
    ensures Merge(ledger, Tracking.Reset(store)) == Merge(ledger, store)
  {
    MergeByKeys(ledger, Tracking.Reset(store), store);
  }

  /** A refresh leaves the delivery counts alone. */
  lemma {:induction false} MergeKeepsStatusCounts(ledger: seq<Record>, snapshot: Tracking.Store, status: Status)
    ensures CountStatus(Merge(ledger, snapshot), status) == CountStatus(ledger, status)
    decreases |ledger|
  {
    if ledger != [] {
      var m := Merge(ledger, snapshot);
      assert m[1..] == Merge(ledger[1..], snapshot);
      MergeKeepsStatusCounts(ledger[1..], snapshot, status);
    }
  }
}
