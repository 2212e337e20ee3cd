/**
 The two send loops of main.py: "Send Emails" (lines 143-223), which first
 waits for the optional send time, and "Send with Throttling" (lines 248-316),
 which pauses after every row. Both walk the table in order; for each row they
 read `company_name` and `email`, personalise the message, append a Scheduled
 record to the ledger and settle it from the transport's outcome. The
 transport is the sequence `outcomes`, one per row.
 */
module Dispatch {
  import opened Wrappers
  import opened Ledger
  import opened Template
  import Schedule
  import Throttle

  /** The recipient table: its columns in order and its rows. */
  datatype Table = Table(columns: seq<string>, rows: seq<Row>)

  /** `row['company_name']` and `row['email']` can both be read without a KeyError. */
  predicate Addressable(row: Row)
  {
    "company_name" in row && "email" in row
  }

  /** The number of rows handled before the first one whose lookup raises. */
  function Reachable(rows: seq<Row>): (n: nat)
    ensures n <= |rows|
    ensures forall k :: 0 <= k < n ==> Addressable(rows[k])
    ensures n < |rows| ==> !Addressable(rows[n])
    decreases |rows|
  {
    if rows == [] || !Addressable(rows[0]) then 0 else 1 + Reachable(rows[1..])
  }

  /** Without a Mailjet client (no API key or secret) the send raises `NameError`. */
  function Attempt(o: Outcome, clientReady: bool): (r: Outcome)
    ensures Accepted(r) <==> clientReady && Accepted(o)
    ensures !clientReady ==> r == Raised
  {
    if clientReady then o else Raised
  }

  /** The record a handled row leaves in the ledger. */
  function Settled(row: Row, o: Outcome): (r: Record)
    requires Addressable(row)
    ensures r.company == row["company_name"] && r.email == row["email"]
    ensures (r.status == Sent <==> Accepted(o)) && (r.status == Failed <==> !Accepted(o))
    ensures (r.delivery == Delivered <==> Accepted(o)) && (r.delivery == Bounced <==> !Accepted(o))
    ensures r.openState == No
  {
    Record(row["company_name"], row["email"],
           if Accepted(o) then Sent else Failed,
           if Accepted(o) then Delivered else Bounced,
           No)
  }

  /**
   One row's bookkeeping: append its Scheduled record, then settle that record
   from the outcome. The effect is the same as appending the settled record.
   */
  function Book(ledger: seq<Record>, row: Row, o: Outcome): (r: seq<Record>)
    requires Addressable(row)
    ensures r == ledger + [Settled(row, o)]
  {
    var appended := ledger + [Pending(row["company_name"], row["email"])];
    assert appended[..|ledger|] == ledger;
    Settle(appended, o)
  }

  /** The message composed for a handled row. */
  function MessageFor(columns: seq<string>, row: Row, subject: string, body: string): (m: Message)
    requires Addressable(row)
    ensures m.recipient == row["email"]
  {
    Compose(columns, row, row["email"], subject, body)
  }

  /**
   The records the handled rows leave, in table order: one settled record per
   row up to the first row that cannot be addressed.
   */
  function Records(rows: seq<Row>, outcomes: seq<Outcome>, clientReady: bool): (r: seq<Record>)
    requires |outcomes| == |rows|
    ensures |r| == Reachable(rows)
    decreases |rows|
  {
    if rows == [] || !Addressable(rows[0]) then []
    else [Settled(rows[0], Attempt(outcomes[0], clientReady))] + Records(rows[1..], outcomes[1..], clientReady)
  }

  /** Record `k` is row `k`'s company and address, settled from the `k`-th outcome. */
  lemma {:induction false} RecordsAt(rows: seq<Row>, outcomes: seq<Outcome>, clientReady: bool)
    requires |outcomes| == |rows|
    ensures forall k :: 0 <= k < Reachable(rows) ==>
              Records(rows, outcomes, clientReady)[k] == Settled(rows[k], Attempt(outcomes[k], clientReady))
    decreases |rows|
  {
    if rows != [] && Addressable(rows[0]) {
      RecordsAt(rows[1..], outcomes[1..], clientReady);
      RunStep(0, rows, outcomes, clientReady, Records(rows, outcomes, clientReady));
    }
  }

  /**
   The ledger after a loop, the messages it composed (one per handled row,
   each passed to `mailjet.send.create`; with no client that call raises and
   nothing reaches the transport), and whether it ran to the end.
   */
  datatype Batch = Batch(ledger: seq<Record>, composed: seq<Message>, completed: bool)

  /**
   The per-row loop shared by both buttons. A row whose `company_name` or
   `email` is missing raises before its record is appended, and the outer
   handler abandons the remaining rows; every other row adds exactly one
   record, and no earlier record is touched.
   */
  function Run(ledger: seq<Record>, columns: seq<string>, rows: seq<Row>, outcomes: seq<Outcome>,
               subject: string, body: string, clientReady: bool): (b: Batch)
    requires |outcomes| == |rows|
    ensures b.completed <==> Reachable(rows) == |rows|
    ensures b.ledger == ledger + Records(rows, outcomes, clientReady)
    ensures |b.composed| == Reachable(rows)
    decreases |rows|
  {
    if rows == [] then Batch(ledger, [], true)
    else if !Addressable(rows[0]) then Batch(ledger, [], false)
    else
      var row := rows[0];
      var settled := Book(ledger, row, Attempt(outcomes[0], clientReady));
      var rest := Run(settled, columns, rows[1..], outcomes[1..], subject, body, clientReady);
      BookThenRecords(ledger, rows, outcomes, clientReady);
      Batch(rest.ledger, [MessageFor(columns, row, subject, body)] + rest.composed, rest.completed)
  }

  /** Booking the first row and then the records of the rest appends the records of all rows. */
  lemma BookThenRecords(ledger: seq<Record>, rows: seq<Row>, outcomes: seq<Outcome>, clientReady: bool)
    requires |outcomes| == |rows| && rows != [] && Addressable(rows[0])
    ensures Book(ledger, rows[0], Attempt(outcomes[0], clientReady)) + Records(rows[1..], outcomes[1..], clientReady)
         == ledger + Records(rows, outcomes, clientReady)
  {
    var first := Settled(rows[0], Attempt(outcomes[0], clientReady));
    var later := Records(rows[1..], outcomes[1..], clientReady);
    assert ledger + [first] + later == ledger + ([first] + later);
  }

  /**
   Row `k` of a loop leaves record `|ledger| + k`, and the records before
   the loop are untouched.
   */
  lemma RunRecords(ledger: seq<Record>, columns: seq<string>, rows: seq<Row>,
                   outcomes: seq<Outcome>, subject: string, body: string, clientReady: bool)
    requires |outcomes| == |rows|
    ensures var b := Run(ledger, columns, rows, outcomes, subject, body, clientReady);
            && |b.ledger| == |ledger| + Reachable(rows)
            && b.ledger[..|ledger|] == ledger
            && forall k :: 0 <= k < Reachable(rows) ==>
                 b.ledger[|ledger| + k] == Settled(rows[k], Attempt(outcomes[k], clientReady))
  {
    RecordsAt(rows, outcomes, clientReady);
    var b := Run(ledger, columns, rows, outcomes, subject, body, clientReady);
    assert b.ledger[..|ledger|] == ledger;
  }

  /** Message `k` of a loop is composed from row `k` and addressed to that row's email. */
  lemma {:induction false} RunMessages(ledger: seq<Record>, columns: seq<string>, rows: seq<Row>,
                                       outcomes: seq<Outcome>, subject: string, body: string, clientReady: bool)
    requires |outcomes| == |rows|
    ensures var b := Run(ledger, columns, rows, outcomes, subject, body, clientReady);
            forall k :: 0 <= k < Reachable(rows) ==> b.composed[k] == MessageFor(columns, rows[k], subject, body)
    decreases |rows|
  {
    if rows != [] && Addressable(rows[0]) {
      var b := Run(ledger, columns, rows, outcomes, subject, body, clientReady);
      var settled := Book(ledger, rows[0], Attempt(outcomes[0], clientReady));
      var rest := Run(settled, columns, rows[1..], outcomes[1..], subject, body, clientReady);
      RunMessages(settled, columns, rows[1..], outcomes[1..], subject, body, clientReady);
      MessagesStep(columns, rows, subject, body, rest.composed, b.composed);
    }
  }

  /**
   The induction step of `Run` for the ledger: the first row's record, then
   the records promised for the rows after the first, shifted by one.
   */
  lemma RunStep(start: nat, rows: seq<Row>, outcomes: seq<Outcome>, clientReady: bool, after: seq<Record>)
    requires |outcomes| == |rows| && |rows| > 0 && Addressable(rows[0])
    requires |after| == start + 1 + Reachable(rows[1..])
    requires after[start] == Settled(rows[0], Attempt(outcomes[0], clientReady))
    requires forall k :: 0 <= k < Reachable(rows[1..]) ==>
               after[start + 1 + k] == Settled(rows[1..][k], Attempt(outcomes[1..][k], clientReady))
    ensures forall k :: 0 <= k < Reachable(rows) ==>
              after[start + k] == Settled(rows[k], Attempt(outcomes[k], clientReady))
  {
    var n := Reachable(rows[1..]);
    assert Reachable(rows) == 1 + n;
    forall k | 1 <= k < 1 + n
      ensures after[start + k] == Settled(rows[k], Attempt(outcomes[k], clientReady))
    {
      ShiftedRow(rows, outcomes, k);
      assert after[start + 1 + (k - 1)] == Settled(rows[1..][k - 1], Attempt(outcomes[1..][k - 1], clientReady));
    }
  }

  /** Row `k` of the table is row `k - 1` of its tail, and likewise for the answers. */
  lemma ShiftedRow(rows: seq<Row>, outcomes: seq<Outcome>, k: int)
    requires |outcomes| == |rows| && 1 <= k < |rows|
    ensures rows[1..][k - 1] == rows[k] && outcomes[1..][k - 1] == outcomes[k]
  {
  }

  /** The induction step of `Run` for the messages. */
  lemma MessagesStep(columns: seq<string>, rows: seq<Row>, subject: string, body: string,
                     rest: seq<Message>, messages: seq<Message>)
    requires |rows| > 0 && Addressable(rows[0])
    requires |rest| == Reachable(rows[1..])
    requires forall k :: 0 <= k < |rest| ==> rest[k] == MessageFor(columns, rows[1..][k], subject, body)
    requires messages == [MessageFor(columns, rows[0], subject, body)] + rest
    ensures forall k :: 0 <= k < Reachable(rows) ==> messages[k] == MessageFor(columns, rows[k], subject, body)
  {
    assert Reachable(rows) == 1 + |rest|;
    forall k | 0 <= k < Reachable(rows)
      ensures messages[k] == MessageFor(columns, rows[k], subject, body)
    {
      if k > 0 {
        assert messages[k] == rest[k - 1];
        assert rows[1..][k - 1] == rows[k];
      }
    }
  }

  /** The throttled loop's result: the loop itself and the pauses it made. */
  datatype Paced = Paced(batch: Batch, pauses: seq<real>)

  /**
   The duplicated loop of "Send with Throttling": the same steps as `Run`,
   followed by one pause of `delay` seconds after every handled row, the last
   one included.
   */
  function RunPaced(ledger: seq<Record>, columns: seq<string>, rows: seq<Row>, outcomes: seq<Outcome>,
                    subject: string, body: string, clientReady: bool, delay: real): (r: Paced)
    requires |outcomes| == |rows|
    ensures r.batch == Run(ledger, columns, rows, outcomes, subject, body, clientReady)
    ensures |r.pauses| == Reachable(rows)
    ensures forall i :: 0 <= i < |r.pauses| ==> r.pauses[i] == delay
    decreases |rows|
  {
    if rows == [] then Paced(Batch(ledger, [], true), [])
    else if !Addressable(rows[0]) then Paced(Batch(ledger, [], false), [])
    else
      var row := rows[0];
      var settled := Book(ledger, row, Attempt(outcomes[0], clientReady));
      var rest := RunPaced(settled, columns, rows[1..], outcomes[1..], subject, body, clientReady, delay);
      var batch := Batch(rest.batch.ledger, [MessageFor(columns, row, subject, body)] + rest.batch.composed,
                         rest.batch.completed);
      Paced(batch, [delay] + rest.pauses)
  }

  /** The operator's sending identity; both fields must be non-empty to send. */
  datatype Sender = Sender(address: string, password: string)

  predicate HasCredentials(sender: Sender)
  {
    sender.address != "" && sender.password != ""
  }

  /** Subject and body templates, and whether a Mailjet client was built (both API fields given). */
  datatype Campaign = Campaign(subject: string, body: string, clientReady: bool)

  /** What the operator is shown at the end. */
  datatype Notice =
    | InvalidTimeFormat    // the time field failed its check: no send button
    | MissingCredentials   // "Please enter your email and app password"
    | RateError            // 60 / 0 raised while the page was drawn
    | Finished             // "Emails sent successfully!"
    | Aborted              // "An error occurred: ..."

  /** The ledger after a button press, the messages composed, the scheduled wait, the pauses made, the notice. */
  datatype Report = Report(ledger: seq<Record>, composed: seq<Message>, wait: nat, pauses: seq<real>, notice: Notice)

  /** The optional time is empty or passes the check as written (main.py:139). */
  predicate TimeAccepted(time: string)
  {
    time == "" || Schedule.MatchesTimePattern(time)
  }

  /**
   "Send Emails": the time check decides whether the button is shown; then
   the credentials are checked; then, inside the outer `try`, the time is
   parsed, the send blocks until the scheduled moment and the loop runs over
   the table. A time that passes the check but does not parse raises in
   `strptime`, and the outer handler reports the error before any row.
   */
  function SendNow(ledger: seq<Record>, sender: Sender, campaign: Campaign, table: Table,
                   outcomes: seq<Outcome>, day: int, time: string, now: int): (r: Report)
    requires |outcomes| == |table.rows|
    ensures !TimeAccepted(time) ==> r == Report(ledger, [], 0, [], InvalidTimeFormat)
    ensures TimeAccepted(time) && !HasCredentials(sender) ==> r == Report(ledger, [], 0, [], MissingCredentials)
    ensures TimeAccepted(time) && HasCredentials(sender) && time != "" && !Schedule.ValidTime(time) ==>
              r == Report(ledger, [], 0, [], Aborted)
    ensures (time == "" || Schedule.ValidTime(time)) && HasCredentials(sender) ==>
              && r.ledger == Run(ledger, table.columns, table.rows, outcomes, campaign.subject, campaign.body,
                                 campaign.clientReady).ledger
              && r.composed == Run(ledger, table.columns, table.rows, outcomes, campaign.subject, campaign.body,
                                   campaign.clientReady).composed
              && |r.ledger| == |ledger| + Reachable(table.rows)
              && r.ledger[..|ledger|] == ledger
              && Schedule.ScheduleWait(day, time, now) == Ok(r.wait)
              && r.pauses == []
              && (r.notice == Finished <==> Reachable(table.rows) == |table.rows|)
              && (r.notice == Aborted <==> Reachable(table.rows) < |table.rows|)
  {
    if !TimeAccepted(time) then Report(ledger, [], 0, [], InvalidTimeFormat)
    else if !HasCredentials(sender) then Report(ledger, [], 0, [], MissingCredentials)
    else
      match Schedule.ScheduleWait(day, time, now)
      case Err(_) => Report(ledger, [], 0, [], Aborted)
      case Ok(wait) =>
        var b := Run(ledger, table.columns, table.rows, outcomes, campaign.subject, campaign.body, campaign.clientReady);
        Report(b.ledger, b.composed, wait, [], if b.completed then Finished else Aborted)
  }

  /**
   A time followed by a newline is let through by the check as written: with
   credentials the send aborts before any row, without them the operator is
   asked for credentials, and the ledger is untouched either way.
   */
  lemma NewlineTimeAborts(ledger: seq<Record>, sender: Sender, campaign: Campaign, table: Table,
                          outcomes: seq<Outcome>, day: int, now: int)
    requires |outcomes| == |table.rows|
    ensures HasCredentials(sender) ==>
              SendNow(ledger, sender, campaign, table, outcomes, day, "7:05\n", now) == Report(ledger, [], 0, [], Aborted)
    ensures !HasCredentials(sender) ==>
              SendNow(ledger, sender, campaign, table, outcomes, day, "7:05\n", now) == Report(ledger, [], 0, [], MissingCredentials)
  {
    Schedule.TrailingNewlineSlipsThrough();
  }

  /**
   "Send with Throttling": the delay is computed while the page is drawn, so a
   zero rate fails before anything else; then the credentials are checked and
   the paced loop runs. The time field and the hourly limit play no part.
   */
  function SendThrottled(ledger: seq<Record>, sender: Sender, campaign: Campaign, limits: Throttle.Limits,
                         table: Table, outcomes: seq<Outcome>): (r: Report)
    requires Throttle.InRange(limits)
    requires |outcomes| == |table.rows|
    ensures limits.perMinute == 0 ==> r == Report(ledger, [], 0, [], RateError)
    ensures limits.perMinute > 0 && !HasCredentials(sender) ==> r == Report(ledger, [], 0, [], MissingCredentials)
    ensures limits.perMinute > 0 && HasCredentials(sender) ==>
              && |r.ledger| == |ledger| + Reachable(table.rows)
              && r.ledger[..|ledger|] == ledger
              && r.ledger == Run(ledger, table.columns, table.rows, outcomes, campaign.subject, campaign.body,
                                 campaign.clientReady).ledger
              && r.composed == Run(ledger, table.columns, table.rows, outcomes, campaign.subject, campaign.body,
                                   campaign.clientReady).composed
              && r.wait == 0
              && |r.pauses| == |r.ledger| - |ledger|
              && (forall i :: 0 <= i < |r.pauses| ==> r.pauses[i] == Throttle.Delay(limits).value)
              && (r.notice == Finished <==> Reachable(table.rows) == |table.rows|)
              && (r.notice == Aborted <==> Reachable(table.rows) < |table.rows|)
  {
    match Throttle.Delay(limits)
    case Err(_) => Report(ledger, [], 0, [], RateError)
    case Ok(delay) =>
      if !HasCredentials(sender) then Report(ledger, [], 0, [], MissingCredentials)
      else
        var p := RunPaced(ledger, table.columns, table.rows, outcomes, campaign.subject, campaign.body,
                          campaign.clientReady, delay);
        Report(p.batch.ledger, p.batch.composed, 0, p.pauses, if p.batch.completed then Finished else Aborted)
  }

  /**
   With a nonzero rate and credentials, the throttled send spends `60/r`
   seconds pausing per handled row: `Repeated(n, d)` is `n * d`
   (Throttle.RepeatedIsProduct).
   */
  lemma ThrottledPauseTotal(ledger: seq<Record>, sender: Sender, campaign: Campaign, limits: Throttle.Limits,
                            table: Table, outcomes: seq<Outcome>)
    requires Throttle.InRange(limits) && limits.perMinute > 0 && HasCredentials(sender)
    requires |outcomes| == |table.rows|
    ensures Throttle.TotalPause(SendThrottled(ledger, sender, campaign, limits, table, outcomes).pauses)
         == Throttle.Repeated(Reachable(table.rows), Throttle.Delay(limits).value)
  {
    var r := SendThrottled(ledger, sender, campaign, limits, table, outcomes);
    Throttle.TotalPauseRepeated(r.pauses, Throttle.Delay(limits).value);
  }

  /** The hourly limit is read from the form and never used. */
  lemma HourlyLimitUnused(ledger: seq<Record>, sender: Sender, campaign: Campaign, a: Throttle.Limits,
                          b: Throttle.Limits, table: Table, outcomes: seq<Outcome>)
    requires Throttle.InRange(a) && Throttle.InRange(b) && a.perMinute == b.perMinute
    requires |outcomes| == |table.rows|
    ensures SendThrottled(ledger, sender, campaign, a, table, outcomes)
         == SendThrottled(ledger, sender, campaign, b, table, outcomes)
  {
  }

  /**
   The two buttons leave the same ledger and compose the same messages; they
   differ only in the wait before and the pauses between sends.
   */
  lemma ButtonsAgree(ledger: seq<Record>, sender: Sender, campaign: Campaign, limits: Throttle.Limits,
                     table: Table, outcomes: seq<Outcome>, day: int, time: string, now: int)
    requires Throttle.InRange(limits) && limits.perMinute > 0
    requires (time == "" || Schedule.ValidTime(time)) && HasCredentials(sender)
    requires |outcomes| == |table.rows|
    ensures SendThrottled(ledger, sender, campaign, limits, table, outcomes).ledger
         == SendNow(ledger, sender, campaign, table, outcomes, day, time, now).ledger
    ensures SendThrottled(ledger, sender, campaign, limits, table, outcomes).composed
         == SendNow(ledger, sender, campaign, table, outcomes, day, time, now).composed
  {
  }

  /**
   `df.iterrows()` gives every row the same index, the table's columns, so
   the rows of a real table are uniform.
   */
  predicate Uniform(rows: seq<Row>)
  {
    forall i, j :: 0 <= i < |rows| && 0 <= j < |rows| ==> rows[i].Keys == rows[j].Keys
  }

  /** A uniform table is handled in full or not at all. */
  lemma UniformAllOrNothing(rows: seq<Row>)
    requires Uniform(rows)
    ensures Reachable(rows) == 0 || Reachable(rows) == |rows|
  {
    var n := Reachable(rows);
    if n < |rows| {
      SameKeysAddressable(rows[0], rows[n]);
    }
  }

  lemma SameKeysAddressable(a: Row, b: Row)
    requires a.Keys == b.Keys
    ensures Addressable(a) == Addressable(b)
  {
  }

  /** When every row has both fields, every row is handled. */
  lemma AllReachable(rows: seq<Row>)
    requires forall k :: 0 <= k < |rows| ==> Addressable(rows[k])
    ensures Reachable(rows) == |rows|
  {
  }

  /**
   A failed send does not stop the loop: when every row has both fields, every
   row gets a record, and row `k`'s is Sent exactly when a client exists and
   the transport answered 200, Failed otherwise.
   */
  lemma FailuresDoNotStop(ledger: seq<Record>, columns: seq<string>, rows: seq<Row>, outcomes: seq<Outcome>,
                          subject: string, body: string, clientReady: bool, k: nat)
    requires |outcomes| == |rows| && k < |rows|
    requires forall j :: 0 <= j < |rows| ==> Addressable(rows[j])
    ensures Run(ledger, columns, rows, outcomes, subject, body, clientReady).completed
    ensures |Run(ledger, columns, rows, outcomes, subject, body, clientReady).ledger| == |ledger| + |rows|
    ensures var record := Run(ledger, columns, rows, outcomes, subject, body, clientReady).ledger[|ledger| + k];
            && (record.status == Sent <==> clientReady && Accepted(outcomes[k]))
            && (record.status == Failed <==> !(clientReady && Accepted(outcomes[k])))
  {
    AllReachable(rows);
    RunRecords(ledger, columns, rows, outcomes, subject, body, clientReady);
    var record := Run(ledger, columns, rows, outcomes, subject, body, clientReady).ledger[|ledger| + k];
    assert record == Settled(rows[k], Attempt(outcomes[k], clientReady));
  }
}
