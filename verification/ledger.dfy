/**
 The status ledger kept in the session (main.py, lines 129, 199-212 and
 290-303): one record `[company, email, status, delivery, opened]` per
 recipient handled, appended as Scheduled / N/A / No and then settled by the
 outcome of the send.
 */
module Ledger {

  datatype Status = Scheduled | Sent | Failed

  /** "N/A", "Delivered" or "Bounced". */
  datatype Delivery = NotApplicable | Delivered | Bounced

  datatype Opened = Yes | No

  datatype Record = Record(company: string, email: string, status: Status, delivery: Delivery, openState: Opened)

  /** What the transport did with one message: answered with a status code, or raised. */
  datatype Outcome = Acknowledged(statusCode: int) | Raised

  /** Only a status code of 200 counts as a successful send. */
  predicate Accepted(o: Outcome)
  {
    o.Acknowledged? && o.statusCode == 200
  }

  /** The record appended before a send is attempted. */
  function Pending(company: string, email: string): Record
  {
    Record(company, email, Scheduled, NotApplicable, No)
  }

  /**
   Sets fields 2 and 3 of the last record from the outcome: Sent/Delivered on
   an accepted send, Failed/Bounced otherwise. Nothing else changes.
   */
  function Settle(ledger: seq<Record>, o: Outcome): (r: seq<Record>)
    requires |ledger| > 0
    ensures |r| == |ledger|
    ensures forall i :: 0 <= i < |ledger| - 1 ==> r[i] == ledger[i]
    ensures var last, was := r[|r| - 1], ledger[|ledger| - 1];
            && last.company == was.company && last.email == was.email && last.openState == was.openState
            && (last.status == Sent <==> Accepted(o)) && (last.status == Failed <==> !Accepted(o))
            && (last.delivery == Delivered <==> Accepted(o)) && (last.delivery == Bounced <==> !Accepted(o))
  {
    var last := ledger[|ledger| - 1];
    var settled := if Accepted(o) then last.(status := Sent, delivery := Delivered)
                   else last.(status := Failed, delivery := Bounced);
    ledger[..|ledger| - 1] + [settled]
  }
}
