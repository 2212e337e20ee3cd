/**
 The open-tracking service (track.py): one process-wide map from recipient
 address to "Yes" or "No", changed only through its three endpoints. Requests
 are handled one at a time.
 */
module Tracking {

  /** The `opened_emails` map. */
  type Store = map<string, string>

  const OpenedFlag: string := "Yes"
  const UnopenedFlag: string := "No"

  /** Every value in the store is "Yes" or "No". */
  predicate WellFormed(store: Store)
  {
    forall e :: e in store ==> store[e] == OpenedFlag || store[e] == UnopenedFlag
  }

  /** `GET /track/<email>`: marks `email` opened, adding it if it was unknown. */
  function Track(store: Store, email: string): (r: Store)
    ensures r.Keys == store.Keys + {email}
    ensures r[email] == OpenedFlag
    ensures forall e :: e in store && e != email ==> r[e] == store[e]
  {
    store[email := OpenedFlag]
  }

  /** `POST /reset-status`: every known address back to "No", none added or removed. */
  function Reset(store: Store): (r: Store)
    ensures r.Keys == store.Keys
    ensures forall e :: e in r ==> r[e] == UnopenedFlag
  {
    map e | e in store :: UnopenedFlag
  }

  datatype Request = TrackOpen(email: string) | QueryStatus | ResetStatus

  /** The pixel image, the JSON of the map, or the reset acknowledgement. */
  datatype Response = Pixel | Status(opens: Store) | Acknowledgement(message: string)

  datatype Handled = Handled(store: Store, response: Response)

  /** The addresses a request can add to the store. */
  function Added(request: Request): set<string>
  {
    if request.TrackOpen? then {request.email} else {}
  }

  /**
   One request. `GET /opened-status` answers with exactly the current map and
   leaves it alone; only `GET /track/<email>` adds a key, and no request
   removes one or writes anything but "Yes" or "No".
   */
  function Handle(store: Store, request: Request): (h: Handled)
    ensures h.store.Keys == store.Keys + Added(request)
    ensures WellFormed(store) ==> WellFormed(h.store)
    ensures request.QueryStatus? ==> h.store == store && h.response == Status(store)
  {
    match request
    case TrackOpen(email) => Handled(Track(store, email), Pixel)
    case QueryStatus => Handled(store, Status(store))
    case ResetStatus => Handled(Reset(store), Acknowledgement("All email statuses have been reset to 'No'."))
  }

  /** The store after a sequence of requests, with the responses in order. */
  datatype Served = Served(store: Store, responses: seq<Response>)

  function Serve(store: Store, requests: seq<Request>): (r: Served)
    ensures |r.responses| == |requests|
    ensures store.Keys <= r.store.Keys
    decreases |requests|
  {
    if requests == [] then Served(store, [])
    else
      var h := Handle(store, requests[0]);
      var rest := Serve(h.store, requests[1..]);
      Served(rest.store, [h.response] + rest.responses)
  }

  /** Every address some request of the sequence tracks. */
  function TrackedIn(requests: seq<Request>): set<string>
    decreases |requests|
  {
    if requests == [] then {} else Added(requests[0]) + TrackedIn(requests[1..])
  }

  /**
   Over any sequence of requests the store stays well formed, and its keys are
   the starting keys plus exactly the tracked addresses: keys are only added,
   and only by tracking.
   */
  lemma {:induction false} ServeInvariant(store: Store, requests: seq<Request>)
    ensures Serve(store, requests).store.Keys == store.Keys + TrackedIn(requests)
    ensures WellFormed(store) ==> WellFormed(Serve(store, requests).store)
    ensures |Serve(store, requests).responses| == |requests|
    decreases |requests|
  {
    if requests != [] {
      ServeInvariant(Handle(store, requests[0]).store, requests[1..]);
    }
  }

  /** Tracking the same address twice leaves the same store as tracking it once. */
  lemma TrackIdempotent(store: Store, email: string)
    ensures Track(Track(store, email), email) == Track(store, email)
  {
  }

  /** After a reset, tracking one address leaves it "Yes" and every other known address "No". */
  lemma ResetThenTrack(store: Store, email: string)
    ensures var r := Track(Reset(store), email);
            && r.Keys == store.Keys + {email}
            && r[email] == OpenedFlag
            && forall e :: e in store && e != email ==> r[e] == UnopenedFlag
  {
  }

  /** A beacon fetch for bob@x.com on a fresh service, then a status query, reports bob@x.com as opened. */
  lemma TrackThenQuery()
    ensures Serve(map[], [TrackOpen("bob@x.com"), QueryStatus]).responses
         == [Pixel, Status(map["bob@x.com" := "Yes"])]
  {
    var requests := [TrackOpen("bob@x.com"), QueryStatus];
    var first := Handle(map[], requests[0]);
    assert first.store == map["bob@x.com" := "Yes"];
    assert requests[1..] == [QueryStatus];
    assert requests[1..][1..] == [];
  }
}
