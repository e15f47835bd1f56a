/**
 The two stages of the address pipeline, run one after the other instead of
 concurrently: `enqueue` reads CSV records and pushes each record's first
 field onto the address queue; `putGeocode` takes the queued addresses in
 order, looks each one up and writes one output line per resolved address.

 The CSV reader is replaced by the sequence of outcomes its `Read` calls
 return, and the geocoding service by a function from the call number and
 the address to the response that call yields, so two lookups of one
 address may be answered differently. Each stage is given as a specification function and as
 a loop proved equal to it.
 */
module Pipeline {
  import opened Coordinates
  import opened OutputRecord

  type Address = string

  /** The fields of one CSV record; the reader never yields a record without fields. */
  type RecordFields = fields: seq<string> | |fields| > 0 witness [""]

  /** One call of the CSV reader: a record's fields, a read error, or end of input. */
  datatype ReadOutcome = Record(fields: RecordFields) | ReadError | EndOfFile

  datatype GeocodeError = RequestFailed | NoResults

  datatype Error =
    | ReadFailed(file: string)         // "error while reading <file>"
    | DecodeFailed(cause: GeocodeError) // "decode <cause>"

  datatype Status = Completed | Aborted(error: Error)

  datatype Location = Location(lat: real, lng: real)

  /**
   What one geocoding call yields: a failure to build, send or decode the
   request, or the decoded list of results.
   */
  datatype Response = TransportFailed | Decoded(results: seq<Location>)

  datatype Result<T> = Ok(value: T) | Err(error: GeocodeError)

  /** Whether `geo.Results[0]` is within bounds for this response. */
  predicate HasFirstResult(response: Response) {
    response.Decoded? ==> |response.results| > 0
  }

  /**
   `geocode` as written: it indexes the first result without checking that
   there is one. An out-of-range index is a run-time panic in Go, so the
   function is only defined where the index is within bounds.
   */
  function GeocodeAsWritten(response: Response): (r: Result<Location>)
    requires HasFirstResult(response)
    ensures r.Ok? <==> response.Decoded?
    ensures r.Ok? ==> r.value == response.results[0]
  {
    match response
    case TransportFailed => Err(RequestFailed)
    case Decoded(results) => Ok(results[0])
  }

  /** A decoded response with no results (the service's answer for an unknown address) takes `geocode` out of bounds. */
  lemma EmptyResultsOutOfBounds()
    ensures !HasFirstResult(Decoded([]))
    ensures Geocode(Decoded([])) == Err(NoResults)
  {
  }

  /** Wherever the code as written is defined, the guarded `Geocode` agrees with it. */
  lemma GeocodeAgrees(response: Response)
    requires HasFirstResult(response)
    ensures Geocode(response) == GeocodeAsWritten(response)
  {
  }

  /** `geocode`: the location of the first result; an empty result list is an error. */
  function Geocode(response: Response): (r: Result<Location>)
    ensures r.Ok? <==> response.Decoded? && |response.results| > 0
    ensures r.Ok? ==> r.value == response.results[0]
    ensures response == Decoded([]) ==> r == Err(NoResults)
  {
    match response
    case TransportFailed => Err(RequestFailed)
    case Decoded(results) => if |results| == 0 then Err(NoResults) else Ok(results[0])
  }

  /**
   What `enqueue` did: the addresses pushed onto the queue, in push order,
   whether it closed the queue, and what it returned.
   */
  datatype EnqueueRun = EnqueueRun(pushed: seq<Address>, closed: bool, status: Status)

  /**
   `enqueue` over the reader's outcomes; outcomes past the end of the
   sequence are end of input.
   */
  function EnqueueSpec(file: string, outcomes: seq<ReadOutcome>): EnqueueRun {
    if |outcomes| == 0 then EnqueueRun([], true, Completed)
    else
      match outcomes[0]
      case EndOfFile => EnqueueRun([], true, Completed)
      case ReadError => EnqueueRun([], false, Aborted(ReadFailed(file)))
      case Record(fields) =>
        var rest := EnqueueSpec(file, outcomes[1..]);
        EnqueueRun([fields[0]] + rest.pushed, rest.closed, rest.status)
  }

  /**
   `enqueue` pushes the first field of every record, in file order, up to
   the first outcome that is not a record. It closes the queue, and succeeds,
   exactly when that outcome is end of input; at a read error it returns the
   error without closing the queue.
   */
  lemma {:induction false} EnqueueSpecProperties(file: string, outcomes: seq<ReadOutcome>)
    ensures var r := EnqueueSpec(file, outcomes);
      && |r.pushed| <= |outcomes|
      && (forall i | 0 <= i < |r.pushed| :: outcomes[i].Record? && r.pushed[i] == outcomes[i].fields[0])
      && (r.closed <==> r.status == Completed)
      && (r.closed <==> |r.pushed| == |outcomes| || outcomes[|r.pushed|] == EndOfFile)
      && (!r.closed ==> outcomes[|r.pushed|] == ReadError && r.status == Aborted(ReadFailed(file)))
  {
    if |outcomes| > 0 && outcomes[0].Record? {
      EnqueueSpecProperties(file, outcomes[1..]);
      var rest := EnqueueSpec(file, outcomes[1..]);
      var r := EnqueueSpec(file, outcomes);
      assert r.pushed == [outcomes[0].fields[0]] + rest.pushed;
      assert forall i | 1 <= i < |r.pushed| :: outcomes[i] == outcomes[1..][i - 1];
    }
  }

  /**
   The loop invariant of `enqueue` after `i` outcomes: what is pushed so
   far, followed by the run over the remaining outcomes, is the whole run.
   */
  predicate EnqueueDone(file: string, outcomes: seq<ReadOutcome>, i: nat, pushed: seq<Address>)
    requires i <= |outcomes|
  {
    var rest := EnqueueSpec(file, outcomes[i..]);
    EnqueueSpec(file, outcomes) == EnqueueRun(pushed + rest.pushed, rest.closed, rest.status)
  }

  lemma EnqueuePushed(file: string, outcomes: seq<ReadOutcome>, i: nat, pushed: seq<Address>)
    requires i < |outcomes| && outcomes[i].Record? && EnqueueDone(file, outcomes, i, pushed)
    ensures EnqueueDone(file, outcomes, i + 1, pushed + [outcomes[i].fields[0]])
  {
    assert outcomes[i..][1..] == outcomes[i + 1..];
    var rest := EnqueueSpec(file, outcomes[i + 1..]);
    var first := outcomes[i].fields[0];
    assert pushed + ([first] + rest.pushed) == (pushed + [first]) + rest.pushed;
  }

  lemma EnqueueStopped(file: string, outcomes: seq<ReadOutcome>, i: nat, pushed: seq<Address>)
    requires i <= |outcomes| && EnqueueDone(file, outcomes, i, pushed)
    requires i == |outcomes| || !outcomes[i].Record?
    ensures i == |outcomes| || outcomes[i] == EndOfFile ==> EnqueueSpec(file, outcomes) == EnqueueRun(pushed, true, Completed)
    ensures i < |outcomes| && outcomes[i] == ReadError ==>
      EnqueueSpec(file, outcomes) == EnqueueRun(pushed, false, Aborted(ReadFailed(file)))
  {
    assert pushed + [] == pushed;
  }

  /** The loop of `enqueue`. */
  method Enqueue(file: string, outcomes: seq<ReadOutcome>) returns (pushed: seq<Address>, closed: bool, status: Status)
    ensures EnqueueRun(pushed, closed, status) == EnqueueSpec(file, outcomes)
  {
    pushed := [];
    var i := 0;
    assert outcomes[i..] == outcomes;
    while true
      invariant 0 <= i <= |outcomes|
      invariant EnqueueDone(file, outcomes, i, pushed)
      decreases |outcomes| - i
    {
      var outcome := if i < |outcomes| then outcomes[i] else EndOfFile;
      if outcome == EndOfFile {
        EnqueueStopped(file, outcomes, i, pushed);
        break;
      }
      if outcome == ReadError {
        EnqueueStopped(file, outcomes, i, pushed);
        return pushed, false, Aborted(ReadFailed(file));
      }
      EnqueuePushed(file, outcomes, i, pushed);
      pushed := pushed + [outcome.fields[0]];
      i := i + 1;
    }
    closed, status := true, Completed;
  }

  /**
   Nothing after the outcome that stops `enqueue` is read: when a prefix
   stops it, any continuation gives the same run; when a prefix is all
   records, the continuation's pushes follow the prefix's.
   */
  lemma {:induction false} EnqueueConcat(file: string, xs: seq<ReadOutcome>, ys: seq<ReadOutcome>)
    ensures |EnqueueSpec(file, xs).pushed| < |xs| ==> EnqueueSpec(file, xs + ys) == EnqueueSpec(file, xs)
    ensures |EnqueueSpec(file, xs).pushed| == |xs| ==>
      EnqueueSpec(file, xs + ys).pushed == EnqueueSpec(file, xs).pushed + EnqueueSpec(file, ys).pushed
  {
    if |xs| > 0 {
      assert (xs + ys)[0] == xs[0];
      assert (xs + ys)[1..] == xs[1..] + ys;
      EnqueueConcat(file, xs[1..], ys);
    } else {
      assert xs + ys == ys;
    }
  }

  /** A resolved address: what one output line is written from. */
  datatype Entry = Entry(address: Address, location: Location)

  /** The line written for a resolved address. */
  function LineFor(e: Entry): string {
    Line(e.address, e.location.lat, e.location.lng)
  }

  /** The text of the output file after writing `written`, one line per entry, in order. */
  function OutputText(written: seq<Entry>): string {
    if |written| == 0 then "" else OutputText(written[..|written| - 1]) + LineFor(written[|written| - 1])
  }

  /** Writing one more entry appends its line. */
  lemma OutputTextSnoc(written: seq<Entry>, e: Entry)
    ensures OutputText(written + [e]) == OutputText(written) + LineFor(e)
  {
    assert (written + [e])[..|written|] == written;
  }

  /** Writing more entries appends their lines after the ones already written. */
  lemma {:induction false} OutputTextConcat(xs: seq<Entry>, ys: seq<Entry>)
    ensures OutputText(xs + ys) == OutputText(xs) + OutputText(ys)
  {
    if |ys| > 0 {
      var last := ys[|ys| - 1];
      assert (xs + ys)[..|xs + ys| - 1] == xs + ys[..|ys| - 1];
      OutputTextConcat(xs, ys[..|ys| - 1]);
    } else {
      assert xs + ys == xs;
    }
  }

  /**
   What `putGeocode` did: the entries whose lines it wrote, in order, the
   addresses it looked up, in order, whether it synced the output, and what
   it returned.
   */
  datatype PutRun = PutRun(written: seq<Entry>, looked: seq<Address>, synced: bool, status: Status)

  /**
   The geocoding service: `lookup(k, a)` is the response to the call with
   number `k` (counting from 0), made for address `a`.
   */
  type Service = (nat, Address) -> Response

  /**
   `putGeocode` over the queued addresses, when `calls` lookups were made
   before the first of them.
   */
  function PutGeocodeSpec(addresses: seq<Address>, lookup: Service, calls: nat): PutRun {
    if |addresses| == 0 then PutRun([], [], true, Completed)
    else
      match Geocode(lookup(calls, addresses[0]))
      case Err(e) => PutRun([], [addresses[0]], false, Aborted(DecodeFailed(e)))
      case Ok(loc) =>
        var rest := PutGeocodeSpec(addresses[1..], lookup, calls + 1);
        rest.(written := [Entry(addresses[0], loc)] + rest.written, looked := [addresses[0]] + rest.looked)
  }

  /**
   One lookup per address, in queue order, the `i`-th address by call
   `calls + i`; one entry per resolved address, in the same order, carrying
   the first result's location; at the first failed lookup an error carrying
   its cause, no later address looked up and the output not synced; the
   output is synced exactly when every address resolved.
   */
  lemma {:induction false} PutGeocodeSpecProperties(addresses: seq<Address>, lookup: Service, calls: nat)
    ensures var r := PutGeocodeSpec(addresses, lookup, calls);
      && |r.written| <= |r.looked| <= |addresses|
      && r.looked == addresses[..|r.looked|]
      && (forall i | 0 <= i < |r.written| ::
            Geocode(lookup(calls + i, addresses[i])).Ok?
            && r.written[i] == Entry(addresses[i], Geocode(lookup(calls + i, addresses[i])).value))
      && (r.synced <==> r.status == Completed)
      && (r.status == Completed ==> |r.written| == |addresses| && r.looked == addresses)
      && (r.status != Completed ==>
            && |r.written| < |addresses|
            && |r.looked| == |r.written| + 1
            && Geocode(lookup(calls + |r.written|, addresses[|r.written|])).Err?
            && r.status == Aborted(DecodeFailed(Geocode(lookup(calls + |r.written|, addresses[|r.written|])).error)))
  {
    PutGeocodeSpecShape(addresses, lookup, calls);
    PutGeocodeSpecEntries(addresses, lookup, calls);
    PutGeocodeSpecFailure(addresses, lookup, calls);
  }

  lemma {:induction false} PutGeocodeSpecShape(addresses: seq<Address>, lookup: Service, calls: nat)
    ensures var r := PutGeocodeSpec(addresses, lookup, calls);
      && |r.written| <= |r.looked| <= |addresses|
      && r.looked == addresses[..|r.looked|]
      && (r.synced <==> r.status == Completed)
      && (r.status == Completed ==> |r.written| == |addresses| && r.looked == addresses)
      && (r.status != Completed ==> |r.written| < |addresses| && |r.looked| == |r.written| + 1)
  {
    if |addresses| > 0 && Geocode(lookup(calls, addresses[0])).Ok? {
      PutGeocodeSpecShape(addresses[1..], lookup, calls + 1);
      var rest := PutGeocodeSpec(addresses[1..], lookup, calls + 1);
      var r := PutGeocodeSpec(addresses, lookup, calls);
      assert r.looked == [addresses[0]] + rest.looked;
      assert addresses == [addresses[0]] + addresses[1..];
    }
  }

  lemma {:induction false} PutGeocodeSpecEntries(addresses: seq<Address>, lookup: Service, calls: nat)
    ensures var r := PutGeocodeSpec(addresses, lookup, calls);
      && |r.written| <= |addresses|
      && forall i | 0 <= i < |r.written| ::
           Geocode(lookup(calls + i, addresses[i])).Ok?
           && r.written[i] == Entry(addresses[i], Geocode(lookup(calls + i, addresses[i])).value)
  {
    if |addresses| > 0 && Geocode(lookup(calls, addresses[0])).Ok? {
      PutGeocodeSpecEntries(addresses[1..], lookup, calls + 1);
      var rest := PutGeocodeSpec(addresses[1..], lookup, calls + 1);
      var r := PutGeocodeSpec(addresses, lookup, calls);
      assert r.written == [Entry(addresses[0], Geocode(lookup(calls, addresses[0])).value)] + rest.written;
      forall i | 1 <= i < |r.written|
        ensures Geocode(lookup(calls + i, addresses[i])).Ok?
        ensures r.written[i] == Entry(addresses[i], Geocode(lookup(calls + i, addresses[i])).value)
      {
        assert r.written[i] == rest.written[i - 1];
        assert addresses[i] == addresses[1..][i - 1];
        assert calls + i == (calls + 1) + (i - 1);
      }
    }
  }

  lemma {:induction false} PutGeocodeSpecFailure(addresses: seq<Address>, lookup: Service, calls: nat)
    ensures var r := PutGeocodeSpec(addresses, lookup, calls);
      r.status != Completed ==>
        && |r.written| < |addresses|
        && Geocode(lookup(calls + |r.written|, addresses[|r.written|])).Err?
        && r.status == Aborted(DecodeFailed(Geocode(lookup(calls + |r.written|, addresses[|r.written|])).error))
  {
    if |addresses| > 0 && Geocode(lookup(calls, addresses[0])).Ok? {
      PutGeocodeSpecFailure(addresses[1..], lookup, calls + 1);
      var rest := PutGeocodeSpec(addresses[1..], lookup, calls + 1);
      var r := PutGeocodeSpec(addresses, lookup, calls);
      if r.status != Completed {
        var n := |rest.written|;
        assert |r.written| == n + 1;
        assert addresses[n + 1] == addresses[1..][n];
        assert calls + (n + 1) == (calls + 1) + n;
      }
    }
  }

  /**
   The loop invariant of `putGeocode` after `i` addresses: what is written
   and looked up so far, followed by the run over the rest of the queue
   from call `i` on, is the run over the whole queue.
   */
  predicate PutGeocodeDone(addresses: seq<Address>, lookup: Service, i: nat, written: seq<Entry>, looked: seq<Address>)
    requires i <= |addresses|
  {
    var rest := PutGeocodeSpec(addresses[i..], lookup, i);
    PutGeocodeSpec(addresses, lookup, 0) == PutRun(written + rest.written, looked + rest.looked, rest.synced, rest.status)
  }

  lemma PutGeocodeResolved(addresses: seq<Address>, lookup: Service, i: nat, written: seq<Entry>, looked: seq<Address>)
    requires i < |addresses| && PutGeocodeDone(addresses, lookup, i, written, looked)
    requires Geocode(lookup(i, addresses[i])).Ok?
    ensures PutGeocodeDone(addresses, lookup, i + 1,
      written + [Entry(addresses[i], Geocode(lookup(i, addresses[i])).value)], looked + [addresses[i]])
  {
    var entry := Entry(addresses[i], Geocode(lookup(i, addresses[i])).value);
    assert addresses[i..][1..] == addresses[i + 1..];
    var rest := PutGeocodeSpec(addresses[i + 1..], lookup, i + 1);
    assert PutGeocodeSpec(addresses[i..], lookup, i) == PutRun([entry] + rest.written, [addresses[i]] + rest.looked, rest.synced, rest.status);
    assert written + ([entry] + rest.written) == (written + [entry]) + rest.written;
    assert looked + ([addresses[i]] + rest.looked) == (looked + [addresses[i]]) + rest.looked;
  }

  lemma PutGeocodeFailed(addresses: seq<Address>, lookup: Service, i: nat, written: seq<Entry>, looked: seq<Address>)
    requires i < |addresses| && PutGeocodeDone(addresses, lookup, i, written, looked)
    requires Geocode(lookup(i, addresses[i])).Err?
    ensures PutGeocodeSpec(addresses, lookup, 0)
      == PutRun(written, looked + [addresses[i]], false, Aborted(DecodeFailed(Geocode(lookup(i, addresses[i])).error)))
  {
    assert written + [] == written;
  }

  /**
   The loop of `putGeocode`: `output` is the text it writes, a line per
   resolved address as soon as it resolves. The `i`-th iteration makes
   call `i` of the service.
   */
  method PutGeocode(addresses: seq<Address>, lookup: Service)
    returns (output: string, written: seq<Entry>, looked: seq<Address>, synced: bool, status: Status)
    ensures PutRun(written, looked, synced, status) == PutGeocodeSpec(addresses, lookup, 0)
    ensures output == OutputText(written)
  {
    output, written, looked := "", [], [];
    var i := 0;
    assert addresses[i..] == addresses;
    while i < |addresses|
      invariant 0 <= i <= |addresses|
      invariant PutGeocodeDone(addresses, lookup, i, written, looked)
      invariant output == OutputText(written)
    {
      var address := addresses[i];
      var result := Geocode(lookup(i, address));
      if result.Err? {
        PutGeocodeFailed(addresses, lookup, i, written, looked);
        return output, written, looked + [address], false, Aborted(DecodeFailed(result.error));
      }
      var entry := Entry(address, result.value);
      PutGeocodeResolved(addresses, lookup, i, written, looked);
      OutputTextSnoc(written, entry);
      output := output + LineFor(entry);
      written := written + [entry];
      looked := looked + [address];
      i := i + 1;
    }
    assert written + [] == written && looked + [] == looked;
    synced, status := true, Completed;
  }

  /** `lookup` and `other` answer alike the calls made, from call `calls` on, for `looked`. */
  predicate AnswersAlike(lookup: Service, other: Service, calls: nat, looked: seq<Address>) {
    forall k | 0 <= k < |looked| :: lookup(calls + k, looked[k]) == other(calls + k, looked[k])
  }

  /**
   The run depends on the geocoding service only at the calls it made: a
   service that answers those calls the same way gives the same run.
   */
  lemma {:induction false} PutGeocodeOnlyLooked(addresses: seq<Address>, lookup: Service, other: Service, calls: nat)
    requires AnswersAlike(lookup, other, calls, PutGeocodeSpec(addresses, lookup, calls).looked)
    ensures PutGeocodeSpec(addresses, other, calls) == PutGeocodeSpec(addresses, lookup, calls)
  {
    if |addresses| > 0 {
      var r := PutGeocodeSpec(addresses, lookup, calls);
      assert r.looked[0] == addresses[0];
      assert lookup(calls + 0, r.looked[0]) == other(calls + 0, r.looked[0]);
      if Geocode(lookup(calls, addresses[0])).Ok? {
        var rest := PutGeocodeSpec(addresses[1..], lookup, calls + 1);
        forall k | 0 <= k < |rest.looked|
          ensures lookup(calls + 1 + k, rest.looked[k]) == other(calls + 1 + k, rest.looked[k])
        {
          assert r.looked[k + 1] == rest.looked[k];
          assert lookup(calls + (k + 1), r.looked[k + 1]) == other(calls + (k + 1), r.looked[k + 1]);
        }
        PutGeocodeOnlyLooked(addresses[1..], lookup, other, calls + 1);
      }
    }
  }

  /**
   The service is consulted once per lookup, so a repeated address can
   resolve on its first lookup and fail on its second: the line of the first
   is written before the run aborts.
   */
  lemma RepeatedAddressCanFail()
    ensures var lookup: Service := (k: nat, a: Address) => if k == 0 then Decoded([Location(0.0, 0.0)]) else TransportFailed;
      PutGeocodeSpec(["Tokyo", "Tokyo"], lookup, 0)
        == PutRun([Entry("Tokyo", Location(0.0, 0.0))], ["Tokyo", "Tokyo"], false, Aborted(DecodeFailed(RequestFailed)))
  {
    var lookup: Service := (k: nat, a: Address) => if k == 0 then Decoded([Location(0.0, 0.0)]) else TransportFailed;
    var xs: seq<Address> := ["Tokyo", "Tokyo"];
    assert xs[1..] == ["Tokyo"];
    assert PutGeocodeSpec(xs[1..], lookup, 1) == PutRun([], ["Tokyo"], false, Aborted(DecodeFailed(RequestFailed)));
  }

  /**
   Lines are written as addresses resolve, not buffered: a queue that
   resolves completely contributes its lines ahead of what follows, whose
   lookups continue the call count, and a queue that fails leaves what
   follows unread.
   */
  lemma {:induction false} PutGeocodeConcat(xs: seq<Address>, ys: seq<Address>, lookup: Service, calls: nat)
    ensures PutGeocodeSpec(xs, lookup, calls).status == Completed ==>
      var whole, rest := PutGeocodeSpec(xs + ys, lookup, calls), PutGeocodeSpec(ys, lookup, calls + |xs|);
      && whole.written == PutGeocodeSpec(xs, lookup, calls).written + rest.written
      && whole.looked == xs + rest.looked
      && whole.status == rest.status
    ensures PutGeocodeSpec(xs, lookup, calls).status != Completed ==>
      PutGeocodeSpec(xs + ys, lookup, calls) == PutGeocodeSpec(xs, lookup, calls)
  {
    if PutGeocodeSpec(xs, lookup, calls).status == Completed {
      PutGeocodeConcatCompleted(xs, ys, lookup, calls);
    } else {
      PutGeocodeConcatAborted(xs, ys, lookup, calls);
    }
  }

  lemma {:induction false} PutGeocodeConcatCompleted(xs: seq<Address>, ys: seq<Address>, lookup: Service, calls: nat)
    requires PutGeocodeSpec(xs, lookup, calls).status == Completed
    ensures var whole, rest := PutGeocodeSpec(xs + ys, lookup, calls), PutGeocodeSpec(ys, lookup, calls + |xs|);
      && whole.written == PutGeocodeSpec(xs, lookup, calls).written + rest.written
      && whole.looked == xs + rest.looked
      && whole.status == rest.status
  {
    if |xs| == 0 {
      assert xs + ys == ys;
    } else {
      assert (xs + ys)[0] == xs[0];
      assert (xs + ys)[1..] == xs[1..] + ys;
      var tail := PutGeocodeSpec(xs[1..], lookup, calls + 1);
      assert PutGeocodeSpec(xs, lookup, calls) == tail.(written := [Entry(xs[0], Geocode(lookup(calls, xs[0])).value)] + tail.written, looked := [xs[0]] + tail.looked);
      PutGeocodeConcatCompleted(xs[1..], ys, lookup, calls + 1);
      assert calls + 1 + |xs[1..]| == calls + |xs|;
      assert xs == [xs[0]] + xs[1..];
    }
  }

  lemma {:induction false} PutGeocodeConcatAborted(xs: seq<Address>, ys: seq<Address>, lookup: Service, calls: nat)
    requires PutGeocodeSpec(xs, lookup, calls).status != Completed
    ensures PutGeocodeSpec(xs + ys, lookup, calls) == PutGeocodeSpec(xs, lookup, calls)
  {
    assert (xs + ys)[0] == xs[0];
    if Geocode(lookup(calls, xs[0])).Ok? {
      assert (xs + ys)[1..] == xs[1..] + ys;
      PutGeocodeConcatAborted(xs[1..], ys, lookup, calls + 1);
    }
  }

  /** When every lookup resolves, the run completes. */
  lemma {:induction false} PutGeocodeAllResolve(addresses: seq<Address>, lookup: Service, calls: nat)
    requires forall i | 0 <= i < |addresses| :: Geocode(lookup(calls + i, addresses[i])).Ok?
    ensures PutGeocodeSpec(addresses, lookup, calls).status == Completed
  {
    if |addresses| > 0 {
      assert Geocode(lookup(calls + 0, addresses[0])).Ok?;
      forall i | 0 <= i < |addresses[1..]|
        ensures Geocode(lookup(calls + 1 + i, addresses[1..][i])).Ok?
      {
        assert Geocode(lookup(calls + (i + 1), addresses[i + 1])).Ok?;
      }
      PutGeocodeAllResolve(addresses[1..], lookup, calls + 1);
    }
  }

  /**
   Both stages in sequence: when the reader reaches end of input and every
   address resolves, exactly one line is written per record, in file order,
   for the record's first field and the first location returned by the call
   that looked it up (call `i` for the `i`-th record).
   */
  lemma EndToEnd(file: string, outcomes: seq<ReadOutcome>, lookup: Service)
    requires EnqueueSpec(file, outcomes).closed
    requires forall i | 0 <= i < |outcomes| && outcomes[i].Record? :: Geocode(lookup(i, outcomes[i].fields[0])).Ok?
    ensures var queued := EnqueueSpec(file, outcomes).pushed;
      var run := PutGeocodeSpec(queued, lookup, 0);
      && |queued| <= |outcomes|
      && run.status == Completed
      && |run.written| == |queued|
      && forall i | 0 <= i < |queued| ::
           outcomes[i].Record? && run.written[i] == Entry(outcomes[i].fields[0], Geocode(lookup(i, outcomes[i].fields[0])).value)
  {
    var queued := EnqueueSpec(file, outcomes).pushed;
    EnqueueSpecProperties(file, outcomes);
    forall i | 0 <= i < |queued|
      ensures Geocode(lookup(0 + i, queued[i])).Ok?
    {
      assert queued[i] == outcomes[i].fields[0];
    }
    PutGeocodeAllResolve(queued, lookup, 0);
    PutGeocodeSpecShape(queued, lookup, 0);
    PutGeocodeSpecEntries(queued, lookup, 0);
  }
}
