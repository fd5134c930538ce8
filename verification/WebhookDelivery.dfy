/** Deduplication of webhook deliveries (src/github/webhook.ts, src/db/repositories.ts, src/queue/processors.ts). */
module WebhookDelivery {
  import opened Options
  import opened Text
  import opened Utf8
  import opened Utf8Stream

  datatype EventStatus = Queued | Processed | Errored

  /** The columns that deduplication reads, and the error text. */
  datatype Row = Row(payloadHash: string, status: EventStatus, errorSummary: Option<string>)

  /** The stored row after a record: on conflict the hash stays, and so does an error text that is not given. */
  function Recorded(row: Option<Row>, payloadHash: string, status: EventStatus, errorSummary: Option<string>): Row {
    if row.None? then Row(payloadHash, status, errorSummary)
    else Row(row.value.payloadHash, status, if errorSummary.Some? then errorSummary else row.value.errorSummary)
  }

  /** The guard in front of the queue. */
  predicate Suppressed(row: Option<Row>, payloadHash: string) {
    row.Some? && row.value.status != Errored && (row.value.status == Processed || row.value.payloadHash == payloadHash)
  }

  /** A request as the checks before deduplication see it. */
  datatype Request = Request(
    deliveryId: Option<string>, eventName: Option<string>, contentLength: Option<nat>,
    chunks: seq<Option<seq<Byte>>>, signatureOk: bool, jsonOk: bool)

  datatype Reply = MissingHeaders | TooLarge | InvalidSignature | InvalidJson | Duplicate | EnqueueFailed | Accepted

  /** All bytes of a body, absent chunks skipped. */
  function Body(chunks: seq<Option<seq<Byte>>>): seq<Byte> {
    if chunks == [] then []
    else
      var n := |chunks| - 1;
      Body(chunks[..n]) + if chunks[n].Some? then chunks[n].value else []
  }

  lemma {:induction false} BodyPrefix(chunks: seq<Option<seq<Byte>>>, n: nat)
    requires n <= |chunks|
    ensures |Body(chunks[..n])| <= |Body(chunks)|
    decreases |chunks|
  {
    if n < |chunks| {
      BodyPrefix(chunks[..|chunks| - 1], n);
      assert chunks[..|chunks| - 1][..n] == chunks[..n];
    } else {
      assert chunks[..n] == chunks;
    }
  }

  /** The reading loop gives up exactly on a body over the limit, and otherwise returns the text of all its bytes. */
  method ReadBodyWithLimit(stream: seq<Option<seq<Byte>>>, maxBytes: nat) returns (body: Option<string>)
    ensures body == if |Body(stream)| > maxBytes then None else Some(TextDecode(Body(stream)))
  {
    hide Decoded, DecodeSome, DecodeEnd, TextDecode;
    var decoder, total := NEW_DECODER, 0;
    var chunks: seq<string> := [];
    NothingDecoded();
    for i := 0 to |stream|
      invariant total == |Body(stream[..i])| <= maxBytes
      invariant Decoded(decoder, Body(stream[..i]), Join(chunks, ""))
    {
      assert stream[..i + 1][..i] == stream[..i];
      assert Body(stream[..i + 1]) == Body(stream[..i]) + if stream[i].Some? then stream[i].value else [];
      if stream[i].None? {
        assert Body(stream[..i + 1]) == Body(stream[..i]);
        continue;
      }
      var value := stream[i].value;
      total := total + |value|;
      if total > maxBytes {
        BodyPrefix(stream, i + 1);
        return None;
      }
      SomeDecoded(decoder, Body(stream[..i]), Join(chunks, ""), value);
      var decoded := DecodeSome(decoder, value);
      JoinMore(chunks, decoded.1);
      decoder, chunks := decoded.0, chunks + [decoded.1];
    }
    assert stream[..|stream|] == stream;
    var last := DropMark(decoder.started, DecodeEnd(decoder));
    WholeDecoded(decoder, Body(stream), Join(chunks, ""));
    JoinMore(chunks, last);
    return Some(Join(chunks + [last], ""));
  }

  lemma {:induction false} JoinMore(parts: seq<string>, part: string)
    ensures Join(parts + [part], "") == Join(parts, "") + part
  {
    if |parts| == 1 {
      assert (parts + [part])[1..] == [part];
    } else if parts != [] {
      assert (parts + [part])[1..] == parts[1..] + [part];
      JoinMore(parts[1..], part);
    }
  }

  const DEFAULT_MAX_BODY_BYTES := 1024 * 1024

  function MaxBytes(configured: Option<nat>): nat {
    if configured.Some? then configured.value else DEFAULT_MAX_BODY_BYTES
  }

  predicate IsAbsent(header: Option<string>) {
    header.None? || header.value == ""
  }

  /** The checks before deduplication; None lets the request through. */
  function Rejection(r: Request, configured: Option<nat>): Option<Reply> {
    if IsAbsent(r.deliveryId) || IsAbsent(r.eventName) then Some(MissingHeaders)
    else if r.contentLength.Some? && r.contentLength.value > MaxBytes(configured) then Some(TooLarge)
    else if |Body(r.chunks)| > MaxBytes(configured) then Some(TooLarge)
    else if !r.signatureOk then Some(InvalidSignature)
    else if !r.jsonOk then Some(InvalidJson)
    else None
  }

  // ----- what a delivery must be -----

  predicate HasHeaders(r: Request) {
    r.deliveryId.Some? && |r.deliveryId.value| > 0 && r.eventName.Some? && |r.eventName.value| > 0
  }

  /** Neither the announced nor the actual length exceeds the limit, one mebibyte unless configured. */
  predicate FitsLimit(r: Request, configured: Option<nat>) {
    var limit := match configured case Some(n) => n case None => 1_048_576;
    (r.contentLength.Some? ==> r.contentLength.value <= limit) && Length(r.chunks) <= limit
  }

  function Length(chunks: seq<Option<seq<Byte>>>): nat {
    if chunks == [] then 0
    else Length(chunks[..|chunks| - 1]) + match chunks[|chunks| - 1] case Some(bytes) => |bytes| case None => 0
  }

  predicate IsWellFormed(r: Request, configured: Option<nat>) {
    HasHeaders(r) && FitsLimit(r, configured) && r.signatureOk && r.jsonOk
  }

  lemma {:induction false} LengthOfBody(chunks: seq<Option<seq<Byte>>>)
    ensures Length(chunks) == |Body(chunks)|
  {
    if chunks != [] {
      LengthOfBody(chunks[..|chunks| - 1]);
    }
  }

  /** The body is the bytes of the chunks, one after the other. */
  lemma {:induction false} BodyConcat(a: seq<Option<seq<Byte>>>, b: seq<Option<seq<Byte>>>)
    ensures Body(a + b) == Body(a) + Body(b)
  {
    if b == [] {
      assert a + b == a;
    } else {
      assert (a + b)[..|a + b| - 1] == a + b[..|b| - 1];
      BodyConcat(a, b[..|b| - 1]);
    }
  }

  lemma BodyOfOne(bytes: seq<Byte>)
    ensures Body([Some(bytes)]) == bytes && Body([None]) == []
  {
    var none: seq<Option<seq<Byte>>> := [None];
    assert [Some(bytes)][..0] == [] && none[..0] == [];
  }

  /** What each refusal means, and which goes first. */
  lemma RejectionMeans(r: Request, configured: Option<nat>)
    ensures Rejection(r, configured) == None <==> IsWellFormed(r, configured)
    ensures Rejection(r, configured) == Some(MissingHeaders) <==> !HasHeaders(r)
    ensures Rejection(r, configured) == Some(TooLarge) <==> HasHeaders(r) && !FitsLimit(r, configured)
    ensures Rejection(r, configured) == Some(InvalidSignature) <==>
              HasHeaders(r) && FitsLimit(r, configured) && !r.signatureOk
    ensures Rejection(r, configured) == Some(InvalidJson) <==>
              HasHeaders(r) && FitsLimit(r, configured) && r.signatureOk && !r.jsonOk
  {
    LengthOfBody(r.chunks);
  }

  // ----- one delivery id -----

  /** `sendOk` says whether the queue takes the message. */
  datatype Step =
    | Deliver(payloadHash: string, sendOk: bool)
    | ProcessOk
    | ProcessError(summary: string)

  const PROCESSED_HASH := "processed"

  function Next(row: Option<Row>, step: Step): Option<Row> {
    match step
    case Deliver(hash, sendOk) =>
      if Suppressed(row, hash) then row
      else
        var queued := Recorded(row, hash, Queued, None);
        if sendOk then Some(queued) else Some(Recorded(Some(queued), hash, Errored, None))
    case ProcessOk => Some(Recorded(row, PROCESSED_HASH, Processed, None))
    case ProcessError(summary) => Some(Recorded(row, PROCESSED_HASH, Errored, Some(summary)))
  }

  predicate Enqueues(row: Option<Row>, step: Step) {
    step.Deliver? && step.sendOk && !Suppressed(row, step.payloadHash)
  }

  function ReplyTo(row: Option<Row>, step: Step): Reply
    requires step.Deliver?
  {
    if Suppressed(row, step.payloadHash) then Duplicate else if step.sendOk then Accepted else EnqueueFailed
  }

  class WebhookEvents {
    var rows: map<string, Row>
    /** Delivery ids of the messages the queue took. */
    var sent: seq<string>

    constructor ()
      ensures rows == map[] && sent == []
    {
      rows, sent := map[], [];
    }

    function RowOf(deliveryId: string): Option<Row>
      reads this
    {
      if deliveryId in rows then Some(rows[deliveryId]) else None
    }

    method RecordWebhookEvent(deliveryId: string, payloadHash: string, status: EventStatus,
                              errorSummary: Option<string>)
      modifies this`rows
      ensures rows == old(rows)[deliveryId := Recorded(old(RowOf(deliveryId)), payloadHash, status, errorSummary)]
      ensures rows[deliveryId].status == status
      ensures deliveryId !in old(rows) ==> rows[deliveryId] == Row(payloadHash, status, errorSummary)
      ensures deliveryId in old(rows) ==>
                && rows[deliveryId].payloadHash == old(rows)[deliveryId].payloadHash
                && rows[deliveryId].errorSummary
                   == if errorSummary.Some? then errorSummary else old(rows)[deliveryId].errorSummary
    {
      if deliveryId !in rows {
        rows := rows[deliveryId := Row(payloadHash, status, errorSummary)];
      } else {
        var row := rows[deliveryId];
        var summary := if errorSummary.Some? then errorSummary else row.errorSummary;
        rows := rows[deliveryId := Row(row.payloadHash, status, summary)];
      }
    }

    /** payloadHash is the digest of the body; sendOk is the queue's answer, if it is asked. */
    method HandleGitHubWebhook(request: Request, configured: Option<nat>, payloadHash: string, sendOk: bool)
      returns (reply: Reply)
      modifies this
      ensures Rejection(request, configured).Some? ==>
                reply == Rejection(request, configured).value && rows == old(rows) && sent == old(sent)
      ensures Rejection(request, configured).None? ==>
                var id, step := request.deliveryId.value, Deliver(payloadHash, sendOk);
                && reply == ReplyTo(old(RowOf(id)), step)
                && RowOf(id) == Next(old(RowOf(id)), step)
                && (forall other :: other != id ==> RowOf(other) == old(RowOf(other)))
                && sent == old(sent) + if Enqueues(old(RowOf(id)), step) then [id] else []
      ensures rows != old(rows) || sent != old(sent) ==> IsWellFormed(request, configured)
      ensures reply in {Duplicate, EnqueueFailed, Accepted} <==> IsWellFormed(request, configured)
      ensures reply == MissingHeaders <==> !HasHeaders(request)
      ensures reply == TooLarge <==> HasHeaders(request) && !FitsLimit(request, configured)
      ensures reply == InvalidSignature <==>
                HasHeaders(request) && FitsLimit(request, configured) && !request.signatureOk
      ensures reply == InvalidJson <==>
                HasHeaders(request) && FitsLimit(request, configured) && request.signatureOk && !request.jsonOk
    {
      RejectionMeans(request, configured);
      hide HasHeaders, FitsLimit;
      if IsAbsent(request.deliveryId) || IsAbsent(request.eventName) {
        return MissingHeaders;
      }
      var maxBodyBytes := MaxBytes(configured);
      if request.contentLength.Some? && request.contentLength.value > maxBodyBytes {
        return TooLarge;
      }
      var rawBody := ReadBodyWithLimit(request.chunks, maxBodyBytes);
      if rawBody.None? { return TooLarge; }
      if !request.signatureOk { return InvalidSignature; }
      if !request.jsonOk { return InvalidJson; }

      var deliveryId := request.deliveryId.value;
      if deliveryId in rows {
        var existing := rows[deliveryId];
        if existing.status != Errored && (existing.status == Processed || existing.payloadHash == payloadHash) {
          return Duplicate;
        }
      }
      RecordWebhookEvent(deliveryId, payloadHash, Queued, None);
      if !sendOk {
        RecordWebhookEvent(deliveryId, payloadHash, Errored, None);
        return EnqueueFailed;
      }
      sent := sent + [deliveryId];
      return Accepted;
    }

    /** What the queue consumer records about a message, once it has worked or failed. */
    method FinishProcessing(deliveryId: string, failure: Option<string>)
      modifies this`rows
      ensures RowOf(deliveryId)
              == Next(old(RowOf(deliveryId)), if failure.Some? then ProcessError(failure.value) else ProcessOk)
      ensures forall other :: other != deliveryId ==> RowOf(other) == old(RowOf(other))
    {
      if failure.Some? {
        RecordWebhookEvent(deliveryId, PROCESSED_HASH, Errored, failure);
      } else {
        RecordWebhookEvent(deliveryId, PROCESSED_HASH, Processed, None);
      }
    }
  }

  // ----- runs for one delivery id -----

  function RowAfter(steps: seq<Step>): Option<Row> {
    if steps == [] then None else Next(RowAfter(steps[..|steps| - 1]), steps[|steps| - 1])
  }

  predicate IsErrored(row: Option<Row>) {
    row.Some? && row.value.status == Errored
  }

  predicate IsQueued(row: Option<Row>) {
    row.Some? && row.value.status == Queued
  }

  predicate IsProcessed(row: Option<Row>) {
    row.Some? && row.value.status == Processed
  }

  /** Messages the queue has taken. */
  function Enqueued(steps: seq<Step>): nat {
    if steps == [] then 0
    else
      var n := |steps| - 1;
      Enqueued(steps[..n]) + if Enqueues(RowAfter(steps[..n]), steps[n]) then 1 else 0
  }

  /** A processing failure that turns another status into an error. */
  predicate MovesToError(row: Option<Row>, step: Step) {
    step.ProcessError? && !IsErrored(row)
  }

  function MovedToError(steps: seq<Step>): nat {
    if steps == [] then 0
    else
      var n := |steps| - 1;
      MovedToError(steps[..n]) + if MovesToError(RowAfter(steps[..n]), steps[n]) then 1 else 0
  }

  /** A delivery that gets past the guard while the row is queued: its payload is not the recorded one. */
  function OtherPayloads(steps: seq<Step>): nat {
    if steps == [] then 0
    else
      var n := |steps| - 1;
      var row := RowAfter(steps[..n]);
      OtherPayloads(steps[..n])
      + if IsQueued(row) && steps[n].Deliver? && !Suppressed(row, steps[n].payloadHash) then 1 else 0
  }

  /** A success that ends an error, or that comes before any delivery: its deliveries are not counted any more. */
  predicate Recovers(row: Option<Row>, step: Step) {
    step.ProcessOk? && (row.None? || IsErrored(row))
  }

  function Recoveries(steps: seq<Step>): nat {
    if steps == [] then 0
    else
      var n := |steps| - 1;
      Recoveries(steps[..n]) + if Recovers(RowAfter(steps[..n]), steps[n]) then 1 else 0
  }

  /** The next delivery would be enqueued whatever its payload: there is no row, or an errored one. */
  function Pending(row: Option<Row>): nat {
    if row.None? || IsErrored(row) then 1 else 0
  }

  /** A failure reported for an id that was never delivered. */
  function Unknown(steps: seq<Step>): nat {
    if steps != [] && steps[0].ProcessError? then 1 else 0
  }

  /**
   The first delivery, every failure and every other payload past a queued row allow one enqueue, which is made, is
   still pending, or was taken back by a recovery.
  */
  lemma {:induction false} EnqueueBalance(steps: seq<Step>)
    ensures Enqueued(steps) + Recoveries(steps) + Pending(RowAfter(steps)) + Unknown(steps)
            == 1 + MovedToError(steps) + OtherPayloads(steps)
  {
    if steps != [] {
      var n := |steps| - 1;
      EnqueueBalance(steps[..n]);
      if n == 0 { assert steps[..n] == []; } else { RowExists(steps[..n]); }
    }
  }

  lemma EnqueueBound(steps: seq<Step>)
    ensures Enqueued(steps) <= 1 + MovedToError(steps) + OtherPayloads(steps)
    ensures Enqueued(steps) <= 1 + MovedToError(steps)
            <==> OtherPayloads(steps) <= Recoveries(steps) + Pending(RowAfter(steps)) + Unknown(steps)
  {
    EnqueueBalance(steps);
  }

  /** All deliveries carry this payload. */
  predicate OnePayload(steps: seq<Step>, payloadHash: string) {
    forall i :: 0 <= i < |steps| && steps[i].Deliver? ==> steps[i].payloadHash == payloadHash
  }

  /** With one payload, delivered before anything is processed, no redelivery slips past a queued row. */
  lemma {:induction false} OnePayloadKeepsHash(steps: seq<Step>, payloadHash: string)
    requires OnePayload(steps, payloadHash) && (steps != [] ==> steps[0].Deliver?)
    ensures OtherPayloads(steps) == 0
    ensures RowAfter(steps).Some? ==> RowAfter(steps).value.payloadHash == payloadHash
  {
    if steps != [] {
      var n := |steps| - 1;
      OnePayloadKeepsHash(steps[..n], payloadHash);
      if n == 0 { assert steps[..n] == []; } else { RowExists(steps[..n]); }
    }
  }

  lemma RowExists(steps: seq<Step>)
    requires steps != []
    ensures RowAfter(steps).Some?
  {
  }

  lemma OnePayloadBound(steps: seq<Step>, payloadHash: string)
    requires OnePayload(steps, payloadHash) && (steps != [] ==> steps[0].Deliver?)
    ensures Enqueued(steps) + Recoveries(steps) + Pending(RowAfter(steps)) == 1 + MovedToError(steps)
    ensures Enqueued(steps) <= 1 + MovedToError(steps)
  {
    EnqueueBalance(steps);
    OnePayloadKeepsHash(steps, payloadHash);
  }

  /**
   A second payload under a queued id is never deduplicated against itself: the recorded hash stays the first
   one, so each of its deliveries is enqueued.
  */
  lemma {:induction false} OtherPayloadRepeats(first: string, other: string, times: nat)
    requires first != other
    ensures var steps := [Deliver(first, true)] + seq(times, _ => Deliver(other, true));
      && Enqueued(steps) == 1 + times && MovedToError(steps) == 0
      && RowAfter(steps) == Some(Row(first, Queued, None))
  {
    var steps := [Deliver(first, true)] + seq(times, _ => Deliver(other, true));
    if times == 0 {
      assert steps == [Deliver(first, true)] && steps[..0] == [];
    } else {
      OtherPayloadRepeats(first, other, times - 1);
      assert steps[..times] == [Deliver(first, true)] + seq(times - 1, _ => Deliver(other, true));
    }
  }

  /** From a processed row to an enqueue there is always a processing failure in between. */
  lemma {:induction false} ProcessedStaysOut(steps: seq<Step>, i: nat, j: nat) returns (k: nat)
    requires i <= j < |steps| && IsProcessed(RowAfter(steps[..i])) && Enqueues(RowAfter(steps[..j]), steps[j])
    ensures i <= k < j && MovesToError(RowAfter(steps[..k]), steps[k])
    decreases j - i
  {
    assert steps[..i + 1][..i] == steps[..i];
    if steps[i].ProcessError? {
      k := i;
    } else {
      k := ProcessedStaysOut(steps, i + 1, j);
    }
  }

  /** The last step about processing in steps[i..j], if there is one. */
  function LastProcessing(steps: seq<Step>, i: nat, j: nat): Option<Step>
    requires i <= j <= |steps|
  {
    if i == j then None
    else if !steps[j - 1].Deliver? then Some(steps[j - 1])
    else LastProcessing(steps, i, j - 1)
  }

  /**
   After a failed enqueue, with no delivery in between, the next redelivery is answered "duplicate" exactly when
   a message already in the queue was processed meanwhile, with nothing failing after it.
  */
  lemma {:induction false} RedeliveryAfterFailure(steps: seq<Step>, i: nat, j: nat)
    requires i < j < |steps| && steps[i].Deliver? && ReplyTo(RowAfter(steps[..i]), steps[i]) == EnqueueFailed
    requires steps[j].Deliver? && forall k :: i < k < j ==> !steps[k].Deliver?
    ensures ReplyTo(RowAfter(steps[..j]), steps[j]) == Duplicate <==> LastProcessing(steps, i + 1, j) == Some(ProcessOk)
  {
    StatusSince(steps, i, j);
  }

  /**
   One payload: its first message fails, the redelivery cannot be enqueued, and the retried first message then
   succeeds. The next redelivery is answered "duplicate", so a failed enqueue is not always retried.
  */
  lemma FailedEnqueueThenDuplicate(hash: string, summary: string)
    ensures var steps :=
              [Deliver(hash, true), ProcessError(summary), Deliver(hash, false), ProcessOk, Deliver(hash, true)];
      && ReplyTo(RowAfter(steps[..2]), steps[2]) == EnqueueFailed
      && ReplyTo(RowAfter(steps[..4]), steps[4]) == Duplicate
  {
    var none: seq<Step> := [];
    var one := [Deliver(hash, true)];
    var two := one + [ProcessError(summary)];
    var three := two + [Deliver(hash, false)];
    var four := three + [ProcessOk];
    var steps := four + [Deliver(hash, true)];
    assert steps[..4] == four && steps[..2] == two;
    assert four[..3] == three && three[..2] == two && two[..1] == one && one[..0] == none;
    assert RowAfter(one) == Some(Row(hash, Queued, None)) by { assert RowAfter(none) == None; }
    assert RowAfter(two) == Some(Row(hash, Errored, Some(summary)));
    assert RowAfter(three) == Some(Row(hash, Errored, Some(summary)));
    assert RowAfter(four) == Some(Row(hash, Processed, Some(summary)));
  }

  lemma {:induction false} StatusSince(steps: seq<Step>, i: nat, j: nat)
    requires i < j <= |steps| && steps[i].Deliver? && ReplyTo(RowAfter(steps[..i]), steps[i]) == EnqueueFailed
    requires forall k :: i < k < j ==> !steps[k].Deliver?
    ensures var row := RowAfter(steps[..j]);
      var status := if LastProcessing(steps, i + 1, j) == Some(ProcessOk) then Processed else Errored;
      row.Some? && row.value.status == status
    decreases j
  {
    assert steps[..j][..j - 1] == steps[..j - 1];
    if j > i + 1 {
      StatusSince(steps, i, j - 1);
    }
  }
}
