/**
 * Channel: the per-node queue machine. send only queues a request; a
 * processQueue tick writes up to 15 queued requests as length-prefixed
 * frames and moves them to the in-flight FIFO; each data event answers the
 * oldest in-flight request. The event loop, the connector and the socket
 * are replaced by explicit methods for the events they deliver, counters
 * for the callbacks they hold, and a log of the frames written.
 */
module Channels {
  import opened Wire
  import opened Errors
  import opened Binary
  import opened Types
  import opened SchemaParser
  import opened Api
  import opened Responses
  import opened Clusters

  /** A processing-queue entry: the request with its correlation id and client, and the handle of its promise. */
  datatype Pending = Pending(request: Request, correlation: PhpInt, client: seq<Byte>, handle: nat)

  /** An in-flight entry: the headers the request went out with, and the handle of its promise. */
  datatype InFlight = InFlight(headers: RequestHeaders, handle: nat)

  /** Most entries one processQueue pass handles. */
  const BATCH_LIMIT: nat := 15

  function HeadersOf(e: Pending): RequestHeaders {
    HeadersFor(e.request, e.correlation, e.client)
  }

  /**
   * sendMessage for an entry: the frame written, or the exception raised
   * first (building the header, the body or the length prefix, and only
   * then the missing connection).
   */
  function Dispatch(e: Pending, connected: bool): (r: Result<seq<Byte>>)
    ensures r.Success? ==> connected && Frame(HeadersOf(e), e.request) == r
    ensures !connected ==> r.Failure?
  {
    var frame :- Frame(HeadersOf(e), e.request);
    if !connected then Failure(ConnectionMissing) else Success(frame)
  }

  /** The in-flight entry a written processing-queue entry becomes. */
  function Moved(e: Pending): InFlight {
    InFlight(HeadersOf(e), e.handle)
  }

  /**
   * What one processQueue pass achieves: the entries moved in flight, the
   * frames written, what stays queued, and the exception that ended it.
   */
  datatype PassResult = PassResult(moved: seq<InFlight>, frames: seq<seq<Byte>>, remaining: seq<Pending>, failure: Option<Error>)

  /** What sendMessage gives for each entry, in order. */
  function Outcomes(queue: seq<Pending>, connected: bool): (r: seq<Result<seq<Byte>>>)
    ensures |r| == |queue|
  {
    seq(|queue|, i requires 0 <= i < |queue| => Dispatch(queue[i], connected))
  }

  /**
   * A pass over `queue`, whose entries' sendMessage give `outcomes`, that
   * handles at most `budget` entries in order: each is taken off the queue
   * and written; once written it moves in flight, and one whose
   * sendMessage raises is lost and ends the pass.
   */
  function PassOver(queue: seq<Pending>, outcomes: seq<Result<seq<Byte>>>, budget: nat): PassResult
    requires |outcomes| == |queue|
    decreases budget
  {
    if budget == 0 || queue == [] then PassResult([], [], queue, None)
    else
      match outcomes[0]
      case Failure(e) => PassResult([], [], queue[1..], Some(e))
      case Success(frame) =>
        var rest := PassOver(queue[1..], outcomes[1..], budget - 1);
        PassResult([Moved(queue[0])] + rest.moved, [frame] + rest.frames, rest.remaining, rest.failure)
  }

  /** One processQueue pass over `queue` with at most `budget` entries. */
  function PassOf(queue: seq<Pending>, budget: nat, connected: bool): PassResult {
    PassOver(queue, Outcomes(queue, connected), budget)
  }

  /**
   * A pass handles min(budget, count) entries, or stops early on the first
   * exception, which it reports; the entries after the last one handled
   * stay queued, and the one that raised is lost.
   */
  lemma {:induction false} PassOverShape(queue: seq<Pending>, outcomes: seq<Result<seq<Byte>>>, budget: nat)
    requires |outcomes| == |queue|
    ensures var p := PassOver(queue, outcomes, budget);
      var k := |p.moved|;
      && k == |p.frames| && k <= budget && k <= |queue|
      && (p.failure.None? ==> p.remaining == queue[k..] && (k == budget || k == |queue|))
      && (p.failure.Some? ==>
            && k < budget && k < |queue| && p.remaining == queue[k + 1..]
            && outcomes[k] == Failure(p.failure.value))
    decreases budget
  {
    if budget > 0 && queue != [] && outcomes[0].Success? {
      PassOverShape(queue[1..], outcomes[1..], budget - 1);
      var p := PassOver(queue, outcomes, budget);
      var k := |p.moved|;
      if p.failure.None? {
        assert queue[1..][k - 1..] == queue[k..];
      } else {
        assert queue[1..][k - 1] == queue[k] && queue[1..][k..] == queue[k + 1..];
        assert outcomes[1..][k - 1] == outcomes[k];
      }
    }
  }

  /** The entries a pass handles move in flight in queue order, each with the frame its sendMessage wrote. */
  lemma {:induction false} PassOverContents(queue: seq<Pending>, outcomes: seq<Result<seq<Byte>>>, budget: nat)
    requires |outcomes| == |queue|
    ensures var p := PassOver(queue, outcomes, budget);
      && |p.moved| == |p.frames| && |p.moved| <= |queue|
      && (forall i :: 0 <= i < |p.moved| ==> p.moved[i] == Moved(queue[i]) && outcomes[i] == Success(p.frames[i]))
    decreases budget
  {
    if budget > 0 && queue != [] && outcomes[0].Success? {
      PassOverContents(queue[1..], outcomes[1..], budget - 1);
      var p := PassOver(queue, outcomes, budget);
      forall i | 1 <= i < |p.moved|
        ensures p.moved[i] == Moved(queue[i]) && outcomes[i] == Success(p.frames[i])
      {
        assert queue[i] == queue[1..][i - 1] && outcomes[i] == outcomes[1..][i - 1];
      }
    }
  }

  /**
   * A processQueue pass moves and writes, in queue order, the entries
   * before the first one whose sendMessage raises, leaving the rest
   * queued; it stops after that entry, which is lost, or after
   * min(budget, count) entries.
   */
  lemma PassMeaning(queue: seq<Pending>, budget: nat, connected: bool)
    ensures var p := PassOf(queue, budget, connected);
      var k := |p.moved|;
      && k == |p.frames| && k <= budget && k <= |queue|
      && (forall i :: 0 <= i < k ==> p.moved[i] == Moved(queue[i]))
      && (forall i :: 0 <= i < k ==> Dispatch(queue[i], connected) == Success(p.frames[i]))
      && (p.failure.None? ==> p.remaining == queue[k..] && (k == budget || k == |queue|))
      && (p.failure.Some? ==>
            && k < budget && k < |queue| && p.remaining == queue[k + 1..]
            && Dispatch(queue[k], connected) == Failure(p.failure.value))
  {
    var outcomes := Outcomes(queue, connected);
    PassOverShape(queue, outcomes, budget);
    PassOverContents(queue, outcomes, budget);
    var p := PassOf(queue, budget, connected);
    forall i | 0 <= i < |p.moved|
      ensures Dispatch(queue[i], connected) == Success(p.frames[i])
    {
      assert outcomes[i] == Dispatch(queue[i], connected);
    }
  }

  /** The outcomes of a queue are its head's sendMessage followed by the outcomes of its tail. */
  lemma OutcomesOfTail(queue: seq<Pending>, connected: bool)
    requires queue != []
    ensures Outcomes(queue, connected)[0] == Dispatch(queue[0], connected)
    ensures Outcomes(queue, connected)[1..] == Outcomes(queue[1..], connected)
  {
    var all := Outcomes(queue, connected);
    var tail := Outcomes(queue[1..], connected);
    forall i | 0 <= i < |tail|
      ensures all[1..][i] == tail[i]
    {
      assert queue[1..][i] == queue[i + 1];
    }
  }

  /** Appending to a log in two steps is appending once. */
  lemma AppendTwice<T>(log: seq<T>, earlier: seq<T>, later: seq<T>)
    ensures log + earlier + later == log + (earlier + later)
  {
  }

  /** Writing one more entry carries a pass's running totals forward. */
  lemma PassStep(total: PassResult, moved: seq<InFlight>, sent: seq<seq<Byte>>,
                 queue: seq<Pending>, outcomes: seq<Result<seq<Byte>>>, budget: nat)
    requires |outcomes| == |queue| && budget > 0 && queue != [] && outcomes[0].Success?
    requires var rest := PassOver(queue, outcomes, budget);
      total == PassResult(moved + rest.moved, sent + rest.frames, rest.remaining, rest.failure)
    ensures var rest := PassOver(queue[1..], outcomes[1..], budget - 1);
      total == PassResult(moved + [Moved(queue[0])] + rest.moved,
                          sent + [outcomes[0].value] + rest.frames, rest.remaining, rest.failure)
  {
    var rest := PassOver(queue[1..], outcomes[1..], budget - 1);
    var frame := outcomes[0].value;
    assert moved + ([Moved(queue[0])] + rest.moved) == moved + [Moved(queue[0])] + rest.moved;
    assert sent + ([frame] + rest.frames) == sent + [frame] + rest.frames;
  }

  /**
   * The queues after pass `p` over a channel whose in-flight queue and
   * connection log held `inFlight0` and `written0`, and the outcome the pass
   * reports: the entries it moved and the frames it wrote are appended, what
   * it left is still to process, and it fails with its exception if any.
   */
  predicate Settled(p: PassResult, r: Outcome, inFlight0: seq<InFlight>, written0: seq<seq<Byte>>,
                    inFlight: seq<InFlight>, written: seq<seq<Byte>>, processing: seq<Pending>)
  {
    && inFlight == inFlight0 + p.moved && written == written0 + p.frames && processing == p.remaining
    && (p.failure.None? ==> r == Pass)
    && (p.failure.Some? ==> r == Fail(p.failure.value))
  }

  /** Once the budget is spent or the queue is empty, the running totals settle the pass. */
  lemma PassSettles(total: PassResult, moved: seq<InFlight>, sent: seq<seq<Byte>>,
                    queue: seq<Pending>, outcomes: seq<Result<seq<Byte>>>, budget: nat,
                    inFlight0: seq<InFlight>, written0: seq<seq<Byte>>,
                    inFlight: seq<InFlight>, written: seq<seq<Byte>>)
    requires |outcomes| == |queue| && (budget == 0 || queue == [])
    requires var rest := PassOver(queue, outcomes, budget);
      total == PassResult(moved + rest.moved, sent + rest.frames, rest.remaining, rest.failure)
    requires inFlight == inFlight0 + moved && written == written0 + sent
    ensures Settled(total, Pass, inFlight0, written0, inFlight, written, queue)
  {
    assert moved + [] == moved && sent + [] == sent;
  }

  /**
   * onData for a data event: an int32 length, exactly that many bytes,
   * and the in-flight headers' parseResponse of them. A negative length
   * is not refused: it shortens the payload (ShortenedPayload).
   */
  function Reply(h: RequestHeaders, data: seq<Byte>): (r: Result<MetadataResponse>) {
    var length :- TakeNumber(SignedInt, data, 0);
    if length.0 < 0 then ParseResponse(h, ShortenedPayload(data, length.0))
    else
      var payload :- Take(data, 4, length.0);
      ParseResponse(h, payload)
  }

  /**
   * What read(length) returns, with the cursor at 4, for a negative length:
   * nextIndex lets it through (the room check cannot fail) and moves the
   * cursor back, and PHP 8's substr from offset 4 leaves off the last
   * |length| bytes, or gives nothing once that cut reaches the offset.
   */
  function ShortenedPayload(data: seq<Byte>, length: int): (r: seq<Byte>)
    requires 4 <= |data| && length < 0
    ensures |r| == if |data| + length > 4 then |data| + length - 4 else 0
    ensures data[4..] == r + data[4 + |r|..]
  {
    if |data| + length > 4 then data[4..|data| + length] else []
  }

  /** sendMessage: build the frame, then write it to the connection, which must be there. */
  method SendMessage(e: Pending, connected: bool) returns (r: Result<seq<Byte>>)
    ensures r == Dispatch(e, connected)
  {
    r := FrameBytes(HeadersOf(e), e.request);
    if r.Success? && !connected {
      r := Failure(ConnectionMissing);
    }
  }

  /** sendMessage's buffers: the header's, the body's at the header's version, and the int32 length's. */
  method FrameBytes(h: RequestHeaders, request: Request) returns (r: Result<seq<Byte>>)
    ensures r == Frame(h, request)
  {
    FrameSteps(h, request);
    var header := ToBuffer(Parse(HEADER_DEFINITION), HeaderData(h));
    if header.Failure? {
      return Failure(header.error);
    }
    var body := RequestToBuffer(request, h.apiVersion);
    if body.Failure? {
      return Failure(body.error);
    }
    r := LengthPrefixed(header.value, body.value);
  }

  /** The int32 length buffer, written with the two lengths' sum, followed by both buffers' bytes. */
  method LengthPrefixed(header: Message, body: Message) returns (r: Result<seq<Byte>>)
    requires header.Valid() && body.Valid()
    ensures r == FrameOf(header.bytes, body.bytes)
  {
    var length := new Message.Allocate(4);
    ghost var zeros := length.bytes;
    var w := length.WriteInt(header.length + body.length);
    FrameOfSteps(header.bytes, body.bytes);
    if w.Fail? {
      return Failure(w.error);
    }
    SpliceWhole(zeros, Pack(header.length + body.length, 4));
    r := Success(length.bytes + header.bytes + body.bytes);
  }

  /** A frame is the header's bytes, then the body's, behind their int32 length, each step's failure its own. */
  lemma FrameSteps(h: RequestHeaders, r: Request)
    ensures HeaderBytes(h).Failure? ==> Frame(h, r) == Failure(HeaderBytes(h).error)
    ensures HeaderBytes(h).Success? && RequestBytes(r, h.apiVersion).Failure? ==>
      Frame(h, r) == Failure(RequestBytes(r, h.apiVersion).error)
    ensures HeaderBytes(h).Success? && RequestBytes(r, h.apiVersion).Success? ==>
      Frame(h, r) == FrameOf(HeaderBytes(h).value, RequestBytes(r, h.apiVersion).value)
  {
  }

  /** The length prefix is the one step of FrameOf that can fail. */
  lemma FrameOfSteps(header: seq<Byte>, body: seq<Byte>)
    ensures PutNumber(SignedInt, |header| + |body|, 4).Failure? ==>
      FrameOf(header, body) == Failure(PutNumber(SignedInt, |header| + |body|, 4).error)
    ensures PutNumber(SignedInt, |header| + |body|, 4).Success? ==>
      FrameOf(header, body) == Success(Pack(|header| + |body|, 4) + header + body)
  {
  }

  /** Writing over every byte of a buffer leaves exactly what was written. */
  lemma SpliceWhole(s: seq<Byte>, w: seq<Byte>)
    requires |s| == |w|
    ensures Splice(s, 0, w) == w
  {
  }

  /** onData's reading of one event: fromContent, readInt, read of that many bytes, parseResponse. */
  method ReadReply(h: RequestHeaders, data: seq<Byte>) returns (r: Result<MetadataResponse>)
    ensures r == Reply(h, data)
  {
    var buffer := new Message.FromContent(data);
    var length := buffer.ReadInt();
    if length.Failure? {
      return Failure(length.error);
    }
    if length.value < 0 {
      var shortened := new Message.FromContent(ShortenedPayload(data, length.value));
      r := ParseResponseFrom(h, shortened);
      return;
    }
    var payload := buffer.Read(length.value);
    if payload.Failure? {
      return Failure(payload.error);
    }
    var message := new Message.FromContent(payload.value);
    r := ParseResponseFrom(h, message);
  }

  // ------------------------------------------------------------ handles

  /** Strictly increasing, hence free of repeats. */
  ghost predicate Increasing(s: seq<nat>) {
    forall i, j :: 0 <= i < j < |s| ==> s[i] < s[j]
  }

  function InFlightHandles(q: seq<InFlight>): (r: seq<nat>)
    ensures |r| == |q|
  {
    seq(|q|, i requires 0 <= i < |q| => q[i].handle)
  }

  function PendingHandles(q: seq<Pending>): (r: seq<nat>)
    ensures |r| == |q|
  {
    seq(|q|, i requires 0 <= i < |q| => q[i].handle)
  }

  /** Taking one entry off a strictly increasing sequence keeps it strictly increasing, and adds nothing. */
  lemma RemoveOne(s: seq<nat>, j: nat)
    requires j < |s| && Increasing(s)
    ensures Increasing(s[..j] + s[j + 1..])
    ensures forall x :: x in s[..j] + s[j + 1..] ==> x in s
    ensures s[j] !in s[..j] + s[j + 1..]
  {
    var t := s[..j] + s[j + 1..];
    forall k | 0 <= k < |t|
      ensures t[k] == if k < j then s[k] else s[k + 1]
    {
    }
  }

  /** A handle above every queued one keeps the order when queued last. */
  lemma AppendKeepsOrder(before: seq<nat>, handle: nat)
    requires Increasing(before) && (forall h :: h in before ==> h < handle)
    ensures Increasing(before + [handle])
  {
    var s := before + [handle];
    forall i, j | 0 <= i < j < |s|
      ensures s[i] < s[j]
    {
      if j == |before| {
        assert s[i] in before;
      }
    }
  }

  /** Queuing an entry last appends its handle to the order. */
  lemma QueueAppend(a: seq<InFlight>, b: seq<Pending>, x: Pending)
    ensures InFlightHandles(a) + PendingHandles(b + [x]) == InFlightHandles(a) + PendingHandles(b) + [x.handle]
  {
    assert PendingHandles(b + [x]) == PendingHandles(b) + [x.handle];
  }

  /** Moving the head of the processing queue to the back of the in-flight queue keeps the handle order. */
  lemma MoveHead(a: seq<InFlight>, b: seq<Pending>, x: InFlight)
    requires b != [] && x.handle == b[0].handle
    ensures InFlightHandles(a + [x]) + PendingHandles(b[1..]) == InFlightHandles(a) + PendingHandles(b)
  {
    var lhs := InFlightHandles(a + [x]) + PendingHandles(b[1..]);
    var rhs := InFlightHandles(a) + PendingHandles(b);
    assert |lhs| == |rhs|;
    forall k | 0 <= k < |lhs|
      ensures lhs[k] == rhs[k]
    {
      if k < |a| {
      } else if k == |a| {
      } else {
        assert lhs[k] == b[1..][k - |a| - 1].handle;
      }
    }
  }

  /** Dropping the head of the processing queue is dropping one handle from the order. */
  lemma DropPendingHead(a: seq<InFlight>, b: seq<Pending>)
    requires b != []
    ensures var s := InFlightHandles(a) + PendingHandles(b);
      InFlightHandles(a) + PendingHandles(b[1..]) == s[..|a|] + s[|a| + 1..]
  {
    var s := InFlightHandles(a) + PendingHandles(b);
    var t := InFlightHandles(a) + PendingHandles(b[1..]);
    assert |t| == |s[..|a|] + s[|a| + 1..]|;
    forall k | 0 <= k < |t|
      ensures t[k] == (s[..|a|] + s[|a| + 1..])[k]
    {
      if k >= |a| {
        assert t[k] == b[1..][k - |a|].handle;
      }
    }
  }

  /** Dropping the head of the in-flight queue is dropping the first handle from the order. */
  lemma DropInFlightHead(a: seq<InFlight>, b: seq<Pending>)
    requires a != []
    ensures var s := InFlightHandles(a) + PendingHandles(b);
      InFlightHandles(a[1..]) + PendingHandles(b) == s[1..]
  {
    var s := InFlightHandles(a) + PendingHandles(b);
    var t := InFlightHandles(a[1..]) + PendingHandles(b);
    assert |t| == |s[1..]|;
    forall k | 0 <= k < |t|
      ensures t[k] == s[1..][k]
    {
      if k < |a| - 1 {
        assert t[k] == a[1..][k].handle;
      }
    }
  }

  /** Resolving the oldest handle keeps every other one unresolved, below the next handle, and in order. */
  lemma ResolveOldest(q: seq<nat>, resolved: map<nat, MetadataResponse>, next: nat, value: MetadataResponse)
    requires q != [] && Increasing(q)
    requires forall h :: h in q ==> h < next && h !in resolved
    requires forall h :: h in resolved ==> h < next
    ensures Increasing(q[1..])
    ensures forall h :: h in q[1..] ==> h < next && h !in resolved[q[0] := value] && h !in resolved
    ensures q[0] < next
  {
    forall h | h in q[1..]
      ensures h != q[0] && h in q
    {
      var k :| 0 <= k < |q[1..]| && q[1..][k] == h;
      assert q[k + 1] == h;
    }
    assert q[0] in q;
  }

  /** A frame-shaped data event is read as exactly its payload: the bytes after it are not looked at. */
  lemma ReplyReadsOneFrame(h: RequestHeaders, payload: seq<Byte>, extra: seq<Byte>)
    requires |payload| <= INT_MAX
    ensures Reply(h, Pack(|payload|, 4) + payload + extra) == ParseResponse(h, payload)
  {
    FrameReads(payload, extra);
  }

  /** A negative length prefix -n is read as the bytes after it without their last n. */
  lemma NegativePrefixShortens(h: RequestHeaders, n: int, payload: seq<Byte>)
    requires 0 < n <= INT_MAX + 1
    ensures Reply(h, Pack(-n, 4) + payload) ==
      ParseResponse(h, if |payload| > n then payload[..|payload| - n] else [])
  {
    var data := Pack(-n, 4) + payload;
    PrefixReads(Pack(-n, 4), payload, [], -n);
    assert Pack(-n, 4) + payload + [] == data;
    assert data[4..] == payload;
  }

  /** The length prefix of a frame reads back as the payload's length, and the payload follows it. */
  lemma FrameReads(payload: seq<Byte>, extra: seq<Byte>)
    requires |payload| <= INT_MAX
    ensures var data := Pack(|payload|, 4) + payload + extra;
      TakeNumber(SignedInt, data, 0) == Success((|payload|, 4)) && Take(data, 4, |payload|) == Success(payload)
  {
    var header := Pack(|payload|, 4);
    PrefixReads(header, payload, extra, |payload|);
    FramePieces(header, payload, extra);
  }

  /** An int32 written at the front of a frame reads back from there. */
  lemma PrefixReads(header: seq<Byte>, payload: seq<Byte>, extra: seq<Byte>, x: int)
    requires INT_MIN <= x <= INT_MAX && header == Pack(x, 4)
    ensures TakeNumber(SignedInt, header + payload + extra, 0) == Success((x, 4))
  {
    FittingNumber(SignedInt, x, 4);
    assert (header + payload + extra)[0..4] == header;
    NumberRoundTrip(SignedInt, x, 4, header + payload + extra, 0);
  }

  /** The pieces of a frame sit at their offsets. */
  lemma FramePieces(header: seq<Byte>, payload: seq<Byte>, extra: seq<Byte>)
    ensures (header + payload + extra)[0..|header|] == header
    ensures (header + payload + extra)[|header|..|header| + |payload|] == payload
  {
  }

  // ------------------------------------------------------------ the channel

  class Channel {
    /** The node this channel talks to. */
    const node: Node
    /** The processing queue, oldest first (the priority queue holds every entry at priority 0). */
    var processing: seq<Pending>
    /** The in-flight queue: written requests awaiting their response, oldest first. */
    var inFlight: seq<InFlight>
    /** Whether `connection` is set. */
    var connected: bool
    /** Every frame written to a connection, in write order. */
    var written: seq<seq<Byte>>
    /** Every address the connector was asked to dial, in order. */
    var dials: seq<string>
    /** Connect attempts whose promise has not settled yet. */
    var pendingConnects: nat
    /** Retry timers (one second) not yet fired. */
    var retryTimers: nat
    /** processQueue future ticks not yet run. */
    var ticks: nat
    /** Calls of end() on the connection. */
    var ends: nat
    /** The handle the next promise gets. */
    var nextHandle: nat
    /** The value each resolved promise was resolved with. */
    var resolved: map<nat, MetadataResponse>

    /** The handles of every unanswered request: in flight first, then queued. */
    ghost function Queued(): seq<nat>
      reads this
    {
      InFlightHandles(inFlight) + PendingHandles(processing)
    }

    /**
     * Every handle is waiting in exactly one place: the queues hold each
     * at most once, in the order the requests were sent, and none of them
     * is resolved yet.
     */
    ghost predicate Valid()
      reads this
    {
      && Increasing(Queued())
      && (forall h :: h in Queued() ==> h < nextHandle && h !in resolved)
      && (forall h :: h in resolved ==> h < nextHandle)
    }

    /** Queued requests on a live connection have a processQueue tick coming. */
    predicate Live()
      reads this
    {
      connected && |processing| > 0 ==> ticks > 0
    }

    constructor(node: Node)
      ensures Valid() && Live()
      ensures this.node == node
      ensures processing == [] && inFlight == [] && !connected && written == [] && dials == []
      ensures pendingConnects == 0 && retryTimers == 0 && ticks == 0 && ends == 0
      ensures nextHandle == 0 && resolved == map[]
    {
      this.node := node;
      processing := [];
      inFlight := [];
      connected := false;
      written := [];
      dials := [];
      pendingConnects := 0;
      retryTimers := 0;
      ticks := 0;
      ends := 0;
      nextHandle := 0;
      resolved := map[];
    }

    /** connect: dial `host:port`; the attempt settles later, as ConnectSucceeded or ConnectFailed. */
    method Connect()
      modifies this`pendingConnects, this`dials
      ensures pendingConnects == old(pendingConnects) + 1
      ensures dials == old(dials) + [Address(node.host, node.port)]
    {
      pendingConnects := pendingConnects + 1;
      dials := dials + [Address(node.host, node.port)];
    }

    /**
     * send: connect when there is no connection (even with an attempt
     * already under way), then queue the entry under a fresh handle.
     * Nothing is written, and nothing schedules processQueue: queued on a
     * live connection with no tick pending, the entry waits.
     */
    method Send(request: Request, correlation: PhpInt, client: seq<Byte>) returns (handle: nat)
      requires Valid()
      modifies this`processing, this`nextHandle, this`pendingConnects, this`dials
      ensures Valid()
      ensures handle == old(nextHandle) && nextHandle == old(nextHandle) + 1
      ensures processing == old(processing) + [Pending(request, correlation, client, handle)]
      ensures old(connected) ==> pendingConnects == old(pendingConnects) && dials == old(dials)
      ensures !old(connected) ==>
        pendingConnects == old(pendingConnects) + 1 && dials == old(dials) + [Address(node.host, node.port)]
      ensures old(Live()) && !old(connected) ==> Live()
      ensures old(connected) && old(ticks) == 0 ==> !Live()
    {
      if !connected {
        Connect();
      }
      handle := nextHandle;
      nextHandle := nextHandle + 1;
      QueueAppend(inFlight, processing, Pending(request, correlation, client, handle));
      AppendKeepsOrder(Queued(), handle);
      processing := processing + [Pending(request, correlation, client, handle)];
    }

    /** send as its evident intent requires: on a live connection it also schedules processQueue. */
    method SendScheduling(request: Request, correlation: PhpInt, client: seq<Byte>) returns (handle: nat)
      requires Valid()
      modifies this`processing, this`nextHandle, this`pendingConnects, this`dials, this`ticks
      ensures Valid()
      ensures handle == old(nextHandle) && nextHandle == old(nextHandle) + 1
      ensures processing == old(processing) + [Pending(request, correlation, client, handle)]
      ensures old(connected) ==>
        pendingConnects == old(pendingConnects) && dials == old(dials) && ticks == old(ticks) + 1
      ensures !old(connected) ==>
        pendingConnects == old(pendingConnects) + 1 && dials == old(dials) + [Address(node.host, node.port)]
        && ticks == old(ticks)
      ensures old(Live()) ==> Live()
    {
      if !connected {
        Connect();
      } else {
        ticks := ticks + 1;
      }
      handle := nextHandle;
      nextHandle := nextHandle + 1;
      QueueAppend(inFlight, processing, Pending(request, correlation, client, handle));
      AppendKeepsOrder(Queued(), handle);
      processing := processing + [Pending(request, correlation, client, handle)];
    }

    /** The connect promise rejected: connect again after one second. */
    method ConnectFailed()
      requires pendingConnects > 0
      modifies this`pendingConnects, this`retryTimers
      ensures pendingConnects == old(pendingConnects) - 1 && retryTimers == old(retryTimers) + 1
    {
      pendingConnects := pendingConnects - 1;
      retryTimers := retryTimers + 1;
    }

    /** The one-second retry timer fired: connect. */
    method RetryTimerFired()
      requires retryTimers > 0
      modifies this`retryTimers, this`pendingConnects, this`dials
      ensures retryTimers == old(retryTimers) - 1
      ensures pendingConnects == old(pendingConnects) + 1
      ensures dials == old(dials) + [Address(node.host, node.port)]
    {
      retryTimers := retryTimers - 1;
      Connect();
    }

    /** initializeConnection: store the connection and schedule one processQueue tick. */
    method ConnectSucceeded()
      requires pendingConnects > 0
      modifies this`pendingConnects, this`connected, this`ticks
      ensures pendingConnects == old(pendingConnects) - 1 && connected && ticks == old(ticks) + 1
      ensures Live()
    {
      pendingConnects := pendingConnects - 1;
      connected := true;
      ticks := ticks + 1;
    }

    /**
     * One step of processQueue: the oldest entry leaves the queue and
     * sendMessage writes it; written, it joins the in-flight queue.
     */
    method SendHead() returns (frame: Result<seq<Byte>>)
      requires Valid() && processing != []
      modifies this`processing, this`inFlight, this`written
      ensures Valid()
      ensures frame == Dispatch(old(processing)[0], connected)
      ensures processing == old(processing)[1..]
      ensures frame.Success? ==>
        && inFlight == old(inFlight) + [Moved(old(processing)[0])]
        && written == old(written) + [frame.value]
      ensures frame.Failure? ==> inFlight == old(inFlight) && written == old(written)
    {
      frame := SendMessage(processing[0], connected);
      TakeHead(frame);
    }

    /**
     * The oldest entry leaves the processing queue; written as `frame`, it
     * joins the in-flight queue and the frame the connection's log.
     */
    method TakeHead(frame: Result<seq<Byte>>)
      requires Valid() && processing != []
      modifies this`processing, this`inFlight, this`written
      ensures Valid() && processing == old(processing)[1..]
      ensures frame.Success? ==>
        && inFlight == old(inFlight) + [Moved(old(processing)[0])]
        && written == old(written) + [frame.value]
      ensures frame.Failure? ==> inFlight == old(inFlight) && written == old(written)
    {
      var entry := processing[0];
      if frame.Failure? {
        DropPendingHead(inFlight, processing);
        RemoveOne(Queued(), |inFlight|);
        processing := processing[1..];
        return;
      }
      MoveHead(inFlight, processing, Moved(entry));
      processing := processing[1..];
      written := written + [frame.value];
      inFlight := inFlight + [Moved(entry)];
    }

    /**
     * processQueue: nothing (and no new tick) on an empty queue; otherwise
     * min(15, count) entries in queue order, each taken off the queue,
     * written as a frame and appended to the in-flight queue, then a tick
     * for the next pass. An entry whose sendMessage raises is lost, and the
     * exception ends the pass.
     */
    method ProcessQueue() returns (r: Outcome)
      requires Valid()
      modifies this`processing, this`inFlight, this`written, this`ticks
      ensures Valid()
      ensures old(processing) == [] ==>
        r == Pass && processing == [] && inFlight == old(inFlight) && written == old(written) && ticks == old(ticks)
      ensures old(processing) != [] ==>
        var p := PassOf(old(processing), BATCH_LIMIT, connected);
        && inFlight == old(inFlight) + p.moved && written == old(written) + p.frames && processing == p.remaining
        && (p.failure.None? ==> r == Pass && ticks == old(ticks) + 1)
        && (p.failure.Some? ==> r == Fail(p.failure.value) && ticks == old(ticks))
      ensures old(Live()) && r.Pass? ==> Live()
    {
      if processing == [] {
        return Pass;
      }
      r := WriteBatch();
      if r.Pass? {
        ticks := ticks + 1;
      }
    }

    /** processQueue's loop over min(15, count) entries, ending early on the first exception. */
    method WriteBatch() returns (r: Outcome)
      requires Valid()
      modifies this`processing, this`inFlight, this`written
      ensures Valid()
      ensures Settled(PassOf(old(processing), BATCH_LIMIT, connected), r, old(inFlight), old(written),
                      inFlight, written, processing)
    {
      var max := if |processing| < BATCH_LIMIT then |processing| else BATCH_LIMIT;
      ghost var total := PassOf(processing, BATCH_LIMIT, connected);
      ghost var rest := Outcomes(processing, connected);
      ghost var moved: seq<InFlight> := [];
      ghost var sent: seq<seq<Byte>> := [];
      ghost var budget: nat := BATCH_LIMIT;
      PassStarts(total, rest);
      var i := 0;
      while i < max
        invariant 0 <= i <= max && |processing| == |old(processing)| - i && budget == BATCH_LIMIT - i
        invariant Midway(total, moved, sent, rest, budget, old(inFlight), old(written))
      {
        var frame;
        frame, moved, sent, rest, budget := PassEntry(total, moved, sent, rest, budget, old(inFlight), old(written));
        if frame.Failure? {
          return Fail(frame.error);
        }
        i := i + 1;
      }
      PassFinishes(total, moved, sent, rest, budget, old(inFlight), old(written));
      r := Pass;
    }

    /**
     * Part way through a pass that gives `total`: the entries moved and the
     * frames written so far are `moved` and `sent` on top of `inFlight0` and
     * `written0`, `rest` is what writing each entry still to process gives,
     * and the pass over those with `budget` entries left completes `total`.
     */
    ghost predicate Midway(total: PassResult, moved: seq<InFlight>, sent: seq<seq<Byte>>,
                           rest: seq<Result<seq<Byte>>>, budget: nat,
                           inFlight0: seq<InFlight>, written0: seq<seq<Byte>>)
      reads this
    {
      && Valid() && rest == Outcomes(processing, connected)
      && inFlight == inFlight0 + moved && written == written0 + sent
      && var after := PassOver(processing, rest, budget);
        total == PassResult(moved + after.moved, sent + after.frames, after.remaining, after.failure)
    }

    /** Before the first entry, the whole pass is still ahead. */
    lemma PassStarts(total: PassResult, rest: seq<Result<seq<Byte>>>)
      requires Valid() && total == PassOf(processing, BATCH_LIMIT, connected) && rest == Outcomes(processing, connected)
      ensures Midway(total, [], [], rest, BATCH_LIMIT, inFlight, written)
    {
      assert [] + total.moved == total.moved && [] + total.frames == total.frames;
    }

    /** With the budget spent or nothing left to process, the pass is settled and passes. */
    lemma PassFinishes(total: PassResult, moved: seq<InFlight>, sent: seq<seq<Byte>>,
                       rest: seq<Result<seq<Byte>>>, budget: nat,
                       inFlight0: seq<InFlight>, written0: seq<seq<Byte>>)
      requires Midway(total, moved, sent, rest, budget, inFlight0, written0) && (budget == 0 || processing == [])
      ensures Valid() && Settled(total, Pass, inFlight0, written0, inFlight, written, processing)
    {
      PassSettles(total, moved, sent, processing, rest, budget, inFlight0, written0, inFlight, written);
    }

    /**
     * One turn of processQueue's loop, with the pass's running totals: the
     * head entry is written, and the totals move on by that entry, or the
     * pass ends with its exception.
     */
    method PassEntry(ghost total: PassResult, ghost moved: seq<InFlight>, ghost sent: seq<seq<Byte>>,
                     ghost rest: seq<Result<seq<Byte>>>, ghost budget: nat,
                     ghost inFlight0: seq<InFlight>, ghost written0: seq<seq<Byte>>)
      returns (frame: Result<seq<Byte>>, ghost moved': seq<InFlight>, ghost sent': seq<seq<Byte>>,
               ghost rest': seq<Result<seq<Byte>>>, ghost budget': nat)
      requires processing != [] && budget > 0 && Midway(total, moved, sent, rest, budget, inFlight0, written0)
      modifies this`processing, this`inFlight, this`written
      ensures Valid() && processing == old(processing)[1..]
      ensures frame.Failure? ==> Settled(total, Fail(frame.error), inFlight0, written0, inFlight, written, processing)
      ensures frame.Success? ==>
        && moved' == moved + [Moved(old(processing)[0])] && sent' == sent + [frame.value] && budget' == budget - 1
        && Midway(total, moved', sent', rest', budget', inFlight0, written0)
    {
      ghost var queue := processing;
      OutcomesOfTail(queue, connected);
      frame := SendHead();
      if frame.Failure? {
        assert moved + [] == moved && sent + [] == sent;
        moved', sent', rest', budget' := moved, sent, rest, budget;
        return;
      }
      PassStep(total, moved, sent, queue, rest, budget);
      AppendTwice(inFlight0, moved, [Moved(queue[0])]);
      AppendTwice(written0, sent, [frame.value]);
      moved', sent', rest', budget' := moved + [Moved(queue[0])], sent + [frame.value], rest[1..], budget - 1;
    }

    /** A scheduled future tick runs processQueue. */
    method Tick() returns (r: Outcome)
      requires Valid() && ticks > 0
      modifies this`processing, this`inFlight, this`written, this`ticks
      ensures Valid()
      ensures old(processing) == [] ==>
        r == Pass && processing == [] && inFlight == old(inFlight) && written == old(written) && ticks == old(ticks) - 1
      ensures old(processing) != [] ==>
        var p := PassOf(old(processing), BATCH_LIMIT, connected);
        && inFlight == old(inFlight) + p.moved && written == old(written) + p.frames && processing == p.remaining
        && (p.failure.None? ==> r == Pass && ticks == old(ticks))
        && (p.failure.Some? ==> r == Fail(p.failure.value) && ticks == old(ticks) - 1)
      ensures old(Live()) && r.Pass? ==> Live()
    {
      ticks := ticks - 1;
      r := ProcessQueue();
    }

    /**
     * onData: the oldest in-flight entry is taken off the queue, whatever
     * follows; its promise is resolved with the response read from the
     * event, unless reading raises.
     */
    method DataArrived(data: seq<Byte>) returns (r: Outcome)
      requires Valid()
      modifies this`inFlight, this`resolved
      ensures Valid() && (old(Live()) ==> Live())
      ensures old(inFlight) == [] ==> r == Fail(EmptyInFlightQueue) && inFlight == [] && resolved == old(resolved)
      ensures old(inFlight) != [] ==>
        var entry := old(inFlight)[0];
        var reply := Reply(entry.headers, data);
        && inFlight == old(inFlight)[1..]
        && (reply.Success? ==> r == Pass && resolved == old(resolved)[entry.handle := reply.value])
        && (reply.Failure? ==> r == Fail(reply.error) && resolved == old(resolved))
    {
      if inFlight == [] {
        return Fail(EmptyInFlightQueue);
      }
      var entry := inFlight[0];
      DropInFlightHead(inFlight, processing);
      var response := ReadReply(entry.headers, data);
      ghost var value := if response.Success? then response.value else MetadataResponse(0, VNull, 0);
      ResolveOldest(Queued(), resolved, nextHandle, value);
      inFlight := inFlight[1..];
      if response.Failure? {
        return Fail(response.error);
      }
      resolved := resolved[entry.handle := response.value];
      r := Pass;
    }

    /** disconnect: end the connection if there is one; it closes later, as ConnectionClosed. */
    method Disconnect()
      modifies this`ends
      ensures ends == if connected then old(ends) + 1 else old(ends)
    {
      if connected {
        ends := ends + 1;
      }
    }

    /** cleanUpConnection, on the connection's close or error event: forget the connection, keep both queues. */
    method ConnectionClosed()
      modifies this`connected
      ensures !connected
      ensures Live()
    {
      connected := false;
    }
  }

  /** A pass over a single entry that sendMessage writes moves it in flight and empties the queue. */
  lemma OneEntryPass(e: Pending, connected: bool)
    requires Dispatch(e, connected).Success?
    ensures PassOf([e], BATCH_LIMIT, connected) == PassResult([Moved(e)], [Dispatch(e, connected).value], [], None)
  {
    OutcomesOfTail([e], connected);
    assert [e][1..] == [];
  }

  /** sendMessage of an ApiVersions request (correlation 1, client "t") on a connection writes its 15-byte frame. */
  lemma ApiVersionsDispatch(handle: nat)
    ensures Dispatch(Pending(ApiVersionsRequest, 1, [0x74], handle), true)
      == Success([0, 0, 0, 11, 0, 18, 0, 2, 0, 0, 0, 1, 0, 1, 0x74])
  {
    ApiVersionsFrame();
  }

  /** A new channel after one send and the connection made: the request queued, one tick scheduled. */
  method Connected(node: Node) returns (c: Channel, handle: nat)
    ensures fresh(c) && c.Valid()
    ensures c.connected && c.processing == [Pending(ApiVersionsRequest, 1, [0x74], handle)]
    ensures c.ticks == 1 && c.pendingConnects == 0
  {
    c := new Channel(node);
    handle := c.Send(ApiVersionsRequest, 1, [0x74]);
    c.ConnectSucceeded();
  }

  /**
   * A channel whose tick chain has ended: one request sent, the connection
   * made, the request written by the first tick, and the queue found empty
   * by the second, which schedules nothing.
   */
  method Drained(node: Node) returns (c: Channel)
    ensures fresh(c) && c.Valid()
    ensures c.connected && c.processing == [] && c.ticks == 0 && c.pendingConnects == 0
  {
    var handle;
    c, handle := Connected(node);
    ApiVersionsDispatch(handle);
    OneEntryPass(Pending(ApiVersionsRequest, 1, [0x74], handle), true);
    var pass := c.Tick();
    var idle := c.Tick();
  }

  /**
   * The stall: a request sent after the tick chain has found the queue
   * empty, on the same live connection, is queued with no tick to write it.
   */
  method StallScenario(node: Node) returns (c: Channel)
    ensures c.connected && |c.processing| == 1 && c.ticks == 0 && c.pendingConnects == 0
    ensures !c.Live()
  {
    c := Drained(node);
    var second := c.Send(ApiVersionsRequest, 2, [0x74]);
  }
}
