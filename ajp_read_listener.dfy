/**
 * The AJP read listener of the server: how the body of a forwarded request
 * is framed, the bookkeeping of the loop that reads one request packet
 * from the proxy, and the reply it sends to a CPing.
 */
module Ajp {
  import opened Wrappers
  import opened Bytes
  import opened Chars

  /** Packet type codes of the Apache JServ Protocol 1.3. */
  const ForwardRequest: byte := 2
  const CPongReplyCode: byte := 9
  const CPing: byte := 10

  // ---------------------------------------------------------------------
  // Request body policy
  // ---------------------------------------------------------------------

  /** How the body of a forwarded request is read. */
  datatype BodyPolicy =
    | UnknownLength         // a request conduit without a length: the body ends when the proxy says so
    | NoBody                // the request is terminated at once; its body is an empty stream
    | Bounded(length: int)  // a request conduit that delivers exactly `length` bytes

  /** Header value equality as `HttpString` has it: equal up to ASCII case. */
  predicate EqualsIgnoreCase(a: string, b: string)
    ensures EqualsIgnoreCase(a, b) ==> |a| == |b|
    ensures a == b ==> EqualsIgnoreCase(a, b)
  {
    |a| == |b| && forall i :: 0 <= i < |a| ==> LowerAscii(a[i]) == LowerAscii(b[i])
  }

  /** A Transfer-Encoding header is present and is not `identity`. */
  predicate HasCoding(transferEncoding: Option<string>) {
    transferEncoding.Some? && !EqualsIgnoreCase(transferEncoding.value, "identity")
  }

  /**
   * The request wrapper's decision, from the last Transfer-Encoding value
   * and the first Content-Length value (as a parsed number).
   */
  function Wrap(transferEncoding: Option<string>, contentLength: Option<int>): (p: BodyPolicy)
    ensures p.UnknownLength? <==> HasCoding(transferEncoding)
    ensures p.NoBody? <==> !HasCoding(transferEncoding) && (contentLength.None? || contentLength.value == 0)
    ensures p.Bounded? <==> !HasCoding(transferEncoding) && contentLength.Some? && contentLength.value != 0
    ensures p.Bounded? ==> p.length == contentLength.value
  {
    if HasCoding(transferEncoding) then UnknownLength
    else if contentLength.Some? then
      if contentLength.value == 0 then NoBody else Bounded(contentLength.value)
    else NoBody
  }

  /** The request is terminated (and the next one may start) exactly when there is no body. */
  predicate Terminates(p: BodyPolicy) {
    p.NoBody?
  }

  /** Under a transfer coding other than identity, Content-Length plays no part. */
  lemma ContentLengthIgnored(te: string, a: Option<int>, b: Option<int>)
    requires !EqualsIgnoreCase(te, "identity")
    ensures Wrap(Some(te), a) == Wrap(Some(te), b) == UnknownLength
    ensures !Terminates(Wrap(Some(te), a))
  {
  }

  /** A Transfer-Encoding of `identity`, in any case, counts as no Transfer-Encoding at all. */
  lemma IdentityIsNoCoding(te: string, cl: Option<int>)
    requires EqualsIgnoreCase(te, "identity")
    ensures Wrap(Some(te), cl) == Wrap(None, cl)
  {
  }

  /** A positive length bounds the body by exactly that many bytes; zero or none ends the request. */
  lemma LengthDecides(length: int)
    ensures length != 0 ==> Wrap(None, Some(length)) == Bounded(length)
    ensures Terminates(Wrap(None, Some(0))) && Terminates(Wrap(None, None))
    ensures Terminates(Wrap(Some("IDENTITY"), None))
  {
    assert EqualsIgnoreCase("IDENTITY", "identity");
  }

  // ---------------------------------------------------------------------
  // Packets sent to the proxy, and the CPong reply
  // ---------------------------------------------------------------------

  /** The two bytes that start every packet the server sends: 'A', 'B'. */
  const Magic: seq<byte> := [0x41, 0x42]

  /** A packet: the magic bytes, the payload length as two big-endian bytes, then the payload. */
  function EncodeFrame(payload: seq<byte>): (bs: seq<byte>)
    requires |payload| < 0x10000
    ensures |bs| == 4 + |payload| && bs[..2] == Magic && bs[4..] == payload
  {
    Magic + [|payload| / 256, |payload| % 256] + payload
  }

  /** A packet read off the front of a byte stream: its payload, and the bytes after it. */
  datatype Frame = Frame(payload: seq<byte>, rest: seq<byte>)

  /** The first packet of bs, or None when bs does not start with a whole packet. */
  function DecodeFrame(bs: seq<byte>): Option<Frame> {
    if |bs| < 4 || bs[..2] != Magic then None
    else
      var length := bs[2] as int * 256 + bs[3] as int;
      if |bs| < 4 + length then None else Some(Frame(bs[4..4 + length], bs[4 + length..]))
  }

  /** Reading back an encoded packet gives its payload, and leaves what follows it. */
  lemma DecodeEncode(payload: seq<byte>, rest: seq<byte>)
    requires |payload| < 0x10000
    ensures DecodeFrame(EncodeFrame(payload) + rest) == Some(Frame(payload, rest))
  {
    var bs := EncodeFrame(payload) + rest;
    assert bs[..2] == Magic;
    assert bs[2] as int * 256 + bs[3] as int == |payload|;
    assert bs[4..4 + |payload|] == payload;
    assert bs[4 + |payload|..] == rest;
  }

  /** Whatever reads as a packet is the encoding of its payload, followed by the rest. */
  lemma EncodeDecode(bs: seq<byte>)
    requires DecodeFrame(bs).Some?
    ensures var f := DecodeFrame(bs).value;
            |f.payload| < 0x10000 && bs == EncodeFrame(f.payload) + f.rest
  {
    var f := DecodeFrame(bs).value;
    var length := bs[2] as int * 256 + bs[3] as int;
    assert |f.payload| == length;
    assert bs == bs[..2] + [bs[2], bs[3]] + f.payload + f.rest;
  }

  /** The CPong reply as the listener declares it. */
  const CPong: seq<byte> := [0x41, 0x42, 0, 0, 0, 1, 9]

  /** The CPong reply of the Apache JServ Protocol 1.3: a packet whose one-byte payload is the code 9. */
  const CPongReply: seq<byte> := EncodeFrame([CPongReplyCode])

  /**
   * The reply as declared announces an empty payload, so the proxy reads a
   * packet without a type code, followed by three stray bytes.
   */
  lemma CPongAsWritten()
    ensures DecodeFrame(CPong) == Some(Frame([], [0, 1, 9]))
    ensures CPong != CPongReply
  {
    assert CPong[..2] == Magic;
    assert CPong[2] as int * 256 + CPong[3] as int == 0;
    assert CPong[4..4] == [] && CPong[4..] == [0, 1, 9];
    assert |CPong| != |CPongReply|;
  }

  /** The protocol's reply is five bytes long and reads back as exactly one CPong packet. */
  lemma CPongReplyReads()
    ensures CPongReply == [0x41, 0x42, 0, 1, 9]
    ensures DecodeFrame(CPongReply) == Some(Frame([CPongReplyCode], []))
  {
    DecodeEncode([CPongReplyCode], []);
    assert EncodeFrame([CPongReplyCode]) + [] == CPongReply;
  }

  // ---------------------------------------------------------------------
  // The read loop: reference definition
  // ---------------------------------------------------------------------

  /** What one read from the channel delivers: bytes (none when nothing is available), the end of the stream, or an I/O error. */
  datatype ReadResult = Data(bytes: seq<byte>) | EndOfStream | ReadError

  /** The packet parser's state, as far as the listener looks at it: whether a packet is complete, and its type code. */
  datatype ParseState = ParseState(complete: bool, prefix: int)

  /** A new parser state. */
  const FreshState := ParseState(false, 0)

  /** One call of the packet parser: its new state and how many bytes of the input it took. */
  datatype Parsed = Parsed(state: ParseState, consumed: nat)

  /**
   * What the listener relies on of the parser (which is not part of this
   * model): it takes a prefix of its input, and stops short of the end of
   * the input only when it has completed a packet.
   */
  ghost predicate ParserContract(parse: (ParseState, seq<byte>) -> Parsed) {
    forall st: ParseState, bs: seq<byte> ::
      parse(st, bs).consumed <= |bs| && (parse(st, bs).consumed < |bs| ==> parse(st, bs).state.complete)
  }

  /** How the read loop stops. */
  datatype Exit = NothingToRead | EndOfInput | ReadFailed | TooLarge | FrameComplete

  /**
   * Where the read loop stops: how, the parser state and byte count then,
   * the reads it did not take, the bytes left in the buffer, and whether
   * the buffer is kept as the connection's extra bytes.
   */
  datatype LoopEnd = LoopEnd(exit: Exit, state: ParseState, read: int, pending: seq<ReadResult>, left: seq<byte>, retained: bool)

  /** Whether a read delivers nothing: no result is pending, or it has no bytes. */
  predicate NothingPending(pending: seq<ReadResult>) {
    pending == [] || (pending[0].Data? && pending[0].bytes == [])
  }

  /**
   * Where one turn of the read loop leaves it: stopped (and how) or not,
   * the parser state, the count, the reads left, the bytes left in the
   * buffer and whether the buffer is kept as the connection's extra bytes.
   */
  datatype Turn = Turn(stop: Option<Exit>, state: ParseState, read: int, pending: seq<ReadResult>, left: seq<byte>, retained: bool)

  /** Where a turn's input comes from: bytes and the reads after them, or how the loop stops for lack of input. */
  datatype Source = Input(bytes: seq<byte>, rest: seq<ReadResult>) | NoInput(exit: Exit, rest: seq<ReadResult>)

  /**
   * A turn's input: the extra bytes left by the previous event when there
   * are some (`extra` is empty when there are none), otherwise the next
   * read; a read with no bytes, the end of the stream or an I/O error
   * stops the loop.
   */
  function Fetch(extra: seq<byte>, pending: seq<ReadResult>): (src: Source)
    ensures src.Input? ==> src.bytes != []
    ensures src.NoInput? ==> src.exit.NothingToRead? || src.exit.EndOfInput? || src.exit.ReadFailed?
    ensures |src.rest| == if extra != [] || pending == [] then |pending| else |pending| - 1
  {
    if extra != [] then Input(extra, pending)
    else if NothingPending(pending) then NoInput(NothingToRead, if pending == [] then [] else pending[1..])
    else if pending[0].EndOfStream? then NoInput(EndOfInput, pending[1..])
    else if pending[0].ReadError? then NoInput(ReadFailed, pending[1..])
    else Input(pending[0].bytes, pending[1..])
  }

  /**
   * The parse half of a turn: the parser takes bytes from the input, the
   * count grows by what it took, bytes left over keep the buffer (which
   * stops being the extra bytes once they are read), and the loop stops
   * when the count is over `max` or when a packet is complete.
   */
  function Consume(input: seq<byte>, rest: seq<ReadResult>, fromExtra: bool, st: ParseState, read: int,
                   retained: bool, max: int, parse: (ParseState, seq<byte>) -> Parsed): (t: Turn)
    requires ParserContract(parse)
    ensures t.pending == rest && read <= t.read && |input| == t.read - read + |t.left|
    ensures t.stop.None? ==> t.left == [] && t.retained == (!fromExtra && retained)
    ensures t.stop.Some? ==> t.stop.value.TooLarge? || t.stop.value.FrameComplete?
  {
    var p := parse(st, input);
    var left := input[p.consumed..];
    var read' := read + p.consumed;
    var stop := if read' > max then Some(TooLarge) else if p.state.complete then Some(FrameComplete) else None;
    Turn(stop, p.state, read', rest, left, (!fromExtra && retained) || left != [])
  }

  /** One turn of the read loop: it stops for lack of input, or consumes its input. */
  function Iteration(extra: seq<byte>, pending: seq<ReadResult>, st: ParseState, read: int,
                     retained: bool, max: int, parse: (ParseState, seq<byte>) -> Parsed): (t: Turn)
    requires ParserContract(parse)
    ensures t.stop.None? ==> |t.pending| + 1 <= |pending| + (if extra != [] then 1 else 0)
    ensures t.stop.None? ==> read <= t.read && t.left == [] && t.retained == (extra == [] && retained)
    ensures |t.pending| <= |pending|
  {
    match Fetch(extra, pending)
    case NoInput(exit, rest) => Turn(Some(exit), st, read, rest, [], retained)
    case Input(input, rest) => Consume(input, rest, extra != [], st, read, retained, max, parse)
  }

  /** The read loop: turns until one stops it. */
  function ReadLoop(extra: seq<byte>, pending: seq<ReadResult>, st: ParseState, read: int,
                    retained: bool, max: int, parse: (ParseState, seq<byte>) -> Parsed): LoopEnd
    requires ParserContract(parse)
    decreases |pending| + (if extra != [] then 1 else 0)
  {
    var t := Iteration(extra, pending, st, read, retained, max, parse);
    if t.stop.Some? then LoopEnd(t.stop.value, t.state, t.read, t.pending, t.left, t.retained)
    else ReadLoop([], t.pending, t.state, t.read, t.retained, max, parse)
  }

  /** How an event ends. */
  datatype Outcome =
    | Waiting                  // nothing to read: registered for the next read event
    | InputEnded               // the proxy closed its side: reads and writes shut down
    | Failed                   // an I/O error: the channel is closed
    | Oversized                // more bytes than allowed: the connection is closed
    | Rejected                 // a packet of an unknown type: the connection is closed
    | Dispatched(pinged: bool) // the exchange goes to the handler (after a CPong reply, when pinged)

  /** The event's outcome once the loop stopped: a complete packet dispatches when it is a request or a CPing. */
  function Decide(exit: Exit, prefix: int): (r: Outcome)
    ensures r.Dispatched? <==> exit.FrameComplete? && (prefix == ForwardRequest as int || prefix == CPing as int)
    ensures r.Dispatched? ==> (r.pinged <==> prefix == CPing as int)
    ensures r.Rejected? <==> exit.FrameComplete? && prefix != ForwardRequest as int && prefix != CPing as int
    ensures r.Waiting? <==> exit.NothingToRead?
    ensures r.Oversized? <==> exit.TooLarge?
  {
    match exit
    case NothingToRead => Waiting
    case EndOfInput => InputEnded
    case ReadFailed => Failed
    case TooLarge => Oversized
    case FrameComplete =>
      if prefix == ForwardRequest as int then Dispatched(false)
      else if prefix == CPing as int then Dispatched(true)
      else Rejected
  }

  /** The bytes the reads delivered, in order. */
  function Delivered(pending: seq<ReadResult>): seq<byte> {
    if pending == [] then []
    else (if pending[0].Data? then pending[0].bytes else []) + Delivered(pending[1..])
  }

  // ---------------------------------------------------------------------
  // The read loop: properties of the reference
  // ---------------------------------------------------------------------

  /**
   * The count only grows, and (starting within the limit) the loop stops
   * for too many bytes exactly when the count ends over the limit.
   */
  lemma {:induction false} LoopLimit(extra: seq<byte>, pending: seq<ReadResult>, st: ParseState, read: int,
                                     retained: bool, max: int, parse: (ParseState, seq<byte>) -> Parsed)
    requires ParserContract(parse) && read <= max
    ensures var end := ReadLoop(extra, pending, st, read, retained, max, parse);
            read <= end.read && (end.exit.TooLarge? <==> end.read > max)
    decreases |pending| + (if extra != [] then 1 else 0)
  {
    var t := Iteration(extra, pending, st, read, retained, max, parse);
    if t.stop.None? {
      LoopLimit([], t.pending, t.state, t.read, t.retained, max, parse);
    }
  }

  /**
   * Starting with no buffer kept, the buffer is kept at the end exactly
   * when bytes are left in it, and only once a packet is complete or the
   * limit is passed.
   */
  lemma {:induction false} LoopRetains(extra: seq<byte>, pending: seq<ReadResult>, st: ParseState, read: int,
                                       max: int, parse: (ParseState, seq<byte>) -> Parsed)
    requires ParserContract(parse)
    ensures var end := ReadLoop(extra, pending, st, read, false, max, parse);
            (end.retained <==> end.left != []) && (end.retained ==> end.exit.TooLarge? || end.exit.FrameComplete?)
    decreases |pending| + (if extra != [] then 1 else 0)
  {
    var t := Iteration(extra, pending, st, read, false, max, parse);
    if t.stop.None? {
      LoopRetains([], t.pending, t.state, t.read, max, parse);
    }
  }

  /**
   * Every byte delivered is either counted or still in the buffer: the
   * extra bytes the loop started from and the reads it took add up to what
   * the count grew by plus what is left.
   */
  lemma {:induction false} LoopAccounts(extra: seq<byte>, pending: seq<ReadResult>, st: ParseState, read: int,
                                        retained: bool, max: int, parse: (ParseState, seq<byte>) -> Parsed)
    requires ParserContract(parse)
    ensures var end := ReadLoop(extra, pending, st, read, retained, max, parse);
            var taken := |pending| - |end.pending|;
            0 <= taken && pending[taken..] == end.pending &&
            |extra| + |Delivered(pending[..taken])| == end.read - read + |end.left|
    decreases |pending| + (if extra != [] then 1 else 0)
  {
    var t := Iteration(extra, pending, st, read, retained, max, parse);
    TurnAccounts(extra, pending, st, read, retained, max, parse);
    if t.stop.None? {
      LoopAccounts([], t.pending, t.state, t.read, t.retained, max, parse);
      var end := ReadLoop([], t.pending, t.state, t.read, t.retained, max, parse);
      var k := |t.pending| - |end.pending|;
      assert |Delivered(t.pending[..k])| == end.read - t.read + |end.left|;
      if extra != [] {
        assert t.pending == pending && |extra| == t.read - read;
      } else {
        assert t.pending == pending[1..] && |Delivered(pending[..1])| == t.read - read;
        DeliveredOne(pending);
        DeliveredCons(pending, k);
      }
    }
  }

  /** What one turn takes from the reads, and how its count and buffer account for the bytes. */
  lemma TurnAccounts(extra: seq<byte>, pending: seq<ReadResult>, st: ParseState, read: int,
                     retained: bool, max: int, parse: (ParseState, seq<byte>) -> Parsed)
    requires ParserContract(parse)
    ensures var t := Iteration(extra, pending, st, read, retained, max, parse);
            var taken := |pending| - |t.pending|;
            taken == (if extra != [] || pending == [] then 0 else 1) && pending[taken..] == t.pending &&
            |extra| + |Delivered(pending[..taken])| == t.read - read + |t.left|
  {
    if extra != [] || pending == [] {
      assert pending[..0] == [];
    } else {
      DeliveredOne(pending);
    }
  }

  lemma DeliveredOne(pending: seq<ReadResult>)
    requires pending != []
    ensures Delivered(pending[..1]) == if pending[0].Data? then pending[0].bytes else []
  {
    assert pending[..1][1..] == [];
  }

  lemma DeliveredCons(pending: seq<ReadResult>, k: nat)
    requires pending != [] && k < |pending|
    ensures Delivered(pending[..k + 1]) == (if pending[0].Data? then pending[0].bytes else []) + Delivered(pending[1..][..k])
  {
    assert pending[..k + 1][1..] == pending[1..][..k];
  }

  /** The loop reports a complete packet only when the parser completed one. */
  lemma {:induction false} LoopComplete(extra: seq<byte>, pending: seq<ReadResult>, st: ParseState, read: int,
                                        retained: bool, max: int, parse: (ParseState, seq<byte>) -> Parsed)
    requires ParserContract(parse)
    ensures var end := ReadLoop(extra, pending, st, read, retained, max, parse);
            end.exit.FrameComplete? ==> end.state.complete
    decreases |pending| + (if extra != [] then 1 else 0)
  {
    var t := Iteration(extra, pending, st, read, retained, max, parse);
    if t.stop.None? {
      LoopComplete([], t.pending, t.state, t.read, t.retained, max, parse);
    }
  }

  /** A dispatched exchange comes from a complete request or CPing packet, within the limit. */
  lemma DispatchWithinLimit(extra: seq<byte>, pending: seq<ReadResult>, st: ParseState, read: int,
                            max: int, parse: (ParseState, seq<byte>) -> Parsed)
    requires ParserContract(parse) && read <= max
    ensures var end := ReadLoop(extra, pending, st, read, false, max, parse);
            Decide(end.exit, end.state.prefix).Dispatched? ==> end.read <= max && end.state.complete
  {
    LoopLimit(extra, pending, st, read, false, max, parse);
    LoopComplete(extra, pending, st, read, false, max, parse);
  }

  // ---------------------------------------------------------------------
  // The listener as the source runs it
  // ---------------------------------------------------------------------

  /** A pooled byte buffer: the bytes still to be read from it, and whether it went back to the pool. */
  class Buffer {
    var content: seq<byte>
    var freed: bool

    constructor ()
      ensures content == [] && !freed
    {
      content := [];
      freed := false;
    }
  }

  /**
   * The connection to the proxy: the buffer of bytes read but not yet
   * parsed that it keeps between events, whether it is closed, whether it
   * runs over TLS, and the bytes written to the proxy.
   */
  class Connection {
    var extraBytes: Buffer?
    var closed: bool
    const secure: bool
    var written: seq<byte>

    constructor (secure: bool)
      ensures extraBytes == null && !closed && this.secure == secure && written == []
      ensures Valid()
    {
      extraBytes := null;
      closed := false;
      this.secure := secure;
      written := [];
    }

    /** Extra bytes kept by the connection are never empty and never back in the pool. */
    ghost predicate Valid()
      reads this, extraBytes
    {
      extraBytes != null ==> extraBytes.content != [] && !extraBytes.freed
    }
  }

  /** The connection's source channel: the reads it will deliver, and whether reads are resumed, shut down or the channel closed. */
  class Channel {
    var pending: seq<ReadResult>
    var resumed: bool
    var shutDown: bool
    var closed: bool

    constructor (pending: seq<ReadResult>)
      ensures this.pending == pending && !resumed && !shutDown && !closed
    {
      this.pending := pending;
      resumed := false;
      shutDown := false;
      closed := false;
    }

    /** One read: the next pending result, or no bytes when none is pending. */
    method Read() returns (r: ReadResult)
      modifies this
      ensures old(pending) == [] ==> r == Data([]) && pending == []
      ensures old(pending) != [] ==> r == old(pending[0]) && pending == old(pending[1..])
      ensures resumed == old(resumed) && shutDown == old(shutDown) && closed == old(closed)
    {
      if pending == [] {
        r := Data([]);
      } else {
        r := pending[0];
        pending := pending[1..];
      }
    }
  }

  /** The HTTP exchange a request packet fills. */
  class Request {
    var scheme: string
    var persistent: bool
    var started: bool

    constructor ()
      ensures scheme == [] && !persistent && !started
    {
      scheme := [];
      persistent := false;
      started := false;
    }
  }

  /** The read listener of one AJP connection. */
  class Listener {
    var read: int
    var state: Option<ParseState>
    var exchange: Request?
    const connection: Connection
    const maxRequestSize: int

    constructor (connection: Connection, maxRequestSize: int)
      ensures this.connection == connection && this.maxRequestSize == maxRequestSize
      ensures read == 0 && state == Some(FreshState) && exchange != null && fresh(exchange)
    {
      this.connection := connection;
      this.maxRequestSize := maxRequestSize;
      read := 0;
      state := Some(FreshState);
      exchange := new Request();
    }

    /** The extra bytes the connection keeps (none when it keeps no buffer). */
    ghost function Extra(): seq<byte>
      reads this, connection, connection.extraBytes
    {
      if connection.extraBytes == null then [] else connection.extraBytes.content
    }

    /**
     * One read event: reads and parses until a packet is complete, then
     * dispatches a request (and answers a CPing, falling through to the
     * same dispatch) or closes the connection on any other packet type.
     * `buffer` is the pooled buffer the event worked in, and `end` where
     * its read loop stopped.
     */
    method HandleEvent(channel: Channel, parse: (ParseState, seq<byte>) -> Parsed)
      returns (outcome: Outcome, ghost buffer: Buffer, ghost end: LoopEnd)
      requires ParserContract(parse)
      requires connection.Valid() && state.Some? && exchange != null
      modifies this, connection, channel, exchange, connection.extraBytes
      ensures connection.Valid()
      ensures end == ReadLoop(old(Extra()), old(channel.pending), old(state.value), old(read), false, maxRequestSize, parse)
      ensures outcome == Decide(end.exit, end.state.prefix)
      ensures read == end.read && channel.pending == end.pending && buffer.content == end.left
      ensures connection.extraBytes == (if end.retained then buffer else null) && buffer.freed == !end.retained
      ensures old(connection.extraBytes) != null ==> buffer == old(connection.extraBytes)
      ensures old(connection.extraBytes) == null ==> fresh(buffer)
      ensures connection.closed == (old(connection.closed) || outcome.Oversized? || outcome.Rejected?)
      ensures channel.closed == (old(channel.closed) || outcome.Failed?)
      ensures channel.shutDown == (old(channel.shutDown) || outcome.InputEnded?)
      ensures channel.resumed == if outcome.Waiting? then true else if outcome.Dispatched? then false else old(channel.resumed)
      ensures connection.written == old(connection.written) + (if outcome == Dispatched(true) then CPong else [])
      ensures outcome.Dispatched? ==>
                state.None? && exchange == null && old(exchange).persistent && old(exchange).started &&
                old(exchange).scheme == if connection.secure then "https" else "http"
      ensures !outcome.Dispatched? ==> state == Some(end.state) && exchange == old(exchange) && unchanged(old(exchange))
    {
      var existing := connection.extraBytes;
      var pooled: Buffer;
      if existing == null {
        pooled := new Buffer();
      } else {
        pooled := existing;
      }
      buffer := pooled;
      var exit, free;
      exit, free, end := ReadFrame(channel, pooled, existing, parse);
      LoopRetains(if existing != null then old(pooled.content) else [], old(channel.pending), old(state.value), old(read),
                  maxRequestSize, parse);
      outcome := Conclude(channel, exit);
      if free {
        pooled.freed := true;
      }
    }

    /**
     * After the read loop: a complete request packet is dispatched, a
     * complete CPing packet is answered and then dispatched the same way,
     * any other complete packet closes the connection.
     */
    method Conclude(channel: Channel, exit: Exit) returns (outcome: Outcome)
      requires state.Some? && exchange != null
      modifies this, connection, channel, exchange
      ensures outcome == Decide(exit, old(state.value.prefix))
      ensures read == old(read) && connection.extraBytes == old(connection.extraBytes)
      ensures channel.pending == old(channel.pending) && channel.closed == old(channel.closed) && channel.shutDown == old(channel.shutDown)
      ensures connection.closed == (old(connection.closed) || outcome.Rejected?)
      ensures channel.resumed == if outcome.Dispatched? then false else old(channel.resumed)
      ensures connection.written == old(connection.written) + (if outcome == Dispatched(true) then CPong else [])
      ensures outcome.Dispatched? ==>
                state.None? && exchange == null && old(exchange).persistent && old(exchange).started &&
                old(exchange).scheme == if connection.secure then "https" else "http"
      ensures !outcome.Dispatched? ==> state == old(state) && exchange == old(exchange) && unchanged(old(exchange))
    {
      var prefix := state.value.prefix;
      if exit != FrameComplete {
        outcome := match exit
          case NothingToRead => Waiting
          case EndOfInput => InputEnded
          case ReadFailed => Failed
          case _ => Oversized;
      } else if prefix != ForwardRequest as int && prefix != CPing as int {
        connection.closed := true;
        outcome := Rejected;
      } else {
        var ex := exchange;
        var pinged := prefix == CPing as int;
        if pinged {
          HandleCPing(channel);
        }
        channel.resumed := false;
        ex.scheme := if connection.secure then "https" else "http";
        state := None;
        exchange := null;
        ex.persistent := true;
        ex.started := true;
        outcome := Dispatched(pinged);
      }
    }

    /** The CPing answer: a fresh parser state, reads suspended, and the declared CPong bytes written. */
    method HandleCPing(channel: Channel)
      modifies this, connection, channel
      ensures state == Some(FreshState) && !channel.resumed
      ensures connection.written == old(connection.written) + CPong
      ensures read == old(read) && exchange == old(exchange)
      ensures connection.extraBytes == old(connection.extraBytes) && connection.closed == old(connection.closed)
      ensures channel.pending == old(channel.pending) && channel.shutDown == old(channel.shutDown) && channel.closed == old(channel.closed)
    {
      state := Some(FreshState);
      channel.resumed := false;
      connection.written := connection.written + CPong;
    }

    /**
     * The read loop of `HandleEvent`, run in `pooled`, which is the
     * connection's extra bytes when `existing` names them. `free` is false
     * once the buffer is kept as the connection's extra bytes.
     */
    method ReadFrame(channel: Channel, pooled: Buffer, existing: Buffer?, parse: (ParseState, seq<byte>) -> Parsed)
      returns (exit: Exit, free: bool, ghost end: LoopEnd)
      requires ParserContract(parse)
      requires connection.Valid() && state.Some? && connection.extraBytes == existing
      requires existing != null ==> pooled == existing
      requires existing == null ==> !pooled.freed
      modifies this, connection, channel, pooled
      ensures end == ReadLoop(if existing != null then old(pooled.content) else [], old(channel.pending), old(state.value),
                              old(read), false, maxRequestSize, parse)
      ensures state.Some? && end == LoopEnd(exit, state.value, read, channel.pending, pooled.content, !free)
      ensures connection.extraBytes == (if free then null else pooled)
      ensures !pooled.freed && exchange == old(exchange)
      ensures connection.closed == (old(connection.closed) || exit == TooLarge)
      ensures channel.closed == (old(channel.closed) || exit == ReadFailed)
      ensures channel.shutDown == (old(channel.shutDown) || exit == EndOfInput)
      ensures channel.resumed == (old(channel.resumed) || exit == NothingToRead)
      ensures connection.written == old(connection.written)
    {
      end := ReadLoop(if existing != null then pooled.content else [], channel.pending, state.value,
                      read, false, maxRequestSize, parse);
      var extraNow := existing != null;
      free := true;
      var stop: Option<Exit> := None;
      while stop.None?
        invariant state.Some? && !pooled.freed && exchange == old(exchange)
        invariant extraNow ==> stop.None? && pooled.content != [] && connection.extraBytes == pooled && free
        invariant !extraNow ==> connection.extraBytes == (if free then null else pooled)
        invariant stop.None? ==> ReadLoop(if extraNow then pooled.content else [], channel.pending, state.value,
                                          read, !free, maxRequestSize, parse) == end
        invariant stop.Some? ==> LoopEnd(stop.value, state.value, read, channel.pending, pooled.content, !free) == end
        invariant connection.closed == (old(connection.closed) || stop == Some(TooLarge))
        invariant channel.closed == (old(channel.closed) || stop == Some(ReadFailed))
        invariant channel.shutDown == (old(channel.shutDown) || stop == Some(EndOfInput))
        invariant channel.resumed == (old(channel.resumed) || stop == Some(NothingToRead))
        invariant connection.written == old(connection.written)
        decreases if stop.None? then 1 else 0, |channel.pending| + (if extraNow then 1 else 0)
      {
        stop, free := ReadTurn(channel, pooled, extraNow, free, parse);
        extraNow := false;
      }
      exit := stop.value;
    }

    /**
     * One turn of the read loop, in `pooled`; `extraNow` says whether the
     * buffer still holds the connection's extra bytes, unread. `stop` is
     * how the loop stops, if it does.
     */
    method ReadTurn(channel: Channel, pooled: Buffer, extraNow: bool, free: bool, parse: (ParseState, seq<byte>) -> Parsed)
      returns (stop: Option<Exit>, free': bool)
      requires ParserContract(parse) && state.Some?
      requires extraNow ==> pooled.content != [] && connection.extraBytes == pooled && free
      requires !extraNow ==> connection.extraBytes == (if free then null else pooled)
      modifies this, connection, channel, pooled
      ensures state.Some? &&
              Turn(stop, state.value, read, channel.pending, pooled.content, !free')
              == Iteration(if extraNow then old(pooled.content) else [], old(channel.pending), old(state.value),
                           old(read), !free, maxRequestSize, parse)
      ensures connection.extraBytes == (if free' then null else pooled)
      ensures exchange == old(exchange) && pooled.freed == old(pooled.freed)
      ensures connection.closed == (old(connection.closed) || stop == Some(TooLarge))
      ensures channel.closed == (old(channel.closed) || stop == Some(ReadFailed))
      ensures channel.shutDown == (old(channel.shutDown) || stop == Some(EndOfInput))
      ensures channel.resumed == (old(channel.resumed) || stop == Some(NothingToRead))
      ensures connection.written == old(connection.written)
    {
      var src := FetchInput(channel, pooled, extraNow);
      if src.NoInput? {
        stop, free' := Some(src.exit), free;
      } else {
        stop, free' := ConsumeInput(pooled, src.bytes, extraNow, free, parse);
      }
    }

    /** The input of a turn: the buffer's extra bytes, or else what the next read put in the emptied buffer. */
    method FetchInput(channel: Channel, pooled: Buffer, extraNow: bool) returns (src: Source)
      requires extraNow ==> pooled.content != []
      modifies channel, pooled
      ensures src == Fetch(if extraNow then old(pooled.content) else [], old(channel.pending))
      ensures channel.pending == src.rest && pooled.content == (if extraNow then old(pooled.content) else [])
      ensures pooled.freed == old(pooled.freed)
      ensures channel.closed == (old(channel.closed) || src == NoInput(ReadFailed, src.rest))
      ensures channel.shutDown == (old(channel.shutDown) || src == NoInput(EndOfInput, src.rest))
      ensures channel.resumed == (old(channel.resumed) || src == NoInput(NothingToRead, src.rest))
    {
      if extraNow {
        return Input(pooled.content, channel.pending);
      }
      pooled.content := [];
      var res := channel.Read();
      if res == EndOfStream {
        channel.shutDown := true;
        src := NoInput(EndOfInput, channel.pending);
      } else if res == ReadError {
        channel.closed := true;
        src := NoInput(ReadFailed, channel.pending);
      } else if res.bytes == [] {
        channel.resumed := true;
        src := NoInput(NothingToRead, channel.pending);
      } else {
        src := Input(res.bytes, channel.pending);
      }
    }

    /**
     * The parse half of a turn: the parser runs over `input`, the count
     * grows by what it took, and a buffer with bytes left becomes the
     * connection's extra bytes (after the extra bytes it held were taken
     * off the connection); too many bytes close the connection.
     */
    method ConsumeInput(pooled: Buffer, input: seq<byte>, extraNow: bool, free: bool, parse: (ParseState, seq<byte>) -> Parsed)
      returns (stop: Option<Exit>, free': bool)
      requires ParserContract(parse) && state.Some?
      requires extraNow ==> connection.extraBytes == pooled && free
      requires !extraNow ==> connection.extraBytes == (if free then null else pooled)
      modifies this, connection, pooled
      ensures state.Some? &&
              Turn(stop, state.value, read, [], pooled.content, !free')
              == Consume(input, [], extraNow, old(state.value), old(read), !free, maxRequestSize, parse)
      ensures connection.extraBytes == (if free' then null else pooled)
      ensures exchange == old(exchange) && pooled.freed == old(pooled.freed)
      ensures connection.closed == (old(connection.closed) || stop == Some(TooLarge))
      ensures connection.written == old(connection.written)
    {
      if extraNow {
        connection.extraBytes := null;
      }
      var p := parse(state.value, input);
      pooled.content := input[p.consumed..];
      read := read + p.consumed;
      state := Some(p.state);
      free' := free;
      if pooled.content != [] {
        free' := false;
        connection.extraBytes := pooled;
      }
      if read > maxRequestSize {
        connection.closed := true;
        stop := Some(TooLarge);
      } else if p.state.complete {
        stop := Some(FrameComplete);
      } else {
        stop := None;
      }
    }
  }
}
