/** The line transport: a capped line reader over input that arrives in chunks of
    any size, and the request loop that answers each line. */
module Stdio {
  import opened Prelude
  import opened Utf8

  // ------------------------------------------------------------------ input

  datatype Ending = EndOfInput | ReadError

  /** Buffered input: what was read and not consumed, the reads to come, and how they end. */
  class Reader {
    var available: Bytes
    var coming: seq<Chunk>
    const ending: Ending

    constructor (chunks: seq<Chunk>, ending: Ending)
      ensures Rest() == Concat(chunks) && this.ending == ending
    {
      available, coming, this.ending := [], chunks, ending;
    }

    /** Every byte that is still to be consumed. */
    function Rest(): Bytes
      reads this
    {
      available + Concat(coming)
    }

    /** Reads again only when everything was consumed; None is a read error. */
    method FillBuf() returns (r: Option<Bytes>)
      modifies this
      ensures Rest() == old(Rest())
      ensures r.Some? ==> r.value == available && r.value <= Rest()
      ensures r.Some? && r.value == [] ==> Rest() == [] && ending == EndOfInput
      ensures r.None? ==> Rest() == [] && ending == ReadError
    {
      if available == [] {
        if coming == [] {
          return if ending == ReadError then None else Some([]);
        }
        available, coming := coming[0], coming[1..];
      }
      r := Some(available);
    }

    method Consume(n: nat)
      requires n <= |available|
      modifies this
      ensures Rest() == old(Rest())[n..]
    {
      assert Rest()[n..] == available[n..] + Concat(coming);
      available := available[n..];
    }
  }

  // ---------------------------------------------------------- specification

  datatype LineRead = Line(text: Bytes) | Eof | TooLong | Failed

  /** The first line of the input, with its newline, when it fits into `max` bytes. */
  function FirstLine(input: Bytes, ending: Ending, max: nat): LineRead {
    var i := IndexOf(input, NEWLINE);
    if i < |input| then (if i + 1 > max then TooLong else Line(input[..i + 1]))
    else if |input| > max then TooLong
    else if ending == ReadError then Failed
    else if input == [] then Eof
    else Line(input)
  }

  /** The lines of the input up to the first that is too long, and how the run ends. */
  function Frames(input: Bytes, ending: Ending, max: nat): (seq<Bytes>, LineRead)
    decreases |input|
  {
    match FirstLine(input, ending, max)
    case Line(text) =>
      var rest := Frames(input[|text|..], ending, max);
      ([text] + rest.0, rest.1)
    case stop => ([], stop)
  }

  // ------------------------------------------------------------- the reader

  /** `longest` is the most that the line buffer ever held. */
  method ReadLineCapped(reader: Reader, max: nat) returns (r: LineRead, ghost longest: nat)
    modifies reader
    ensures r == FirstLine(old(reader.Rest()), reader.ending, max)
    ensures r.Line? ==> reader.Rest() == old(reader.Rest())[|r.text|..]
    ensures longest <= max
  {
    hide FirstLine, Reader.Rest;
    var buffer: Bytes := [];
    longest := 0;
    ghost var input := reader.Rest();
    assert [] + input == input;
    while true
      invariant input == buffer + reader.Rest()
      invariant NEWLINE !in buffer
      invariant |buffer| <= longest <= max
      decreases |reader.Rest()|
    {
      var available := reader.FillBuf();
      ghost var rest := reader.Rest();
      if available.None? {
        InputEnds(buffer, reader.ending, max);
        return Failed, longest;
      }
      var bytes := available.value;
      if bytes == [] {
        InputEnds(buffer, reader.ending, max);
        return if buffer == [] then Eof else Line(buffer), longest;
      }
      var index := IndexOf(bytes, NEWLINE);
      if index < |bytes| {
        LineEnds(buffer, bytes, rest, reader.ending, max);
        reader.Consume(index + 1);
        if |buffer| + index + 1 > max {
          return TooLong, longest;
        }
        buffer := buffer + bytes[..index + 1];
        longest := if |buffer| > longest then |buffer| else longest;
        return Line(buffer), longest;
      }
      LineGoesOn(buffer, bytes, rest, reader.ending, max);
      reader.Consume(|bytes|);
      if |buffer| + |bytes| > max {
        return TooLong, longest;
      }
      buffer := buffer + bytes;
      longest := if |buffer| > longest then |buffer| else longest;
    }
  }

  /** At the end of input the buffer is the last line, if there is one. */
  lemma InputEnds(buffer: Bytes, ending: Ending, max: nat)
    requires NEWLINE !in buffer && |buffer| <= max
    ensures FirstLine(buffer + [], ending, max) ==
            if ending == ReadError then Failed else if buffer == [] then Eof else Line(buffer)
    ensures (buffer + [])[|buffer|..] == []
  {
    assert buffer + [] == buffer;
    IndexPast(buffer, NEWLINE, |buffer|);
  }

  /** A newline among the buffered bytes ends the line. */
  lemma LineEnds(buffer: Bytes, bytes: Bytes, rest: Bytes, ending: Ending, max: nat)
    requires NEWLINE !in buffer && IndexOf(bytes, NEWLINE) < |bytes| && bytes <= rest
    ensures var line := buffer + bytes[..IndexOf(bytes, NEWLINE) + 1];
            && FirstLine(buffer + rest, ending, max) == (if |line| > max then TooLong else Line(line))
            && (buffer + rest)[|line|..] == rest[IndexOf(bytes, NEWLINE) + 1..]
  {
    var index := IndexOf(bytes, NEWLINE);
    IndexExact(bytes, rest, NEWLINE, index);
    IndexAfter(buffer, rest, NEWLINE);
    CutInto(buffer, rest, index + 1);
    assert rest[..index + 1] == bytes[..index + 1];
  }

  /** Bytes without a newline go to the buffer as long as it stays small enough. */
  lemma LineGoesOn(buffer: Bytes, bytes: Bytes, rest: Bytes, ending: Ending, max: nat)
    requires NEWLINE !in buffer && IndexOf(bytes, NEWLINE) == |bytes| && bytes <= rest
    ensures NEWLINE !in buffer + bytes
    ensures |buffer + bytes| > max ==> FirstLine(buffer + rest, ending, max) == TooLong
    ensures buffer + rest == (buffer + bytes) + rest[|bytes|..]
  {
    var more := rest[|bytes|..];
    assert rest == bytes + more;
    Assoc(buffer, bytes, more);
    assert bytes[..|bytes|] == bytes;
    IndexAfter(buffer + bytes, more, NEWLINE);
  }

  lemma {:induction false} IndexPast(s: Bytes, b: byte, k: nat)
    requires k <= |s| && b !in s[..k]
    ensures IndexOf(s, b) >= k
  {
    if k > 0 {
      assert s[..k][0] == s[0];
      assert s[1..][..k - 1] == s[..k][1..];
      IndexPast(s[1..], b, k - 1);
    }
  }

  /** Extending a string leaves its first occurrence where it is. */
  lemma {:induction false} IndexExact(s: Bytes, t: Bytes, b: byte, i: nat)
    requires s <= t && i == IndexOf(s, b) < |s|
    ensures IndexOf(t, b) == i
  {
    assert t[0] == s[0];
    if i > 0 {
      assert s[1..] <= t[1..];
      IndexExact(s[1..], t[1..], b, i - 1);
    }
  }

  // --------------------------------------------------------- what a frame is

  /** One whole line: a newline at its end and nowhere else. */
  predicate WholeLine(line: Bytes) {
    line != [] && line[|line| - 1] == NEWLINE && NEWLINE !in line[..|line| - 1]
  }

  /** One line of the input; only the last one can lack its newline. */
  predicate LineOf(line: Bytes, atEnd: bool) {
    WholeLine(line) || (atEnd && line != [] && NEWLINE !in line)
  }

  /** Frame `k` of `lines` is one line of at most `max` bytes. */
  predicate FrameAt(lines: seq<Bytes>, k: nat, last: bool, max: nat)
    requires k < |lines|
  {
    |lines[k]| <= max && LineOf(lines[k], last && k == |lines| - 1)
  }

  predicate AllFrames(lines: seq<Bytes>, last: bool, max: nat) {
    forall k :: 0 <= k < |lines| ==> FrameAt(lines, k, last, max)
  }

  lemma FrameInFront(line: Bytes, tail: seq<Bytes>, last: bool, max: nat)
    requires AllFrames(tail, last, max) && |line| <= max && LineOf(line, last && tail == [])
    ensures AllFrames([line] + tail, last, max)
  {
    hide LineOf;
    var lines := [line] + tail;
    forall k | 0 <= k < |lines|
      ensures FrameAt(lines, k, last, max)
    {
      assert k > 0 ==> FrameAt(tail, k - 1, last, max);
    }
  }

  lemma NoFrames(ending: Ending, max: nat)
    ensures Frames([], ending, max).0 == []
  {
  }

  /** The frames, put together, are the front of the input; each is one line of at
      most `max` bytes; and the run stops for the reason that the rest shows. */
  lemma {:induction false} FramesMeaning(input: Bytes, ending: Ending, max: nat) returns (rest: Bytes)
    ensures var (lines, stop) := Frames(input, ending, max);
            && input == Concat(lines) + rest
            && AllFrames(lines, rest == [] && ending == EndOfInput, max)
            && StopsFor(rest, ending, max, stop)
    decreases |input|
  {
    hide FirstLine, StopsFor, LineOf, AllFrames;
    var first := FirstLine(input, ending, max);
    if first.Line? {
      FirstIsLine(input, ending, max);
      var line, more := first.text, input[|first.text|..];
      rest := FramesMeaning(more, ending, max);
      var tail := Frames(more, ending, max).0;
      assert Frames(input, ending, max).0 == [line] + tail;
      Assoc(line, Concat(tail), rest);
      assert ([line] + tail)[1..] == tail;
      NoFrames(ending, max);
      LastOrWhole(line, more == [] && ending == EndOfInput);
      FrameInFront(line, tail, rest == [] && ending == EndOfInput, max);
    } else {
      rest := input;
      assert [] + input == input;
      StopReason(input, ending, max);
      NothingFramed(rest == [] && ending == EndOfInput, max);
    }
  }

  lemma NothingFramed(last: bool, max: nat)
    ensures AllFrames([], last, max)
  {
  }

  lemma LastOrWhole(line: Bytes, atEnd: bool)
    requires LineOf(line, atEnd)
    ensures atEnd || LineOf(line, false)
    ensures LineOf(line, false) ==> LineOf(line, true)
  {
  }

  /** Why a run ends in front of `rest`. */
  predicate StopsFor(rest: Bytes, ending: Ending, max: nat, stop: LineRead) {
    match stop
    case Line(_) => false
    case Eof => rest == [] && ending == EndOfInput
    case Failed => NEWLINE !in rest && |rest| <= max && ending == ReadError
    case TooLong => |rest| > max && NEWLINE !in rest[..max]
  }

  lemma StopReason(input: Bytes, ending: Ending, max: nat)
    requires !FirstLine(input, ending, max).Line?
    ensures StopsFor(input, ending, max, FirstLine(input, ending, max))
  {
    var i := IndexOf(input, NEWLINE);
    assert input[..|input|] == input;
    assert i >= max && |input| >= max ==> input[..max] == input[..i][..max];
  }

  lemma FirstIsLine(input: Bytes, ending: Ending, max: nat)
    requires FirstLine(input, ending, max).Line?
    ensures var line := FirstLine(input, ending, max).text;
            0 < |line| <= |input| && |line| <= max && line == input[..|line|]
            && LineOf(line, line == input && ending == EndOfInput)
  {
    var i := IndexOf(input, NEWLINE);
    assert input[..|input|] == input;
    assert i < |input| ==> input[..i + 1][..i] == input[..i];
  }

  // ------------------------------------------------------------- JSON-RPC 2.0

  datatype Json =
    | Null
    | Bool(flag: bool)
    | Number(value: int)
    | String(chars: Bytes)
    | Array(items: seq<Json>)
    | Object(fields: map<Bytes, Json>)

  datatype Request = Request(methodName: Bytes, params: Option<Json>, id: Option<Json>)

  datatype Body = Success(result: Json) | Failure(code: int)

  datatype Response = Response(id: Option<Json>, body: Body)

  datatype Parsed = Blank | Malformed | Value(json: Json)

  datatype Outcome = Done(result: Json) | Rejected(code: int) | TimedOut

  /** The code around the transport: JSON parsing, and the work done for request number `k`. */
  datatype Service = Service(parse: Bytes -> Parsed, handle: (nat, Request) -> Outcome)

  const PARSE_ERROR := -32700
  const INVALID_PARAMS := -32602
  const FILESYSTEM_ERROR := -32000

  /** "jsonrpc", "2.0", "method", "params" and "id" */
  const JSONRPC: Bytes := [0x6A, 0x73, 0x6F, 0x6E, 0x72, 0x70, 0x63]
  const TWO: Json := String([0x32, 0x2E, 0x30])
  const METHOD: Bytes := [0x6D, 0x65, 0x74, 0x68, 0x6F, 0x64]
  const PARAMS: Bytes := [0x70, 0x61, 0x72, 0x61, 0x6D, 0x73]
  const ID: Bytes := [0x69, 0x64]

  function Field(fields: map<Bytes, Json>, name: Bytes): Option<Json> {
    if name in fields then Some(fields[name]) else None
  }

  function RequestOf(v: Json): Option<Request> {
    if !v.Object? || Field(v.fields, JSONRPC) != Some(TWO) then None
    else
      match Field(v.fields, METHOD)
      case Some(String(name)) =>
        var id := Field(v.fields, ID);
        if name == [] || (id.Some? && !(id.value.String? || id.value.Number? || id.value.Null?)) then None
        else Some(Request(name, Field(v.fields, PARAMS), id))
      case _ => None
  }

  function RequestIn(line: Bytes, service: Service): Option<Request> {
    match service.parse(line)
    case Value(v) => RequestOf(v)
    case _ => None
  }

  /** The answer to line `k`, or None for a notification: a request object without
      an id member (section 4.1 of JSON-RPC 2.0). */
  function Reply(line: Bytes, k: nat, service: Service): Option<Response> {
    match RequestIn(line, service)
    case None => Some(Response(None, Failure(PARSE_ERROR)))
    case Some(request) =>
      if request.id.None? then None
      else
        match service.handle(k, request)
        case Done(result) => Some(Response(request.id, Success(result)))
        case Rejected(code) => Some(Response(request.id, Failure(code)))
        case TimedOut => Some(Response(request.id, Failure(FILESYSTEM_ERROR)))
  }

  // ------------------------------------------------- what a request has to say

  /** The bytes of an ASCII text. */
  function Ascii(s: string): Bytes {
    seq(|s|, i requires 0 <= i < |s| => s[i] as int % 128)
  }

  /** The member of a JSON object with this name. */
  function Member(v: Json, name: string): Option<Json> {
    if v.Object? && Ascii(name) in v.fields then Some(v.fields[Ascii(name)]) else None
  }

  /** A request object of section 4 of JSON-RPC 2.0, with a method that is not empty and,
      if it has an id, a string, a number or null for it. */
  predicate IsRequest(v: Json) {
    && Member(v, "jsonrpc") == Some(String(Ascii("2.0")))
    && Member(v, "method").Some? && Member(v, "method").value.String? && Member(v, "method").value.chars != []
    && var id := Member(v, "id");
    id.Some? ==> id.value.String? || id.value.Number? || id.value.Null?
  }

  /** A request without an id (section 4.1 of JSON-RPC 2.0). */
  predicate IsNotification(line: Bytes, service: Service) {
    var parsed := service.parse(line);
    parsed.Value? && IsRequest(parsed.json) && Member(parsed.json, "id").None?
  }

  /** What an answer to line `k` has to be. A request is answered under its own id: by the
      result of the work, by the error code of the work, or by -32000 when time is up. A
      line that is no request is answered without an id and by -32700. */
  predicate IsAnswer(line: Bytes, k: nat, service: Service, a: Response) {
    var parsed := service.parse(line);
    if parsed.Value? && IsRequest(parsed.json) then
      var v := parsed.json;
      && a.id == Member(v, "id")
      && match service.handle(k, Request(Member(v, "method").value.chars, Member(v, "params"), Member(v, "id")))
         case Done(result) => a.body == Success(result)
         case Rejected(code) => a.body == Failure(code)
         case TimedOut => a.body == Failure(-32000)
    else a == Response(None, Failure(-32700))
  }

  lemma NamesSpelled()
    ensures Ascii("jsonrpc") == JSONRPC && String(Ascii("2.0")) == TWO
    ensures Ascii("method") == METHOD && Ascii("params") == PARAMS && Ascii("id") == ID
  {
  }

  /** A parsed value is read as a request exactly when it is one, member by member. */
  lemma RequestOfMeaning(v: Json)
    ensures RequestOf(v).Some? <==> IsRequest(v)
    ensures RequestOf(v).Some? ==>
              && Member(v, "method") == Some(String(RequestOf(v).value.methodName))
              && RequestOf(v).value.params == Member(v, "params")
              && RequestOf(v).value.id == Member(v, "id")
  {
    NamesSpelled();
    hide Ascii;
  }

  /** A notification leaves the output as it is; any other line, well-formed or not, adds
      exactly one answer behind what was written before. */
  method ProcessOneLine(line: Bytes, k: nat, service: Service, written: seq<Response>) returns (r: seq<Response>)
    ensures written <= r && |r| == |written| + if IsNotification(line, service) then 0 else 1
    ensures !IsNotification(line, service) ==> IsAnswer(line, k, service, r[|written|])
    ensures r == match Reply(line, k, service) { case None => written case Some(a) => written + [a] }
  {
    ReplyMeaning(line, k, service);
    hide IsNotification, IsAnswer;
    var request := RequestIn(line, service);
    var response: Response;
    if request.Some? {
      var outcome := service.handle(k, request.value);
      match outcome {
        case Done(result) => response := Response(request.value.id, Success(result));
        case Rejected(code) => response := Response(request.value.id, Failure(code));
        case TimedOut => response := Response(request.value.id, Failure(FILESYSTEM_ERROR));
      }
      if request.value.id.None? {
        return written;
      }
    } else {
      response := Response(None, Failure(PARSE_ERROR));
    }
    r := written + [response];
  }

  /** The answers to the first `k` lines. */
  function Answers(lines: seq<Bytes>, k: nat, service: Service): seq<Response>
    requires k <= |lines|
  {
    if k == 0 then []
    else
      match Reply(lines[k - 1], k - 1, service)
      case None => Answers(lines, k - 1, service)
      case Some(a) => Answers(lines, k - 1, service) + [a]
  }

  /** The whole run: every line of the input up to the first that is too long is
      processed in order, and a line that is too long is answered with one error. */
  method RunStdio(reader: Reader, max: nat, service: Service)
    returns (written: seq<Response>, ghost longest: nat)
    modifies reader
    ensures var (lines, stop) := Frames(old(reader.Rest()), reader.ending, max);
            written == Answers(lines, |lines|, service)
                       + (if stop == TooLong then [Response(None, Failure(-32602))] else [])
    ensures longest <= max
  {
    hide FirstLine, Reader.Rest, Reply, IsNotification, IsAnswer, RequestIn;
    ghost var input := reader.Rest();
    ghost var (lines, stop) := Frames(input, reader.ending, max);
    written, longest := [], 0;
    var k := 0;
    while true
      invariant k <= |lines| && Frames(reader.Rest(), reader.ending, max) == (lines[k..], stop)
      invariant written == Answers(lines, k, service)
      invariant longest <= max
      decreases |lines| - k
    {
      ghost var before := reader.Rest();
      var line, size := ReadLineCapped(reader, max);
      longest := if size > longest then size else longest;
      match line {
        case Eof => break;
        case Line(text) =>
          assert lines[k..][0] == text && lines[k..][1..] == lines[k + 1..];
          written := ProcessOneLine(text, k, service, written);
          k := k + 1;
        case TooLong =>
          written := written + [Response(None, Failure(INVALID_PARAMS))];
          break;
        case Failed => break;
      }
    }
    assert k == |lines|;
  }

  /** How many of the first `k` lines call for an answer. */
  function Answerable(lines: seq<Bytes>, k: nat, service: Service): nat
    requires k <= |lines|
  {
    if k == 0 then 0
    else Answerable(lines, k - 1, service) + if IsNotification(lines[k - 1], service) then 0 else 1
  }

  /** Line `k` is answered by the answer at the place of its rank among the lines that
      call for one. */
  predicate AnsweredAt(lines: seq<Bytes>, k: nat, answers: seq<Response>, service: Service)
    requires k < |lines|
  {
    var rank := Answerable(lines, k, service);
    && rank < |answers|
    && IsAnswer(lines[k], k, service, answers[rank])
  }

  lemma {:induction false} AnswersCounted(lines: seq<Bytes>, n: nat, service: Service)
    requires n <= |lines|
    ensures |Answers(lines, n, service)| == Answerable(lines, n, service)
  {
    if n > 0 {
      AnswersCounted(lines, n - 1, service);
      ReplyMeaning(lines[n - 1], n - 1, service);
      hide Reply, IsNotification;
    }
  }

  /** There are as many answers as lines that call for one, and every line but a
      notification has its answer at its own place in the order. */
  lemma {:induction false} AnsweredOnceInOrder(lines: seq<Bytes>, n: nat, k: nat, service: Service)
    requires k < n <= |lines| && !IsNotification(lines[k], service)
    ensures |Answers(lines, n, service)| == Answerable(lines, n, service)
    ensures AnsweredAt(lines, k, Answers(lines, n, service), service)
  {
    hide Reply, IsNotification, IsAnswer, RequestIn, Answerable;
    AnswersCounted(lines, n, service);
    if k < n - 1 {
      AnsweredOnceInOrder(lines, n - 1, k, service);
      assert Answers(lines, n - 1, service) <= Answers(lines, n, service);
    } else {
      AnswersCounted(lines, k, service);
      ReplyMeaning(lines[k], k, service);
    }
  }

  lemma ReplyMeaning(line: Bytes, k: nat, service: Service)
    ensures Reply(line, k, service).None? <==> IsNotification(line, service)
    ensures Reply(line, k, service).Some? ==> IsAnswer(line, k, service, Reply(line, k, service).value)
  {
    var parsed := service.parse(line);
    if parsed.Value? {
      RequestOfMeaning(parsed.json);
    }
    hide RequestOf, IsRequest, Member;
  }
}
