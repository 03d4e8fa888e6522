// The helper's wire protocol (src/helper.rs): what the server answers to each
// request, how requests and replies are framed, and the byte streams between.
//
// The server is proved to be a function of the bytes it receives, however they
// are cut up; the client's calls are proved to get exactly the answer to the
// request just sent and to leave the streams at a message boundary.

module Protocol {
  import opened Bytes

  const PROTOCOL: byte := 1
  const OPEN: byte := 1
  const READ: byte := 2
  const UPDATE: byte := 3

  const OK: byte := 0
  const NOT_FOUND: byte := 1
  const REFUSED: byte := 2
  const ERROR: byte := 3

  const MAX_PATH: nat := 1024
  const MAX_READ: nat := 4 * 1024 * 1024
  const MAX_MESSAGE: nat := 64 * 1024

  type Text = seq<byte>
  type Handle = nat

  // ----- What the server does with a request -----

  datatype Request = Open(path: Text) | Read(off: nat, len: nat) | Update {
    /** Requests the framing can carry and the server reads whole. */
    predicate Fits() {
      match this
      case Open(path) => |path| <= MAX_PATH
      case Read(off, len) => off < TWO64 && len < TWO32
      case Update => true
    }
  }

  datatype Reply = Reply(status: byte, payload: Text)

  datatype Opening = Opened(handle: Handle) | Refusal(status: byte, message: Text)
  datatype Reading = Got(data: seq<byte>) | ReadFailed(message: Text)
  datatype Updating = UpToDate(text: Text) | Installed(text: Text) | UpdateFailed(message: Text)

  /** What the service can do, and the fixed texts of its replies. */
  datatype Service = Service(
    version: Text,
    open: Text -> Opening,
    utf8: Text -> bool,
    readAt: (Handle, nat, nat) -> Reading,
    update: nat -> Updating,
    wrongProtocol: byte -> Text,
    unknownOperation: byte -> Text,
    pathTooLong: Text,
    alreadyOpen: Text,
    notUtf8: Text,
    readTooLong: Text,
    readBeforeOpen: Text)
  {
    /** Reads return no more than asked, and every text fits its length field. */
    ghost predicate Sound() {
      && |version| < TWO32 && |pathTooLong| < TWO32 && |alreadyOpen| < TWO32 && |notUtf8| < TWO32
      && |readTooLong| < TWO32 && |readBeforeOpen| < TWO32
      && (forall b: byte :: |wrongProtocol(b)| < TWO32)
      && (forall b: byte :: |unknownOperation(b)| < TWO32)
      && (forall p :: match open(p) case Opened(_) => true
                                    case Refusal(s, m) => s in {NOT_FOUND, REFUSED, ERROR} && |m| < TWO32)
      && (forall h, off, len :: match readAt(h, off, len) case Got(d) => |d| <= len case ReadFailed(m) => |m| < TWO32)
      && (forall n :: match update(n) case UpToDate(t) => |t| < TWO32
                                      case Installed(t) => |t| < TWO32
                                      case UpdateFailed(m) => |m| < TWO32)
    }
  }

  /** A session: whether it was greeted, the one device open, updates asked. */
  datatype State = State(greeted: bool, file: Option<Handle>, updates: nat)

  const NEW := State(false, None, 0)

  datatype Ended = Closed | Updated

  datatype Answer = Answer(reply: Reply, st: State, ended: Option<Ended>)

  function Answered(sv: Service, st: State, req: Request): Answer {
    match req
    case Open(path) =>
      if st.file.Some? then Answer(Reply(ERROR, sv.alreadyOpen), st, None)
      else if !sv.utf8(path) then Answer(Reply(ERROR, sv.notUtf8), st, None)
      else
        (match sv.open(path)
         case Opened(h) => Answer(Reply(OK, []), st.(file := Some(h)), None)
         case Refusal(status, message) => Answer(Reply(status, message), st, None))
    case Read(off, len) =>
      if len > MAX_READ then Answer(Reply(ERROR, sv.readTooLong), st, None)
      else if st.file.None? then Answer(Reply(ERROR, sv.readBeforeOpen), st, None)
      else
        (match sv.readAt(st.file.value, off, len)
         case Got(data) => Answer(Reply(OK, data), st, None)
         case ReadFailed(message) => Answer(Reply(ERROR, message), st, None))
    case Update =>
      var st' := st.(updates := st.updates + 1);
      match sv.update(st.updates)
      case UpToDate(text) => Answer(Reply(OK, text), st', None)
      case Installed(text) => Answer(Reply(OK, text), st', Some(Updated))
      case UpdateFailed(message) => Answer(Reply(ERROR, message), st', None)
  }

  // ----- Framing -----

  function RequestBytes(req: Request): seq<byte> {
    match req
    case Open(path) => [OPEN] + (ToLE(|path|, 4) + path)
    case Read(off, len) => [READ] + (ToLE(off, 8) + ToLE(len, 4))
    case Update => [UPDATE]
  }

  function ReplyBytes(r: Reply): seq<byte> {
    [r.status] + (ToLE(|r.payload|, 4) + r.payload)
  }

  /** What the server makes of the bytes it has: too few yet, one whole request
      answered, or a reply after which it closes. */
  datatype Step =
    | NeedMore
    | Continue(st: State, out: seq<byte>, used: nat)
    | Finish(out: seq<byte>, ended: Ended)

  function AfterAnswer(a: Answer, used: nat): Step {
    match a.ended
    case None => Continue(a.st, ReplyBytes(a.reply), used)
    case Some(ended) => Finish(ReplyBytes(a.reply), ended)
  }

  function ServerStep(sv: Service, st: State, input: seq<byte>): (s: Step)
    ensures s.Continue? ==> 0 < s.used <= |input|
  {
    if input == [] then NeedMore
    else if !st.greeted then
      if input[0] != PROTOCOL then Finish(ReplyBytes(Reply(ERROR, sv.wrongProtocol(input[0]))), Closed)
      else Continue(st.(greeted := true), ReplyBytes(Reply(OK, sv.version)), 1)
    else if input[0] == OPEN then
      match U32At(input, 1)
      case Err(_) => NeedMore
      case Ok(len) =>
        if len > MAX_PATH then Finish(ReplyBytes(Reply(ERROR, sv.pathTooLong)), Closed)
        else if 5 + len > |input| then NeedMore
        else AfterAnswer(Answered(sv, st, Open(input[5..5 + len])), 5 + len)
    else if input[0] == READ then
      if |input| < 13 then NeedMore
      else AfterAnswer(Answered(sv, st, Read(U64At(input, 1).value, U32At(input, 9).value)), 13)
    else if input[0] == UPDATE then AfterAnswer(Answered(sv, st, Update), 1)
    else Finish(ReplyBytes(Reply(ERROR, sv.unknownOperation(input[0]))), Closed)
  }

  /** A server that has consumed what it could: what it sent, what is left of its
      input, and how it ended. */
  datatype Conn = Conn(st: State, left: seq<byte>, out: seq<byte>, ended: Option<Ended>)

  function Serve(sv: Service, st: State, input: seq<byte>, out: seq<byte>): Conn
    decreases |input|
  {
    match ServerStep(sv, st, input)
    case NeedMore => Conn(st, input, out, None)
    case Continue(st', o, used) => Serve(sv, st', input[used..], out + o)
    case Finish(o, ended) => Conn(st, input, out + o, Some(ended))
  }

  /** More bytes arrive. */
  function Feed(sv: Service, c: Conn, more: seq<byte>): Conn {
    if c.ended.Some? then c.(left := c.left + more) else Serve(sv, c.st, c.left + more, c.out)
  }

  // ----- Fragments do not matter -----

  lemma NumPrefix(a: seq<byte>, b: seq<byte>, off: nat)
    ensures off + 4 <= |a| ==> U32At(a + b, off) == U32At(a, off)
    ensures off + 8 <= |a| ==> U64At(a + b, off) == U64At(a, off)
  {
    if off + 4 <= |a| {
      assert (a + b)[off..off + 4] == a[off..off + 4];
    }
    if off + 8 <= |a| {
      assert (a + b)[off..off + 8] == a[off..off + 8];
    }
  }

  /** A step that was possible does not change when more bytes follow. */
  lemma StepMonotone(sv: Service, st: State, a: seq<byte>, b: seq<byte>)
    requires !ServerStep(sv, st, a).NeedMore?
    ensures ServerStep(sv, st, a + b) == ServerStep(sv, st, a)
  {
    hide U32At;
    hide U64At;
    hide ReplyBytes;
    NumPrefix(a, b, 1);
    NumPrefix(a, b, 9);
    assert (a + b)[0] == a[0];
    if a[0] == OPEN && st.greeted && U32At(a, 1).Ok? {
      var len := U32At(a, 1).value;
      if 5 + len <= |a| {
        assert (a + b)[5..5 + len] == a[5..5 + len];
      }
    }
  }

  lemma {:induction false} ServeConcat(sv: Service, st: State, a: seq<byte>, b: seq<byte>, out: seq<byte>)
    ensures Serve(sv, st, a + b, out) == Feed(sv, Serve(sv, st, a, out), b)
    decreases |a|
  {
    hide ServerStep;
    match ServerStep(sv, st, a) {
      case NeedMore =>
      case Continue(st', o, used) =>
        StepMonotone(sv, st, a, b);
        assert (a + b)[used..] == a[used..] + b;
        ServeConcat(sv, st', a[used..], b, out + o);
      case Finish(o, ended) =>
        StepMonotone(sv, st, a, b);
    }
  }

  /** The server's behaviour does not depend on how its input is cut up. */
  lemma FragmentsDoNotMatter(sv: Service, c: Conn, a: seq<byte>, b: seq<byte>)
    ensures Feed(sv, Feed(sv, c, a), b) == Feed(sv, c, a + b)
  {
    hide Serve;
    assert c.left + a + b == c.left + (a + b);
    if c.ended.None? {
      ServeConcat(sv, c.st, c.left + a, b, c.out);
    }
  }

  // ----- One request, one answer -----

  lemma OpenParsed(path: Text, rest: seq<byte>)
    requires |path| <= MAX_PATH
    ensures var input := RequestBytes(Open(path)) + rest;
            U32At(input, 1) == Result.Ok(|path|) && 5 + |path| <= |input| && input[5..5 + |path|] == path
  {
    hide U32At;
    hide ToLE;
    var h, input := ToLE(|path|, 4), RequestBytes(Open(path)) + rest;
    OpenLaidOut(path, h, rest);
    U32Shift([OPEN], h + (path + rest), 0);
    U32Head(|path|, path + rest);
  }

  lemma OpenLaidOut(path: Text, h: seq<byte>, rest: seq<byte>)
    requires |h| == 4
    ensures var input := [OPEN] + (h + path) + rest;
            && input == [OPEN] + (h + (path + rest))
            && |input| >= 5 + |path| && input[5..5 + |path|] == path
  {
    var input := [OPEN] + (h + path) + rest;
    assert input == ([OPEN] + h) + (path + rest);
    SliceShift([OPEN] + h, path + rest, 0, |path|);
    assert (path + rest)[0..|path|] == path;
  }

  lemma ReadParsed(off: nat, len: nat, rest: seq<byte>)
    requires off < TWO64 && len < TWO32
    ensures var input := RequestBytes(Read(off, len)) + rest;
            |input| >= 13 && U64At(input, 1) == Result.Ok(off) && U32At(input, 9) == Result.Ok(len)
  {
    hide U32At;
    hide U64At;
    var o, l := ToLE(off, 8), ToLE(len, 4);
    assert RequestBytes(Read(off, len)) + rest == [READ] + (o + (l + rest));
    U64Shift([READ], o + (l + rest), 0);
    U64Head(off, l + rest);
    U32Shift([READ], o + (l + rest), 8);
    U32Shift(o, l + rest, 0);
    U32Head(len, rest);
  }

  /** A whole request is answered and nothing else is consumed. */
  lemma RequestAnswered(sv: Service, st: State, req: Request, rest: seq<byte>)
    requires st.greeted && req.Fits()
    ensures ServerStep(sv, st, RequestBytes(req) + rest) == AfterAnswer(Answered(sv, st, req), |RequestBytes(req)|)
  {
    hide U32At;
    hide U64At;
    hide Answered;
    hide AfterAnswer;
    match req {
      case Open(path) => OpenParsed(path, rest);
      case Read(off, len) => ReadParsed(off, len, rest);
      case Update =>
    }
  }

  lemma NumBytes(s: seq<byte>, off: nat)
    ensures off + 4 <= |s| ==> s[off..off + 4] == ToLE(U32At(s, off).value, 4)
    ensures off + 8 <= |s| ==> s[off..off + 8] == ToLE(U64At(s, off).value, 8)
  {
    if off + 4 <= |s| {
      ToFromLE(s[off..off + 4]);
    }
    if off + 8 <= |s| {
      ToFromLE(s[off..off + 8]);
    }
  }

  /** Every step on which a greeted server goes on has consumed exactly one whole
      request and sent exactly its answer. */
  lemma ContinuedMeansOneRequest(sv: Service, st: State, input: seq<byte>) returns (req: Request)
    requires st.greeted && ServerStep(sv, st, input).Continue?
    ensures var s := ServerStep(sv, st, input);
            && req.Fits() && input[..s.used] == RequestBytes(req)
            && Answered(sv, st, req).ended.None?
            && s.st == Answered(sv, st, req).st && s.out == ReplyBytes(Answered(sv, st, req).reply)
  {
    hide U32At;
    hide U64At;
    hide Answered;
    hide ReplyBytes;
    NumBytes(input, 1);
    if input[0] == OPEN {
      var len := U32At(input, 1).value;
      req := Open(input[5..5 + len]);
      assert input[..5 + len] == [OPEN] + (input[1..5] + input[5..5 + len]);
    } else if input[0] == READ {
      NumBytes(input, 9);
      req := Read(U64At(input, 1).value, U32At(input, 9).value);
      assert input[..13] == [READ] + (input[1..9] + input[9..13]);
    } else {
      req := Update;
      assert input[..1] == [UPDATE];
    }
  }

  /** At most one device is ever open in a session, and it never changes. */
  lemma {:induction false} DeviceNeverChanges(sv: Service, st: State, input: seq<byte>, out: seq<byte>)
    requires st.file.Some?
    ensures Serve(sv, st, input, out).st.file == st.file
    decreases |input|
  {
    hide ReplyBytes;
    hide U32At;
    hide U64At;
    match ServerStep(sv, st, input) {
      case NeedMore =>
      case Continue(st', o, used) => DeviceNeverChanges(sv, st', input[used..], out + o);
      case Finish(o, ended) =>
    }
  }

  // ----- A stream of calls -----

  function AllRequestBytes(reqs: seq<Request>): seq<byte> {
    if reqs == [] then [] else RequestBytes(reqs[0]) + AllRequestBytes(reqs[1..])
  }

  /** The answers to a series of requests, up to the one that ends the session. */
  function Answers(sv: Service, st: State, reqs: seq<Request>): seq<Reply>
    decreases |reqs|
  {
    if reqs == [] then [] else
      var a := Answered(sv, st, reqs[0]);
      [a.reply] + (if a.ended.Some? then [] else Answers(sv, a.st, reqs[1..]))
  }

  function AllReplyBytes(rs: seq<Reply>): seq<byte> {
    if rs == [] then [] else ReplyBytes(rs[0]) + AllReplyBytes(rs[1..])
  }

  /** A greeted server with a request in front of it. */
  lemma ServeOne(sv: Service, st: State, req: Request, rest: seq<byte>, out: seq<byte>)
    requires st.greeted && req.Fits()
    ensures var a := Answered(sv, st, req);
            var c := Serve(sv, st, RequestBytes(req) + rest, out);
            && a.st.greeted
            && (a.ended.None? ==> c == Serve(sv, a.st, rest, out + ReplyBytes(a.reply)))
            && (a.ended.Some? ==> c.out == out + ReplyBytes(a.reply) && c.ended == a.ended)
  {
    hide ServerStep;
    hide ReplyBytes;
    hide Answered;
    RequestAnswered(sv, st, req, rest);
    StaysGreeted(sv, st, req);
    assert (RequestBytes(req) + rest)[|RequestBytes(req)|..] == rest;
  }

  lemma FirstAnswer(sv: Service, st: State, reqs: seq<Request>)
    requires reqs != []
    ensures var a := Answered(sv, st, reqs[0]);
            AllReplyBytes(Answers(sv, st, reqs))
            == ReplyBytes(a.reply) + (if a.ended.Some? then [] else AllReplyBytes(Answers(sv, a.st, reqs[1..])))
  {
    hide ReplyBytes;
    hide Answered;
    var a := Answered(sv, st, reqs[0]);
    var more := if a.ended.Some? then [] else Answers(sv, a.st, reqs[1..]);
    assert Answers(sv, st, reqs) == [a.reply] + more && ([a.reply] + more)[1..] == more;
  }

  /** A whole series of requests yields exactly the series of its answers. */
  lemma {:induction false} SeriesAnswered(sv: Service, st: State, reqs: seq<Request>, out: seq<byte>)
    requires st.greeted && forall r :: r in reqs ==> r.Fits()
    ensures var c := Serve(sv, st, AllRequestBytes(reqs), out);
            c.out == out + AllReplyBytes(Answers(sv, st, reqs)) && (c.ended.None? ==> c.left == [])
    decreases |reqs|
  {
    if reqs == [] {
      NothingToDo(sv, st);
      assert out + [] == out;
    } else {
      hide ReplyBytes;
      hide RequestBytes;
      hide Answered;
      hide Serve;
      hide Answers;
      hide AllReplyBytes;
      assert reqs[0] in reqs;
      ServeOne(sv, st, reqs[0], AllRequestBytes(reqs[1..]), out);
      FirstAnswer(sv, st, reqs);
      var a := Answered(sv, st, reqs[0]);
      var o := ReplyBytes(a.reply);
      if a.ended.None? {
        SeriesAnswered(sv, a.st, reqs[1..], out + o);
        JoinAssociates(out, o, AllReplyBytes(Answers(sv, a.st, reqs[1..])));
      } else {
        assert o + [] == o;
      }
    }
  }

  lemma JoinAssociates(a: seq<byte>, b: seq<byte>, c: seq<byte>)
    ensures a + b + c == a + (b + c)
  {
  }

  lemma NothingToDo(sv: Service, st: State)
    ensures ServerStep(sv, st, []) == NeedMore
  {
  }

  lemma StaysGreeted(sv: Service, st: State, req: Request)
    ensures Answered(sv, st, req).st.greeted == st.greeted
    ensures RequestBytes(req) != []
  {
  }

  // ----- The server's loop over a stream -----

  datatype Event = Interrupted | AtMost(count: nat)

  /** One end of a pipe: all that the other side will ever send, how much of it
      was read, how the coming reads are cut up, and what was written. */
  class Pipe {
    const incoming: seq<byte>
    var pos: nat
    var schedule: seq<Event>
    var sent: seq<byte>

    ghost predicate Valid()
      reads this
    {
      pos <= |incoming|
    }

    constructor (incoming: seq<byte>, schedule: seq<Event>)
      ensures Valid() && this.incoming == incoming && pos == 0 && sent == []
    {
      this.incoming, this.schedule := incoming, schedule;
      pos, sent := 0, [];
    }

    /** At most `want` bytes; none at the end; nothing when interrupted. */
    method ReadSome(want: nat) returns (r: Option<seq<byte>>)
      requires Valid() && want > 0
      modifies this`pos, this`schedule
      ensures Valid() && |schedule| <= |old(schedule)|
      ensures r.None? ==> pos == old(pos) && |schedule| < |old(schedule)|
      ensures r.Some? ==> pos == old(pos) + |r.value| && |r.value| <= want
      ensures r.Some? ==> r.value == incoming[old(pos)..pos] && (r.value == [] <==> old(pos) == |incoming|)
    {
      var most := want;
      if schedule != [] {
        var e := schedule[0];
        schedule := schedule[1..];
        match e {
          case Interrupted => return None;
          case AtMost(count) => most := Min(want, Max(1, count));
        }
      }
      var n := Min(most, |incoming| - pos);
      r := Some(incoming[pos..pos + n]);
      pos := pos + n;
    }

    method ReadByte() returns (r: Option<byte>)
      requires Valid()
      modifies this`pos, this`schedule
      ensures Valid()
      ensures r.None? <==> old(pos) == |incoming|
      ensures r.Some? ==> pos == old(pos) + 1 && r.value == incoming[old(pos)]
    {
      while true
        invariant Valid() && pos == old(pos)
        decreases |schedule|
      {
        var got := ReadSome(1);
        if got.Some? {
          return if got.value == [] then None else Some(got.value[0]);
        }
      }
    }

    /** Exactly `n` bytes, or none when the stream ends before. */
    method ReadExact(n: nat) returns (r: Option<seq<byte>>)
      requires Valid()
      modifies this`pos, this`schedule
      ensures Valid()
      ensures r.Some? <==> old(pos) + n <= |incoming|
      ensures r.Some? ==> pos == old(pos) + n && r.value == incoming[old(pos)..old(pos) + n]
    {
      var buf: seq<byte> := [];
      while |buf| < n
        invariant Valid() && pos == old(pos) + |buf| && |buf| <= n
        invariant buf == incoming[old(pos)..pos]
        decreases n - |buf| + |schedule|
      {
        var got := ReadSome(n - |buf|);
        if got.Some? {
          if got.value == [] {
            return None;
          }
          buf := buf + got.value;
        }
      }
      return Some(buf);
    }

    method WriteAll(b: seq<byte>)
      modifies this`sent
      ensures sent == old(sent) + b
    {
      sent := sent + b;
    }
  }

  /** How `serve_client` returns: how the session ended, or the stream's end in
      the middle of a request. */
  datatype Served = Done(ended: Ended) | CutShort

  function ServedAs(c: Conn): Served {
    match c.ended
    case Some(ended) => Done(ended)
    case None => if c.left == [] then Done(Closed) else CutShort
  }

  /** The server's loop computes `Serve` of everything the client sends, in
      whatever pieces it arrives. */
  method ServeClient(s: Pipe, sv: Service) returns (r: Served)
    requires s.Valid() && s.pos == 0 && s.sent == []
    modifies s
    ensures s.sent == Serve(sv, NEW, s.incoming, []).out
    ensures r == ServedAs(Serve(sv, NEW, s.incoming, []))
  {
    hide ReplyBytes;
    hide Answered;
    hide ServerStep;
    ghost var all := Serve(sv, NEW, s.incoming, []);
    assert s.incoming[0..] == s.incoming;
    var st := NEW;
    while true
      invariant s.Valid()
      invariant all == Serve(sv, st, s.incoming[s.pos..], s.sent)
      decreases |s.incoming| - s.pos
    {
      ghost var input := s.incoming[s.pos..];
      var op := s.ReadByte();
      if op.None? {
        NothingToDo(sv, st);
        return Done(Closed);
      }
      var step := HandleMessage(s, sv, st, op.value);
      match step {
        case NeedMore =>
          return CutShort;
        case Finish(out, ended) =>
          s.WriteAll(out);
          return Done(ended);
        case Continue(st', out, used) =>
          assert s.incoming[s.pos..] == input[used..];
          s.WriteAll(out);
          st := st';
      }
    }
  }

  lemma U32Inside(b: seq<byte>, k: nat, j: nat)
    requires k <= |b|
    ensures U32At(b[k..], j) == U32At(b, k + j)
  {
    if k + j + 4 <= |b| {
      assert b[k..][j..j + 4] == b[k + j..k + j + 4];
    }
  }

  lemma U64Inside(b: seq<byte>, k: nat, j: nat)
    requires k <= |b|
    ensures U64At(b[k..], j) == U64At(b, k + j)
  {
    if k + j + 8 <= |b| {
      assert b[k..][j..j + 8] == b[k + j..k + j + 8];
    }
  }

  method ReadU32(s: Pipe) returns (r: Option<nat>)
    requires s.Valid()
    modifies s`pos, s`schedule
    ensures s.Valid() && (r.Some? <==> old(s.pos) + 4 <= |s.incoming|)
    ensures r.Some? ==> U32At(s.incoming, old(s.pos)) == Result.Ok(r.value) && s.pos == old(s.pos) + 4
  {
    var b := s.ReadExact(4);
    if b.None? {
      return None;
    }
    return Some(FromLE(b.value));
  }

  method ReadU64(s: Pipe) returns (r: Option<nat>)
    requires s.Valid()
    modifies s`pos, s`schedule
    ensures s.Valid() && (r.Some? <==> old(s.pos) + 8 <= |s.incoming|)
    ensures r.Some? ==> U64At(s.incoming, old(s.pos)) == Result.Ok(r.value) && s.pos == old(s.pos) + 8
  {
    var b := s.ReadExact(8);
    if b.None? {
      return None;
    }
    return Some(FromLE(b.value));
  }

  /** Reads the rest of the message that `op` starts and decides on its answer;
      `NeedMore` when the stream ends inside it. */
  method HandleMessage(s: Pipe, sv: Service, st: State, op: byte) returns (step: Step)
    requires s.Valid() && s.pos > 0 && s.incoming[s.pos - 1] == op
    modifies s`pos, s`schedule
    ensures s.Valid() && step == ServerStep(sv, st, s.incoming[old(s.pos) - 1..])
    ensures step.Continue? ==> s.pos == old(s.pos) - 1 + step.used
  {
    hide U32At;
    hide U64At;
    hide ReplyBytes;
    hide Answered;
    ghost var k := s.pos - 1;
    ghost var input := s.incoming[k..];
    if !st.greeted {
      if op != PROTOCOL {
        return Finish(ReplyBytes(Reply(ERROR, sv.wrongProtocol(op))), Closed);
      }
      return Continue(st.(greeted := true), ReplyBytes(Reply(OK, sv.version)), 1);
    }
    if op == OPEN {
      U32Inside(s.incoming, k, 1);
      var len := ReadU32(s);
      if len.None? {
        return NeedMore;
      }
      if len.value > MAX_PATH {
        return Finish(ReplyBytes(Reply(ERROR, sv.pathTooLong)), Closed);
      }
      var path := s.ReadExact(len.value);
      if path.None? {
        return NeedMore;
      }
      assert input[5..5 + len.value] == path.value;
      return AfterAnswer(Answered(sv, st, Open(path.value)), 5 + len.value);
    }
    if op == READ {
      U64Inside(s.incoming, k, 1);
      U32Inside(s.incoming, k, 9);
      var off := ReadU64(s);
      if off.None? {
        return NeedMore;
      }
      var len := ReadU32(s);
      if len.None? {
        return NeedMore;
      }
      return AfterAnswer(Answered(sv, st, Read(off.value, len.value)), 13);
    }
    if op == UPDATE {
      return AfterAnswer(Answered(sv, st, Update), 1);
    }
    return Finish(ReplyBytes(Reply(ERROR, sv.unknownOperation(op))), Closed);
  }

  /** The messages byte by byte. */
  lemma OpenMessage(path: Text)
    requires |path| < TWO32
    ensures var b := RequestBytes(Open(path));
            |b| == 5 + |path| && b[0] == 1 && FromLE(b[1..5]) == |path| && b[5..] == path
  {
    hide ToLE;
    hide FromLE;
    Framed(OPEN, path);
  }

  lemma ReadMessage(off: nat, len: nat)
    requires off < TWO64 && len < TWO32
    ensures var b := RequestBytes(Read(off, len));
            |b| == 13 && b[0] == 2 && FromLE(b[1..9]) == off && FromLE(b[9..13]) == len
  {
    hide ToLE;
    hide FromLE;
    Widths();
    FromToLE(off, 8);
    FromToLE(len, 4);
    var b := RequestBytes(Read(off, len));
    assert b == [READ] + ToLE(off, 8) + ToLE(len, 4);
    assert b[1..9] == ToLE(off, 8) && b[9..13] == ToLE(len, 4);
  }

  lemma ReplyMessage(r: Reply)
    requires |r.payload| < TWO32
    ensures var b := ReplyBytes(r);
            |b| == 5 + |r.payload| && b[0] == r.status && FromLE(b[1..5]) == |r.payload| && b[5..] == r.payload
  {
    hide ToLE;
    hide FromLE;
    Framed(r.status, r.payload);
  }

  lemma Framed(first: byte, text: Text)
    requires |text| < TWO32
    ensures var b := [first] + (ToLE(|text|, 4) + text);
            |b| == 5 + |text| && b[0] == first && FromLE(b[1..5]) == |text| && b[5..] == text
  {
    hide ToLE;
    hide FromLE;
    Widths();
    FromToLE(|text|, 4);
    var b := [first] + (ToLE(|text|, 4) + text);
    assert b[1..5] == ToLE(|text|, 4);
  }

  // ----- What opens, what ends -----

  /** The first device a session opens stays its device. */
  lemma OpensExactly(sv: Service, st: State, path: Text)
    requires sv.Sound()
    ensures var a := Answered(sv, st, Open(path));
            && (a.reply.status == OK <==> st.file.None? && sv.utf8(path) && sv.open(path).Opened?)
            && a.st == (if a.reply.status == OK then st.(file := Some(sv.open(path).handle)) else st)
            && (a.reply.status == OK ==> a.reply.payload == [])
  {
  }

  /** A session ends by an update that was installed; or, closed with an error, by a
      greeting, an operation or a path length that is not one. */
  lemma EndsExactly(sv: Service, st: State, input: seq<byte>)
    requires input != []
    ensures var s, b := ServerStep(sv, st, input), input[0];
            && (s.Finish? && s.ended.Updated? <==> st.greeted && b == 3 && sv.update(st.updates).Installed?)
            && (s.Finish? && s.ended.Closed? <==>
                  if !st.greeted then b != 1
                  else b !in {1, 2, 3} || (b == 1 && |input| >= 5 && FromLE(input[1..5]) > 1024))
            && (s.Finish? ==> |s.out| > 0 && s.out[0] == if s.ended.Updated? then 0 else 3)
  {
  }

  /** A read longer than 4 MiB is refused, and changes nothing. */
  lemma LongReadRefused(sv: Service, st: State, off: nat, len: nat)
    requires len > 4_194_304
    ensures Answered(sv, st, Read(off, len)) == Answer(Reply(3, sv.readTooLong), st, None)
  {
  }

  // ----- The client -----

  datatype ClientError =
    | Refused(status: byte, message: Text)
    | MessageTooLong
    | PathTooLong
    | Oversized
    | StreamEnded

  datatype Outcome<+T> = Fine(value: T) | Failed(error: ClientError)

  /** Input that is one whole message leaves a server with nothing unread. */
  lemma OneMessage(sv: Service, st: State, input: seq<byte>)
    ensures var c := Serve(sv, st, input, []);
            match ServerStep(sv, st, input)
            case NeedMore => c == Conn(st, input, [], None)
            case Continue(st', o, used) => used == |input| ==> c == Conn(st', [], o, None)
            case Finish(o, ended) => c == Conn(st, input, o, Some(ended))
  {
    hide ServerStep;
    match ServerStep(sv, st, input) {
      case NeedMore =>
      case Continue(st', o, used) =>
        assert [] + o == o;
        if used == |input| {
          assert input[used..] == [];
          NothingToDo(sv, st');
        }
      case Finish(o, ended) => assert [] + o == o;
    }
  }

  lemma IdleAnswers(sv: Service, c: Conn, req: Request)
    requires c.ended.None? && c.left == [] && c.out == [] && c.st.greeted && req.Fits()
    ensures var a := Answered(sv, c.st, req);
            var d := Feed(sv, c, RequestBytes(req));
            && d.out == ReplyBytes(a.reply) && d.ended == a.ended
            && (a.ended.None? ==> d == Conn(a.st, [], ReplyBytes(a.reply), None) && a.st.greeted)
  {
    hide Answered;
    hide ReplyBytes;
    hide ServerStep;
    hide Serve;
    RequestAnswered(sv, c.st, req, []);
    StaysGreeted(sv, c.st, req);
    var input := RequestBytes(req);
    assert input + [] == input && [] + input == input;
    OneMessage(sv, c.st, input);
  }

  lemma GreetingAnswered(sv: Service)
    ensures Feed(sv, Conn(NEW, [], [], None), [PROTOCOL])
            == Conn(NEW.(greeted := true), [], ReplyBytes(Reply(OK, sv.version)), None)
  {
    hide ReplyBytes;
    hide Serve;
    OneMessage(sv, NEW, [PROTOCOL]);
    assert [] + [PROTOCOL] == [PROTOCOL];
  }

  lemma ReplyParsed(r: Reply)
    requires |r.payload| < TWO32
    ensures var b := ReplyBytes(r);
            |b| >= 5 && b[0] == r.status && U32At(b, 1) == Result.Ok(|r.payload|) && b[5..] == r.payload
  {
    hide U32At;
    var h := ToLE(|r.payload|, 4);
    U32Shift([r.status], h + r.payload, 0);
    U32Head(|r.payload|, r.payload);
  }

  /** A client and the server it is connected to. The bytes the server has sent
      and the client has not read are `conn.out`. */
  class Session {
    const sv: Service
    var conn: Conn
    /** The sizes of the fragments in which the coming writes arrive. */
    var cuts: seq<nat>
    /** How the server's bytes arrive at the coming reads. */
    var arrivals: seq<Event>

    /** At a message boundary: nothing half sent, nothing unread. */
    ghost predicate Idle()
      reads this
    {
      conn.ended.None? && conn.left == [] && conn.out == [] && conn.st.greeted
    }

    /** Whether the next call can be made. */
    predicate AtBoundary()
      reads this
      ensures AtBoundary() <==> Idle()
    {
      conn.ended.None? && conn.left == [] && conn.out == [] && conn.st.greeted
    }

    /** A connection on which nothing was said yet. */
    constructor (sv: Service, cuts: seq<nat>, arrivals: seq<Event>)
      ensures this.sv == sv && conn == Conn(NEW, [], [], None)
    {
      this.sv, this.cuts, this.arrivals := sv, cuts, arrivals;
      conn := Conn(NEW, [], [], None);
    }

    /** Delivers `b` in fragments; the server runs on each as it arrives. */
    method WriteAll(b: seq<byte>)
      requires b != []
      modifies this`conn, this`cuts
      ensures conn == Feed(sv, old(conn), b)
    {
      hide Feed;
      hide Serve;
      var at := 0;
      while at < |b|
        invariant at <= |b|
        invariant conn == if at == 0 then old(conn) else Feed(sv, old(conn), b[..at])
      {
        var n := |b| - at;
        if cuts != [] {
          n := Min(Max(1, cuts[0]), n);
          cuts := cuts[1..];
        }
        if at > 0 {
          FragmentsDoNotMatter(sv, old(conn), b[..at], b[at..at + n]);
        }
        assert b[..at] + b[at..at + n] == b[..at + n];
        conn := Feed(sv, conn, b[at..at + n]);
        at := at + n;
      }
      assert b[..|b|] == b;
    }

    /** At most `want` of the bytes that were sent; nothing when interrupted. */
    method ReadSome(want: nat) returns (r: Option<seq<byte>>)
      requires want > 0
      modifies this`conn, this`arrivals
      ensures |arrivals| <= |old(arrivals)|
      ensures r.None? ==> conn == old(conn) && |arrivals| < |old(arrivals)|
      ensures r.Some? ==> |r.value| <= want && old(conn.out) == r.value + conn.out
      ensures r.Some? ==> conn == old(conn).(out := conn.out)
      ensures r.Some? ==> (r.value == [] <==> old(conn.out) == [])
    {
      var most := want;
      if arrivals != [] {
        var e := arrivals[0];
        arrivals := arrivals[1..];
        match e {
          case Interrupted => return None;
          case AtMost(count) => most := Min(want, Max(1, count));
        }
      }
      var n := Min(most, |conn.out|);
      r := Some(conn.out[..n]);
      conn := conn.(out := conn.out[n..]);
    }

    /** Exactly `n` bytes, however they arrive; when they do not all come, those that
        did are gone. */
    method ReadExact(n: nat) returns (r: Option<seq<byte>>)
      modifies this`conn, this`arrivals
      ensures |old(conn.out)| >= n ==>
                r == Some(old(conn.out)[..n]) && conn == old(conn).(out := old(conn.out)[n..])
      ensures |old(conn.out)| < n ==> r == None && conn == old(conn).(out := [])
    {
      var buf: seq<byte> := [];
      while |buf| < n
        invariant |buf| <= n && old(conn.out) == buf + conn.out && conn == old(conn).(out := conn.out)
        decreases n - |buf| + |arrivals|
      {
        var got := ReadSome(n - |buf|);
        if got.Some? {
          if got.value == [] {
            return None;
          }
          buf := buf + got.value;
        }
      }
      return Some(buf);
    }

    method Header() returns (r: Outcome<(byte, nat)>)
      modifies this`conn, this`arrivals
      ensures |old(conn.out)| < 5 ==> r == Failed(StreamEnded) && conn == old(conn).(out := [])
      ensures |old(conn.out)| >= 5 ==>
                && r == Fine((old(conn.out)[0], U32At(old(conn.out), 1).value))
                && conn == old(conn).(out := old(conn.out)[5..])
    {
      var h := ReadExact(5);
      if h.None? {
        return Failed(StreamEnded);
      }
      assert h.value[1..5] == old(conn.out)[1..5];
      return Fine((h.value[0], FromLE(h.value[1..5])));
    }

    method Message(n: nat) returns (r: Outcome<Text>)
      modifies this`conn, this`arrivals
      ensures n > MAX_MESSAGE ==> r == Failed(MessageTooLong) && conn == old(conn)
      ensures n <= MAX_MESSAGE && |old(conn.out)| >= n ==>
                r == Fine(old(conn.out)[..n]) && conn == old(conn).(out := old(conn.out)[n..])
    {
      if n > MAX_MESSAGE {
        return Failed(MessageTooLong);
      }
      var b := ReadExact(n);
      if b.None? {
        return Failed(StreamEnded);
      }
      return Fine(b.value);
    }

    /** A short reply: its payload if the status is OK, else the error it carries.
        A text longer than the client takes is left in the stream. */
    method ReceiveReply(ghost r: Reply) returns (o: Outcome<Text>)
      requires conn.out == ReplyBytes(r) && |r.payload| < TWO32
      modifies this`conn, this`arrivals
      ensures o == ReplyMeans(r)
      ensures conn == old(conn).(out := if |r.payload| <= MAX_MESSAGE then [] else r.payload)
    {
      hide U32At;
      hide ReplyBytes;
      ReplyParsed(r);
      var h := Header();
      var (status, n) := h.value;
      var m := Message(n);
      if m.Failed? {
        return Failed(m.error);
      }
      assert m.value == r.payload;
      if status != OK {
        return Failed(Refused(status, m.value));
      }
      return Fine(m.value);
    }

    /** The handshake. */
    method Start() returns (o: Outcome<Text>)
      requires conn == Conn(NEW, [], [], None) && sv.Sound()
      modifies this
      ensures |sv.version| <= MAX_MESSAGE ==> Idle() && conn.st == NEW.(greeted := true) && o == Fine(sv.version)
    {
      hide ReplyBytes;
      hide Feed;
      GreetingAnswered(sv);
      WriteAll([PROTOCOL]);
      ghost var r := Reply(OK, sv.version);
      o := ReceiveReply(r);
    }

    /** Opens a device. The framing survives exactly when the reply's text is one
        the client takes. */
    method OpenDevice(path: Text) returns (o: Outcome<()>)
      requires Idle() && sv.Sound()
      modifies this
      ensures |path| > MAX_PATH ==> o == Failed(PathTooLong) && conn == old(conn)
      ensures |path| <= MAX_PATH ==>
                var a := Answered(sv, old(conn.st), Open(path));
                && (o.Fine? <==> ReplyMeans(a.reply).Fine?)
                && (o.Failed? ==> o.error == ReplyMeans(a.reply).error)
                && conn.st == a.st && (Idle() <==> |a.reply.payload| <= MAX_MESSAGE)
      ensures o.Fine? <==> |path| <= MAX_PATH && old(conn.st.file).None? && sv.utf8(path) && sv.open(path).Opened?
      ensures conn.st.file == if o.Fine? then Some(sv.open(path).handle) else old(conn.st.file)
    {
      hide ReplyBytes;
      hide Feed;
      hide RequestBytes;
      OpensExactly(sv, conn.st, path);
      if |path| > MAX_PATH {
        return Failed(PathTooLong);
      }
      ghost var a := Answered(sv, conn.st, Open(path));
      IdleAnswers(sv, conn, Open(path));
      StaysGreeted(sv, conn.st, Open(path));
      WriteAll(RequestBytes(Open(path)));
      var r := ReceiveReply(a.reply);
      match r {
        case Fine(_) => return Fine(());
        case Failed(e) => return Failed(e);
      }
    }

    /** Reads from the open device: on success the bytes a direct read of it gives.
        A read's data is never refused, so only an error text can be too long. */
    method ReadAt(want: nat, off: nat) returns (o: Outcome<seq<byte>>)
      requires Idle() && sv.Sound() && off < TWO64
      modifies this
      ensures var len := Min(want, MAX_READ);
              var a := Answered(sv, old(conn.st), Read(off, len));
              && conn.st == old(conn.st)
              && (a.reply.status == OK ==> o == Fine(a.reply.payload) && Idle())
              && (a.reply.status != OK ==> o == Failed(ReplyMeans(a.reply).error)
                                           && (Idle() <==> |a.reply.payload| <= MAX_MESSAGE))
      ensures old(conn.st.file).Some? ==>
                match sv.readAt(old(conn.st.file).value, off, Min(want, MAX_READ))
                case Got(data) => o == Fine(data)
                case ReadFailed(_) => o.Failed?
      ensures old(conn.st.file).None? ==> o == ErrorTold(ERROR, sv.readBeforeOpen)
    {
      hide ReplyBytes;
      hide Feed;
      hide RequestBytes;
      hide U32At;
      var len: nat := Min(want, MAX_READ);
      ghost var a := Answered(sv, conn.st, Read(off, len));
      IdleAnswers(sv, conn, Read(off, len));
      StaysGreeted(sv, conn.st, Read(off, len));
      WriteAll(RequestBytes(Read(off, len)));
      ReplyParsed(a.reply);
      var h := Header();
      var (status, n) := h.value;
      if status != OK {
        var m := Message(n);
        if m.Failed? {
          return Failed(m.error);
        }
        assert m.value == a.reply.payload;
        return Failed(Refused(status, m.value));
      }
      if n > len {
        return Failed(Oversized);
      }
      var data := ReadExact(n);
      assert data.value == a.reply.payload;
      return Fine(data.value);
    }

    /** Asks for an update; a session that installed one is over. */
    method AskUpdate() returns (o: Outcome<Text>)
      requires Idle() && sv.Sound()
      modifies this
      ensures var a := Answered(sv, old(conn.st), Update);
              && o == ReplyMeans(a.reply) && conn.ended == a.ended
              && (a.ended.None? ==>
                    && conn.st == a.st && (Idle() <==> |a.reply.payload| <= MAX_MESSAGE)
                    && conn.out == if |a.reply.payload| <= MAX_MESSAGE then [] else a.reply.payload)
    {
      hide ReplyBytes;
      hide Feed;
      ghost var a := Answered(sv, conn.st, Update);
      IdleAnswers(sv, conn, Update);
      WriteAll(RequestBytes(Update));
      o := ReceiveReply(a.reply);
    }
  }

  /** An error the server tells of, if the client takes its text. */
  function ErrorTold(status: byte, text: Text): Outcome<Text> {
    if |text| > MAX_MESSAGE then Failed(MessageTooLong) else Failed(Refused(status, text))
  }

  function TextTold(text: Text): Outcome<Text> {
    if |text| > MAX_MESSAGE then Failed(MessageTooLong) else Fine(text)
  }

  /** What a text reply tells the client. */
  function ReplyMeans(r: Reply): Outcome<Text> {
    if |r.payload| > MAX_MESSAGE then Failed(MessageTooLong)
    else if r.status != OK then Failed(Refused(r.status, r.payload))
    else Fine(r.payload)
  }

  // ----- A client's whole session -----

  datatype Call = DoOpen(path: Text) | DoRead(want: nat, off: nat) | DoUpdate {
    predicate Fits() {
      DoRead? ==> off < TWO64
    }

    /** The request that is sent; a path too long is refused before. */
    function Request(): Option<Request> {
      match this
      case DoOpen(path) => if |path| > MAX_PATH then None else Some(Open(path))
      case DoRead(want, off) => Some(Read(off, Min(want, MAX_READ)))
      case DoUpdate => Some(Update)
    }
  }

  /** What a call tells the client when the answer is to its own request. */
  function Told(call: Call, answer: Option<Answer>): Outcome<Text> {
    match answer
    case None => Failed(PathTooLong)
    case Some(a) =>
      match call
      case DoOpen(_) => if ReplyMeans(a.reply).Fine? then Fine([]) else ReplyMeans(a.reply)
      case DoRead(_, _) => if a.reply.status == OK then Fine(a.reply.payload) else ReplyMeans(a.reply)
      case DoUpdate => ReplyMeans(a.reply)
  }

  function AnswerTo(sv: Service, st: State, call: Call): Option<Answer> {
    match call.Request()
    case None => None
    case Some(req) => Some(Answered(sv, st, req))
  }

  /** Whether the client can go on: the session has not ended, and a text was not
      longer than it takes. */
  predicate GoesOn(call: Call, answer: Option<Answer>) {
    answer.None?
    || (answer.value.ended.None?
        && (|answer.value.reply.payload| <= MAX_MESSAGE || (call.DoRead? && answer.value.reply.status == OK)))
  }

  /** What a series of calls tells the client, each from the answer to its own request
      by a server that has answered those before it. */
  function AllTold(sv: Service, st: State, calls: seq<Call>): seq<Outcome<Text>>
    decreases |calls|
  {
    if calls == [] then [] else
      var a := AnswerTo(sv, st, calls[0]);
      [Told(calls[0], a)]
      + if !GoesOn(calls[0], a) then [] else AllTold(sv, if a.Some? then a.value.st else st, calls[1..])
  }

  // ----- What a session tells, from the calls alone -----

  /** A call that opens a device where none is open. */
  predicate Opens(sv: Service, call: Call) {
    call.DoOpen? && |call.path| <= MAX_PATH && sv.utf8(call.path) && sv.open(call.path).Opened?
  }

  /** The device that is open after some calls: the first that was opened. */
  function DeviceAfter(sv: Service, file: Option<Handle>, calls: seq<Call>): Option<Handle>
    decreases |calls|
  {
    if file.Some? || calls == [] then file
    else if Opens(sv, calls[0]) then Some(sv.open(calls[0].path).handle)
    else DeviceAfter(sv, None, calls[1..])
  }

  function UpdatesIn(calls: seq<Call>): nat
    decreases |calls|
  {
    if calls == [] then 0 else UpdatesIn(calls[1..]) + if calls[0].DoUpdate? then 1 else 0
  }

  /** What a call tells with device `file` open after `updates` requests to update: an
      open succeeds on the first device only, and a read gives what a direct read of the
      open device gives. */
  predicate Tells(sv: Service, file: Option<Handle>, updates: nat, call: Call, r: Outcome<Text>) {
    match call
    case DoOpen(path) =>
      if |path| > MAX_PATH then r == Failed(PathTooLong)
      else if file.Some? then r == ErrorTold(ERROR, sv.alreadyOpen)
      else if !sv.utf8(path) then r == ErrorTold(ERROR, sv.notUtf8)
      else
        (match sv.open(path)
         case Opened(_) => r == Fine([])
         case Refusal(status, message) => r == ErrorTold(status, message))
    case DoRead(want, off) =>
      if file.None? then r == ErrorTold(ERROR, sv.readBeforeOpen)
      else
        (match sv.readAt(file.value, off, Min(want, MAX_READ))
         case Got(data) => r == Fine(data)
         case ReadFailed(message) => r == ErrorTold(ERROR, message))
    case DoUpdate =>
      (match sv.update(updates)
       case UpToDate(text) => r == TextTold(text)
       case Installed(text) => r == TextTold(text)
       case UpdateFailed(message) => r == ErrorTold(ERROR, message))
  }

  /** The call after which a client cannot go on: the update was installed, or the text
      too long. */
  predicate Last(sv: Service, updates: nat, call: Call, r: Outcome<Text>) {
    (call.DoUpdate? && sv.update(updates).Installed?) || r == Failed(MessageTooLong)
  }

  lemma OneTells(sv: Service, st: State, call: Call)
    requires sv.Sound()
    ensures var a := AnswerTo(sv, st, call);
            var r := Told(call, a);
            && Tells(sv, st.file, st.updates, call, r)
            && (GoesOn(call, a) <==> !Last(sv, st.updates, call, r))
            && var st' := if a.Some? then a.value.st else st;
               && st'.file == DeviceAfter(sv, st.file, [call])
               && st'.updates == st.updates + UpdatesIn([call])
  {
    assert [call][1..] == [];
  }

  lemma {:induction false} DeviceAfterMore(sv: Service, file: Option<Handle>, calls: seq<Call>)
    requires calls != []
    ensures DeviceAfter(sv, file, calls) == DeviceAfter(sv, DeviceAfter(sv, file, [calls[0]]), calls[1..])
    ensures UpdatesIn(calls) == UpdatesIn([calls[0]]) + UpdatesIn(calls[1..])
  {
    assert [calls[0]][1..] == [];
    hide Opens;
  }

  /** Over a whole session the k-th call is told what the calls before it determine, by
      which device they opened first and how often they asked to update; and it is the
      last to be told anything exactly when the client cannot go on. */
  lemma {:induction false} SessionTells(sv: Service, st: State, calls: seq<Call>, k: nat)
    requires sv.Sound() && k < |AllTold(sv, st, calls)|
    ensures k < |calls|
    ensures var rs, updates := AllTold(sv, st, calls), st.updates + UpdatesIn(calls[..k]);
            && Tells(sv, DeviceAfter(sv, st.file, calls[..k]), updates, calls[k], rs[k])
            && (k + 1 == |rs| <==> k + 1 == |calls| || Last(sv, updates, calls[k], rs[k]))
    decreases |calls|
  {
    hide AnswerTo;
    hide Told;
    hide GoesOn;
    hide Tells;
    hide Last;
    var a := AnswerTo(sv, st, calls[0]);
    var st' := if a.Some? then a.value.st else st;
    OneTells(sv, st, calls[0]);
    if k == 0 {
      assert calls[..0] == [];
      AllToldSome(sv, st', calls[1..]);
    } else {
      SessionTells(sv, st', calls[1..], k - 1);
      assert calls[..k][1..] == calls[1..][..k - 1];
      DeviceAfterMore(sv, st.file, calls[..k]);
    }
  }

  lemma AllToldSome(sv: Service, st: State, calls: seq<Call>)
    ensures AllTold(sv, st, calls) == [] <==> calls == []
  {
  }

  method MakeCall(s: Session, call: Call) returns (r: Outcome<Text>)
    requires s.Idle() && s.sv.Sound() && call.Fits()
    modifies s
    ensures var a := AnswerTo(s.sv, old(s.conn.st), call);
            && r == Told(call, a)
            && (s.Idle() <==> GoesOn(call, a))
            && (GoesOn(call, a) ==> s.conn.st == if a.Some? then a.value.st else old(s.conn.st))
  {
    hide Answered;
    match call {
      case DoOpen(path) =>
        OpenNeverEnds(s.sv, s.conn.st, path);
        var o := s.OpenDevice(path);
        match o {
          case Fine(_) => return Fine([]);
          case Failed(e) => return Failed(e);
        }
      case DoRead(want, off) =>
        ReadNeverEnds(s.sv, s.conn.st, off, Min(want, MAX_READ));
        r := s.ReadAt(want, off);
      case DoUpdate =>
        r := s.AskUpdate();
    }
  }

  lemma ReadNeverEnds(sv: Service, st: State, off: nat, len: nat)
    ensures Answered(sv, st, Read(off, len)).ended.None? && Answered(sv, st, Read(off, len)).st == st
  {
  }

  lemma OpenNeverEnds(sv: Service, st: State, path: Text)
    ensures Answered(sv, st, Open(path)).ended.None?
  {
  }

  /** Over a whole session, whatever is called in whatever order and however the bytes
      of either side arrive, every reply decoded is the answer to the request just sent,
      until the session ends or a text is too long for the client. */
  method MakeCalls(s: Session, calls: seq<Call>) returns (rs: seq<Outcome<Text>>)
    requires s.Idle() && s.sv.Sound() && forall c :: c in calls ==> c.Fits()
    modifies s
    ensures rs == AllTold(s.sv, old(s.conn.st), calls)
  {
    hide AnswerTo;
    hide Told;
    hide GoesOn;
    hide AllTold;
    rs := [];
    ghost var st0 := s.conn.st;
    var i := 0;
    NoneTold(s.sv, st0, calls);
    while i < |calls|
      invariant i <= |calls| && s.Idle()
      invariant AllTold(s.sv, st0, calls) == rs + AllTold(s.sv, s.conn.st, calls[i..])
    {
      assert calls[i] in calls;
      OneTold(s.sv, s.conn.st, calls, i, rs);
      var r := MakeCall(s, calls[i]);
      rs := rs + [r];
      i := i + 1;
      if !s.AtBoundary() {
        return rs;
      }
    }
    NoneLeft(s.sv, s.conn.st, calls, i, rs);
  }

  lemma NoneTold(sv: Service, st: State, calls: seq<Call>)
    ensures AllTold(sv, st, calls) == [] + AllTold(sv, st, calls[0..])
  {
    assert calls[0..] == calls;
  }

  lemma OneTold(sv: Service, st: State, calls: seq<Call>, i: nat, rs: seq<Outcome<Text>>)
    requires i < |calls|
    ensures var a := AnswerTo(sv, st, calls[i]);
            var more := if GoesOn(calls[i], a)
                        then AllTold(sv, if a.Some? then a.value.st else st, calls[i + 1..]) else [];
            rs + AllTold(sv, st, calls[i..]) == rs + [Told(calls[i], a)] + more
  {
    hide AnswerTo;
    hide Told;
    hide GoesOn;
    assert calls[i..][0] == calls[i] && calls[i..][1..] == calls[i + 1..];
  }

  lemma NoneLeft(sv: Service, st: State, calls: seq<Call>, i: nat, rs: seq<Outcome<Text>>)
    requires i == |calls|
    ensures rs + AllTold(sv, st, calls[i..]) == rs
  {
    assert calls[i..] == [];
  }
}
