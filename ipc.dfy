/**
 * The greetd IPC vocabulary as the client uses it, and an abstract stream in
 * place of `greetd_ipc::send`/`greetd_ipc::read` over the Unix socket: the
 * stream keeps a log of what went each way and plays back a scripted queue of
 * daemon replies. Framing and JSON encoding belong to the foreign library and
 * are not modelled.
 */
module Ipc {
  import opened Wrappers

  /** The kinds of authentication message the client distinguishes. */
  datatype AuthMessageType = Secret | SecretVisible | Informational | ErrorNotice

  /** greetd's error classes. */
  datatype ErrorType = GenericError | AuthError

  /** The text `{:?}` prints for an error type (the variant names `Error` and `AuthError`). */
  function ErrorTypeName(t: ErrorType): string
  {
    match t
    case GenericError => "Error"
    case AuthError => "AuthError"
  }

  datatype Request =
    | CreateSession(username: string)
    | PostAuthMessageResponse(response: Option<string>)
    | StartSession(cmd: seq<string>, env: seq<string>)
    | CancelSession

  datatype Response =
    | Success
    | Error(errorType: ErrorType, description: string)
    | AuthMessage(authMessageType: AuthMessageType, authMessage: string)

  /** One completed transfer on the stream. */
  datatype Event = Sent(request: Request) | Received(response: Response)

  /**
   * The state of one connection: everything transferred so far, the replies
   * the daemon still has to give, and how many more writes the peer accepts
   * before the stream breaks.
   */
  datatype Channel = Channel(log: seq<Event>, inbox: seq<Response>, writesLeft: nat)

  /** What connecting to the daemon's socket would give: whether it accepts, and how the daemon behaves. */
  datatype Socket = Socket(listening: bool, replies: seq<Response>, writesLeft: nat)

  /** The result of one operation on a channel, with the channel afterwards. */
  datatype Exchange<+T> = Exchange(result: Result<T>, after: Channel)

  /** Texts of the I/O errors; the real ones come from the operating system. */
  const ConnectFailed := Failure("connection to /run/greetd.sock failed")
  const WriteFailed := Failure("write to greetd failed")
  const ReadFailed := Failure("read from greetd failed")

  /** A freshly opened connection to the socket. */
  function Opened(socket: Socket): (ch: Channel)
    ensures ch.log == [] && ch.inbox == socket.replies && ch.writesLeft == socket.writesLeft
  {
    Channel([], socket.replies, socket.writesLeft)
  }

  /** `greetd_ipc::send`: the request is logged, or the write fails and nothing is transferred. */
  function Send(ch: Channel, req: Request): (x: Exchange<()>)
    ensures x.result.Ok? <==> ch.writesLeft > 0
    ensures x.result.Ok? ==> x.after == ch.(log := ch.log + [Sent(req)], writesLeft := ch.writesLeft - 1)
    ensures x.result.Err? ==> x.after == ch && x.result.error == WriteFailed
  {
    if ch.writesLeft == 0 then Exchange(Err(WriteFailed), ch)
    else Exchange(Ok(()), ch.(log := ch.log + [Sent(req)], writesLeft := ch.writesLeft - 1))
  }

  /** `greetd_ipc::read`: the next scripted reply, or an I/O failure when the daemon has none left. */
  function Read(ch: Channel): (x: Exchange<Response>)
    ensures x.result.Ok? <==> ch.inbox != []
    ensures x.result.Ok? ==>
              x.result.value == ch.inbox[0]
              && x.after == ch.(log := ch.log + [Received(ch.inbox[0])], inbox := ch.inbox[1..])
    ensures x.result.Err? ==> x.after == ch && x.result.error == ReadFailed
  {
    if ch.inbox == [] then Exchange(Err(ReadFailed), ch)
    else Exchange(Ok(ch.inbox[0]), ch.(log := ch.log + [Received(ch.inbox[0])], inbox := ch.inbox[1..]))
  }

  /** The requests of a log, in order. */
  function Requests(log: seq<Event>): (reqs: seq<Request>)
    ensures |reqs| <= |log|
  {
    if log == [] then []
    else Requests(log[..|log| - 1]) + (if log[|log| - 1].Sent? then [log[|log| - 1].request] else [])
  }

  /** Whether the daemon answers this request (it may exec into the session after `StartSession`). */
  predicate ExpectsReply(req: Request)
  {
    !req.StartSession?
  }

  /** The number of replies read. */
  function Reads(log: seq<Event>): nat
  {
    if log == [] then 0 else Reads(log[..|log| - 1]) + (if log[|log| - 1].Received? then 1 else 0)
  }

  /** The number of requests sent that the daemon answers. */
  function Answerable(log: seq<Event>): nat
  {
    if log == [] then 0
    else Answerable(log[..|log| - 1]) + (if log[|log| - 1].Sent? && ExpectsReply(log[|log| - 1].request) then 1 else 0)
  }

  /** The log ends with a request the daemon has still to answer. */
  predicate Pending(log: seq<Event>)
  {
    log != [] && log[|log| - 1].Sent? && ExpectsReply(log[|log| - 1].request)
  }

  /**
   * Strict request/reply alternation: every reply is read right after a
   * request that the daemon answers, and every such request, unless it is the
   * last transfer, is followed by its reply. So no request is pipelined and
   * none gets two replies.
   */
  predicate Alternating(log: seq<Event>)
  {
    && (forall i :: 0 <= i < |log| && log[i].Received? ==>
          0 < i && log[i - 1].Sent? && ExpectsReply(log[i - 1].request))
    && (forall i :: 0 <= i < |log| - 1 && log[i].Sent? && ExpectsReply(log[i].request) ==>
          log[i + 1].Received?)
  }

  /** Every prefix of an alternating log alternates. */
  lemma AlternatingPrefix(log: seq<Event>, k: nat)
    requires Alternating(log) && k <= |log|
    ensures Alternating(log[..k])
  {
    var p := log[..k];
    assert forall i :: 0 <= i < k ==> p[i] == log[i];
  }

  /** On an alternating log, replies read never outnumber the answerable requests sent. */
  lemma {:induction false} ReadsNeverExceedSends(log: seq<Event>)
    requires Alternating(log)
    ensures Reads(log) <= Answerable(log) <= |Requests(log)|
  {
    if log != [] {
      var init := log[..|log| - 1];
      AlternatingPrefix(log, |log| - 1);
      if log[|log| - 1].Received? {
        var prefix := log[..|log| - 2];
        assert init[..|init| - 1] == prefix;
        AlternatingPrefix(log, |log| - 2);
        ReadsNeverExceedSends(prefix);
      } else {
        ReadsNeverExceedSends(init);
      }
    }
  }

  /** Appending a block that starts with a request to a log with no request outstanding keeps it alternating. */
  lemma AlternatingAppend(a: seq<Event>, b: seq<Event>)
    requires Alternating(a) && Alternating(b)
    requires b == [] || (b[0].Sent? && !Pending(a))
    ensures Alternating(a + b)
  {
    var c := a + b;
    forall i | 0 <= i < |c| && c[i].Received?
      ensures 0 < i && c[i - 1].Sent? && ExpectsReply(c[i - 1].request)
    {
      if i < |a| {
        assert c[i] == a[i] && (0 < i ==> c[i - 1] == a[i - 1]);
      } else {
        assert c[i] == b[i - |a|];
        assert i - |a| > 0;
        assert c[i - 1] == b[i - 1 - |a|];
      }
    }
    forall i | 0 <= i < |c| - 1 && c[i].Sent? && ExpectsReply(c[i].request)
      ensures c[i + 1].Received?
    {
      if i < |a| - 1 {
        assert c[i] == a[i] && c[i + 1] == a[i + 1];
      } else if i >= |a| {
        assert c[i] == b[i - |a|] && c[i + 1] == b[i + 1 - |a|];
      }
    }
  }

  /** The requests of one request, of one reply, and of a request with its reply. */
  lemma RequestsOfTransfers(req: Request, resp: Response)
    ensures Requests([Sent(req)]) == [req]
    ensures Requests([Received(resp)]) == []
    ensures Requests([Sent(req), Received(resp)]) == [req]
    ensures Reads([Sent(req)]) == 0 && Reads([Sent(req), Received(resp)]) == 1
  {
    assert [Sent(req), Received(resp)][..1] == [Sent(req)];
  }

  /** The replies read in a concatenation. */
  lemma {:induction false} ReadsAppend(a: seq<Event>, b: seq<Event>)
    ensures Reads(a + b) == Reads(a) + Reads(b)
    decreases |b|
  {
    if b == [] {
      assert a + b == a;
    } else {
      var b' := b[..|b| - 1];
      assert (a + b)[..|a + b| - 1] == a + b';
      ReadsAppend(a, b');
    }
  }

  /** The requests of a concatenation. */
  lemma {:induction false} RequestsAppend(a: seq<Event>, b: seq<Event>)
    ensures Requests(a + b) == Requests(a) + Requests(b)
    decreases |b|
  {
    if b == [] {
      assert a + b == a;
    } else {
      var b' := b[..|b| - 1];
      assert (a + b)[..|a + b| - 1] == a + b';
      RequestsAppend(a, b');
    }
  }
}
