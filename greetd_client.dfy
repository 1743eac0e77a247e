/**
 * The greetd login protocol client: create a session, answer one secret
 * prompt with the password, expect success, then ask greetd to start the
 * session command; or cancel a half-created session. The exchanges are first
 * given as functions on a channel value (what each operation sends, reads and
 * returns), then as the methods of a client object that owns its stream and
 * is proved to behave as those functions say.
 */
module GreetdClient {
  import opened Wrappers
  import opened Ipc
  import Argv

  /** A prompt the client answers with the password. */
  predicate IsPrompt(r: Response)
  {
    r.AuthMessage? && (r.authMessageType == Secret || r.authMessageType == SecretVisible)
  }

  /** An error built from a fixed prefix and the daemon's `Error` reply. */
  function DaemonFailure(prefix: string, errorType: ErrorType, description: string): Failure
  {
    Failure(prefix + ErrorTypeName(errorType) + " - " + description)
  }

  const UnexpectedAuthMessageType := Failure("Unexpected auth message type")
  const UnexpectedDuringAuth := Failure("Unexpected response during auth")
  const UnexpectedAfterPassword := Failure("Unexpected response after password")
  const UnexpectedToCancel := Failure("Unexpected response to cancel")
  const EmptySessionCommand := Failure("Empty session command")

  /** `send_password`: answer the prompt with the password and expect `Success`. */
  function PasswordExchange(ch: Channel, password: string): Exchange<()>
  {
    var s := Send(ch, PostAuthMessageResponse(Some(password)));
    if s.result.Err? then Exchange(Err(s.result.error), s.after)
    else
      var r := Read(s.after);
      if r.result.Err? then Exchange(Err(r.result.error), r.after)
      else match r.result.value
        case Success => Exchange(Ok(()), r.after)
        case Error(t, d) => Exchange(Err(DaemonFailure("Authentication failed: ", t, d)), r.after)
        case AuthMessage(_, _) => Exchange(Err(UnexpectedAfterPassword), r.after)
  }

  /** `authenticate`: `CreateSession`, one reply, and the password only if that reply is a secret prompt. */
  function AuthExchange(ch: Channel, username: string, password: string): Exchange<()>
  {
    var s := Send(ch, CreateSession(username));
    if s.result.Err? then Exchange(Err(s.result.error), s.after)
    else
      var r := Read(s.after);
      if r.result.Err? then Exchange(Err(r.result.error), r.after)
      else match r.result.value
        case AuthMessage(kind, _) =>
          if kind == Secret || kind == SecretVisible then PasswordExchange(r.after, password)
          else Exchange(Err(UnexpectedAuthMessageType), r.after)
        case Error(t, d) => Exchange(Err(DaemonFailure("Auth error: ", t, d)), r.after)
        case Success => Exchange(Err(UnexpectedDuringAuth), r.after)
  }

  /** `start_session`: split the command into arguments, refuse an empty vector, send `StartSession` and read nothing. */
  function StartExchange(ch: Channel, command: string): (x: Exchange<()>)
    ensures Argv.IsBlank(command) ==> x == Exchange(Err(EmptySessionCommand), ch)
    ensures !Argv.IsBlank(command) ==> x == Send(ch, StartSession(Argv.SplitWhitespace(command), []))
  {
    var args := Argv.SplitWhitespace(command);
    if args == [] then Exchange(Err(EmptySessionCommand), ch)
    else Send(ch, StartSession(args, []))
  }

  /** `cancel_session`: send `CancelSession` and expect `Success`. */
  function CancelExchange(ch: Channel): Exchange<()>
  {
    var s := Send(ch, CancelSession);
    if s.result.Err? then Exchange(Err(s.result.error), s.after)
    else
      var r := Read(s.after);
      if r.result.Err? then Exchange(Err(r.result.error), r.after)
      else match r.result.value
        case Success => Exchange(Ok(()), r.after)
        case Error(t, d) => Exchange(Err(DaemonFailure("Cancel failed: ", t, d)), r.after)
        case AuthMessage(_, _) => Exchange(Err(UnexpectedToCancel), r.after)
  }

  /** The result of `login` and the connection it used, if connecting succeeded. */
  datatype LoginRun = LoginRun(result: Result<()>, conn: Option<Channel>)

  /** `login`: connect, authenticate, then start the session on the same connection. */
  function LoginExchange(socket: Socket, username: string, password: string, command: string): LoginRun
  {
    if !socket.listening then LoginRun(Err(ConnectFailed), None)
    else
      var a := AuthExchange(Opened(socket), username, password);
      if a.result.Err? then LoginRun(a.result, Some(a.after))
      else
        var s := StartExchange(a.after, command);
        LoginRun(s.result, Some(s.after))
  }

  /** What the daemon must do for an authentication to succeed: one secret prompt, then `Success`. */
  predicate AcceptsLogin(inbox: seq<Response>, writesLeft: nat)
  {
    writesLeft >= 2 && |inbox| >= 2 && IsPrompt(inbox[0]) && inbox[1] == Success
  }

  // ---------------------------------------------------------------------------
  // Properties of the exchanges

  /**
   * The transfers `authenticate` adds to the log, read off the daemon's
   * replies: `CreateSession` and its reply, then after a secret prompt the
   * password and the reply to it, as far as the stream and the daemon go.
   */
  ghost function AuthTransfers(ch: Channel, username: string, password: string): seq<Event>
  {
    if ch.writesLeft == 0 then []
    else if ch.inbox == [] then [Sent(CreateSession(username))]
    else
      [Sent(CreateSession(username)), Received(ch.inbox[0])]
      + (if IsPrompt(ch.inbox[0]) && ch.writesLeft >= 2 then
           [Sent(PostAuthMessageResponse(Some(password)))] + (if |ch.inbox| > 1 then [Received(ch.inbox[1])] else [])
         else [])
  }

  /** `authenticate` appends exactly `AuthTransfers` to the log. */
  lemma AuthenticateTransfers(ch: Channel, username: string, password: string)
    ensures AuthExchange(ch, username, password).after.log == ch.log + AuthTransfers(ch, username, password)
  {
    var x := AuthExchange(ch, username, password);
    var added := AuthTransfers(ch, username, password);
    if ch.writesLeft > 0 && ch.inbox != [] {
      var opening := [Sent(CreateSession(username)), Received(ch.inbox[0])];
      if IsPrompt(ch.inbox[0]) && ch.writesLeft >= 2 {
        var pw := Sent(PostAuthMessageResponse(Some(password)));
        if |ch.inbox| > 1 {
          assert added == opening + ([pw] + [Received(ch.inbox[1])]);
          assert x.after.log == ch.log + opening + [pw] + [Received(ch.inbox[1])];
        } else {
          assert added == opening + ([pw] + []);
          assert x.after.log == ch.log + opening + [pw];
        }
      } else {
        assert added == opening + [];
        assert x.after.log == ch.log + opening;
      }
    }
  }

  /** `authenticate` sends `CreateSession` with the given user before anything else, and only appends to the log. */
  lemma AuthenticateOpensWithCreateSession(ch: Channel, username: string, password: string)
    ensures var x := AuthExchange(ch, username, password);
      && ch.log <= x.after.log
      && (ch.writesLeft == 0 ==> x == Exchange(Err(WriteFailed), ch))
      && (ch.writesLeft > 0 ==> |x.after.log| > |ch.log| && x.after.log[|ch.log|] == Sent(CreateSession(username)))
  {
    AuthenticateTransfers(ch, username, password);
  }

  /**
   * The requests `authenticate` adds: `CreateSession`, and the password
   * exactly when the first reply is a secret prompt (and the stream takes
   * the write). Every other first reply fails, with only `CreateSession` sent.
   */
  lemma AuthenticateRequests(ch: Channel, username: string, password: string)
    ensures var x := AuthExchange(ch, username, password);
      && Requests(x.after.log)
         == Requests(ch.log) + (if ch.writesLeft == 0 then []
                                else if ch.writesLeft >= 2 && ch.inbox != [] && IsPrompt(ch.inbox[0])
                                then [CreateSession(username), PostAuthMessageResponse(Some(password))]
                                else [CreateSession(username)])
      && (ch.inbox != [] && !IsPrompt(ch.inbox[0]) ==> x.result.Err?)
  {
    AuthenticateTransfers(ch, username, password);
    var added := AuthTransfers(ch, username, password);
    RequestsAppend(ch.log, added);
    var cs := CreateSession(username);
    var pw := PostAuthMessageResponse(Some(password));
    if ch.writesLeft > 0 && ch.inbox != [] {
      var opening := [Sent(cs), Received(ch.inbox[0])];
      RequestsOfTransfers(cs, ch.inbox[0]);
      if IsPrompt(ch.inbox[0]) && ch.writesLeft >= 2 {
        var rest := if |ch.inbox| > 1 then [Received(ch.inbox[1])] else [];
        assert added == opening + ([Sent(pw)] + rest);
        RequestsOfTransfers(pw, ch.inbox[0]);
        RequestsOfTransfers(pw, if |ch.inbox| > 1 then ch.inbox[1] else Success);
        RequestsAppend([Sent(pw)], rest);
        RequestsAppend(opening, [Sent(pw)] + rest);
      } else {
        assert added == opening;
      }
    } else if ch.writesLeft > 0 {
      RequestsOfTransfers(cs, Success);
    }
  }

  /**
   * `authenticate` succeeds exactly when the daemon sends a secret prompt and
   * then `Success`; the transfers are then exactly create, prompt, password,
   * success.
   */
  lemma AuthenticateSucceeds(ch: Channel, username: string, password: string)
    ensures var x := AuthExchange(ch, username, password);
      && (x.result.Ok? <==> AcceptsLogin(ch.inbox, ch.writesLeft))
      && (x.result.Ok? ==>
            x.after == Channel(ch.log + [Sent(CreateSession(username)), Received(ch.inbox[0]),
                                         Sent(PostAuthMessageResponse(Some(password))), Received(Success)],
                               ch.inbox[2..], ch.writesLeft - 2))
  {
  }

  /**
   * A daemon `Error` reply becomes "Auth error: " (to `CreateSession`) or
   * "Authentication failed: " (to the password), then its type, " - " and its
   * description.
   */
  lemma AuthenticateReportsDaemonError(ch: Channel, username: string, password: string)
    requires ch.writesLeft > 0 && ch.inbox != []
    ensures var x := AuthExchange(ch, username, password);
      && (ch.inbox[0].Error? ==>
            x.result.Err?
            && x.result.error.message
               == "Auth error: " + ErrorTypeName(ch.inbox[0].errorType) + " - " + ch.inbox[0].description)
      && (ch.writesLeft >= 2 && |ch.inbox| >= 2 && IsPrompt(ch.inbox[0]) && ch.inbox[1].Error? ==>
            x.result.Err?
            && x.result.error.message
               == "Authentication failed: " + ErrorTypeName(ch.inbox[1].errorType) + " - " + ch.inbox[1].description)
  {
  }

  /** A password the daemon rejects after its secret prompt makes `login` fail with the "Authentication failed: " text. */
  lemma LoginReportsPasswordRejection(socket: Socket, username: string, password: string, command: string)
    requires socket.listening && socket.writesLeft >= 2 && |socket.replies| >= 2
    requires IsPrompt(socket.replies[0]) && socket.replies[1].Error?
    ensures var r := LoginExchange(socket, username, password, command).result;
      r.Err? && r.error.message
                == "Authentication failed: " + ErrorTypeName(socket.replies[1].errorType) + " - " + socket.replies[1].description
  {
    AuthenticateReportsDaemonError(Opened(socket), username, password);
  }

  /**
   * The password never reaches an error: against a daemon that answers both
   * alike (the same scripted replies), any two passwords make `authenticate`
   * return the same result and consume the stream alike.
   */
  lemma AuthenticateIndependentOfPassword(ch: Channel, username: string, p1: string, p2: string)
    ensures var x1, x2 := AuthExchange(ch, username, p1), AuthExchange(ch, username, p2);
      && x1.result == x2.result
      && x1.after.inbox == x2.after.inbox && x1.after.writesLeft == x2.after.writesLeft
      && |x1.after.log| == |x2.after.log|
  {
  }

  /** `start_session` sends exactly one `StartSession`, with the words of the command and no environment, and reads nothing. */
  lemma StartSessionRequest(ch: Channel, command: string)
    requires !Argv.IsBlank(command)
    ensures var x := StartExchange(ch, command);
      && x.after.inbox == ch.inbox
      && (x.result.Ok? <==> ch.writesLeft > 0)
      && (x.result.Ok? ==>
            exists args :: x.after.log == ch.log + [Sent(StartSession(args, []))]
              && args != [] && (forall k :: 0 <= k < |args| ==> Argv.IsWord(args[k]))
              && Argv.JoinWords(args) == Argv.Squeeze(command))
  {
    var args := Argv.SplitWhitespace(command);
    Argv.JoinSplitIsSqueeze(command);
  }

  /** `cancel_session` sends only `CancelSession` and succeeds exactly when the reply is `Success`. */
  lemma CancelRequests(ch: Channel)
    ensures var x := CancelExchange(ch);
      && ch.log <= x.after.log
      && Requests(x.after.log[|ch.log|..]) == (if ch.writesLeft > 0 then [CancelSession] else [])
      && (x.result.Ok? <==> ch.writesLeft > 0 && ch.inbox != [] && ch.inbox[0] == Success)
      && (ch.writesLeft > 0 && ch.inbox != [] && ch.inbox[0].Error? ==>
            x.result.Err?
            && x.result.error.message
               == "Cancel failed: " + ErrorTypeName(ch.inbox[0].errorType) + " - " + ch.inbox[0].description)
  {
    var x := CancelExchange(ch);
    var n := |ch.log|;
    if ch.writesLeft > 0 && ch.inbox != [] {
      assert x.after.log[n..] == [Sent(CancelSession), Received(ch.inbox[0])];
      assert [Sent(CancelSession), Received(ch.inbox[0])][..1] == [Sent(CancelSession)];
    } else if ch.writesLeft > 0 {
      assert x.after.log[n..] == [Sent(CancelSession)];
    } else {
      assert x.after.log[n..] == [];
    }
  }

  /** `authenticate`, started with no request outstanding, keeps the stream's request/reply alternation. */
  lemma AuthenticateAlternates(ch: Channel, username: string, password: string)
    requires Alternating(ch.log) && !Pending(ch.log)
    ensures Alternating(AuthExchange(ch, username, password).after.log)
  {
    AuthenticateTransfers(ch, username, password);
    var added := AuthTransfers(ch, username, password);
    assert Alternating(added) by {
      if ch.writesLeft > 0 && ch.inbox != [] {
        var opening := [Sent(CreateSession(username)), Received(ch.inbox[0])];
        var rest := added[2..];
        assert added == opening + rest;
        assert Alternating(rest);
        AlternatingAppend(opening, rest);
      }
    }
    AlternatingAppend(ch.log, added);
  }

  /** `start_session` keeps the alternation, and leaves nothing outstanding: it sends a request that gets no reply. */
  lemma StartSessionAlternates(ch: Channel, command: string)
    requires Alternating(ch.log) && !Pending(ch.log)
    ensures Alternating(StartExchange(ch, command).after.log) && !Pending(StartExchange(ch, command).after.log)
  {
    var x := StartExchange(ch, command);
    if x.after != ch {
      assert x.after.log == ch.log + [Sent(StartSession(Argv.SplitWhitespace(command), []))];
      AlternatingAppend(ch.log, [Sent(StartSession(Argv.SplitWhitespace(command), []))]);
    }
  }

  /** `cancel_session`, started with no request outstanding, keeps the alternation. */
  lemma CancelAlternates(ch: Channel)
    requires Alternating(ch.log) && !Pending(ch.log)
    ensures Alternating(CancelExchange(ch).after.log)
  {
    var x := CancelExchange(ch);
    var added: seq<Event>;
    if ch.writesLeft == 0 {
      added := [];
    } else if ch.inbox == [] {
      added := [Sent(CancelSession)];
    } else {
      added := [Sent(CancelSession), Received(ch.inbox[0])];
    }
    assert x.after.log == ch.log + added;
    AlternatingAppend(ch.log, added);
  }

  /**
   * `login` succeeds exactly when the socket accepts, the daemon prompts once
   * and then accepts, the stream takes three writes and the command is not
   * blank.
   */
  lemma LoginSucceeds(socket: Socket, username: string, password: string, command: string)
    ensures LoginExchange(socket, username, password, command).result.Ok? <==>
      socket.listening && socket.writesLeft >= 3 && AcceptsLogin(socket.replies, socket.writesLeft)
      && !Argv.IsBlank(command)
  {
    if socket.listening {
      AuthenticateSucceeds(Opened(socket), username, password);
    }
  }

  /** A successful `login` sent exactly create, password and start on its one connection, and read two replies. */
  lemma LoginSuccessTranscript(socket: Socket, username: string, password: string, command: string)
    requires LoginExchange(socket, username, password, command).result.Ok?
    ensures var run := LoginExchange(socket, username, password, command);
      && run.conn.Some?
      && Requests(run.conn.value.log)
         == [CreateSession(username), PostAuthMessageResponse(Some(password)),
             StartSession(Argv.SplitWhitespace(command), [])]
      && Reads(run.conn.value.log) == 2
  {
    var run := LoginExchange(socket, username, password, command);
    var ch := Opened(socket);
    LoginSucceeds(socket, username, password, command);
    AuthenticateTransfers(ch, username, password);
    var cs, pw := CreateSession(username), PostAuthMessageResponse(Some(password));
    var st := StartSession(Argv.SplitWhitespace(command), []);
    var first, second := [Sent(cs), Received(socket.replies[0])], [Sent(pw), Received(Success)];
    var a := AuthExchange(ch, username, password);
    assert AuthTransfers(ch, username, password) == first + ([Sent(pw)] + [Received(Success)]);
    assert a.after.log == first + second;
    assert run.conn.value.log == a.after.log + [Sent(st)];
    RequestsOfTransfers(cs, socket.replies[0]);
    RequestsOfTransfers(pw, Success);
    RequestsOfTransfers(st, Success);
    RequestsAppend(first, second);
    RequestsAppend(first + second, [Sent(st)]);
    ReadsAppend(first, second);
    ReadsAppend(first + second, [Sent(st)]);
  }

  /** The command is only checked once authentication has succeeded: a blank command is refused after create and password were sent. */
  lemma LoginValidatesAfterAuthentication(socket: Socket, username: string, password: string, command: string)
    requires socket.listening && AcceptsLogin(socket.replies, socket.writesLeft) && Argv.IsBlank(command)
    ensures var run := LoginExchange(socket, username, password, command);
      && run.result == Err(EmptySessionCommand)
      && run.conn.Some?
      && Requests(run.conn.value.log) == [CreateSession(username), PostAuthMessageResponse(Some(password))]
  {
    var ch := Opened(socket);
    AuthenticateSucceeds(ch, username, password);
    AuthenticateRequests(ch, username, password);
    assert AuthExchange(ch, username, password).after.log[0..] == AuthExchange(ch, username, password).after.log;
  }

  /**
   * Against a daemon that answers alike, the result of `login`, and so any
   * error the greeter shows, is the same whatever the password: no error text
   * is built from it. (The real daemon's answer of course depends on it.)
   */
  lemma LoginIndependentOfPassword(socket: Socket, username: string, p1: string, p2: string, command: string)
    ensures LoginExchange(socket, username, p1, command).result == LoginExchange(socket, username, p2, command).result
  {
    if socket.listening {
      var ch := Opened(socket);
      AuthenticateIndependentOfPassword(ch, username, p1, p2);
      AuthenticateSucceeds(ch, username, p1);
      AuthenticateSucceeds(ch, username, p2);
    }
  }

  /** The connection `login` used alternates requests and replies, so reads never outnumber sends. */
  lemma LoginAlternates(socket: Socket, username: string, password: string, command: string)
    ensures var run := LoginExchange(socket, username, password, command);
      run.conn.Some? ==> Alternating(run.conn.value.log) && Reads(run.conn.value.log) <= |Requests(run.conn.value.log)|
  {
    var run := LoginExchange(socket, username, password, command);
    if socket.listening {
      var ch := Opened(socket);
      var a := AuthExchange(ch, username, password);
      AuthenticateAlternates(ch, username, password);
      if a.result.Ok? {
        AuthenticateSucceeds(ch, username, password);
        StartSessionAlternates(a.after, command);
      }
      ReadsNeverExceedSends(run.conn.value.log);
    }
  }

  // ---------------------------------------------------------------------------
  // The client object

  /** `GreetdClient`: one owned connection, changed by every send and read. */
  class Client {
    var log: seq<Event>
    var inbox: seq<Response>
    var writesLeft: nat

    /** The connection's state as a value. */
    function State(): Channel
      reads this
    {
      Channel(log, inbox, writesLeft)
    }

    constructor (socket: Socket)
      ensures State() == Opened(socket)
    {
      log, inbox, writesLeft := [], socket.replies, socket.writesLeft;
    }

    /** `connect`: a new client on the socket, or the connection error. */
    static method Connect(socket: Socket) returns (r: Result<Client>)
      ensures r.Ok? <==> socket.listening
      ensures r.Ok? ==> fresh(r.value) && r.value.State() == Opened(socket)
      ensures r.Err? ==> r.error == ConnectFailed
    {
      if !socket.listening {
        return Err(ConnectFailed);
      }
      var c := new Client(socket);
      r := Ok(c);
    }

    /** `send_request`. */
    method SendRequest(req: Request) returns (r: Result<()>)
      modifies this
      ensures Exchange(r, State()) == Send(old(State()), req)
    {
      if writesLeft == 0 {
        return Err(WriteFailed);
      }
      log, writesLeft := log + [Sent(req)], writesLeft - 1;
      r := Ok(());
    }

    /** `read_response`. */
    method ReadResponse() returns (r: Result<Response>)
      modifies this
      ensures Exchange(r, State()) == Read(old(State()))
    {
      if inbox == [] {
        return Err(ReadFailed);
      }
      var reply := inbox[0];
      log, inbox := log + [Received(reply)], inbox[1..];
      r := Ok(reply);
    }

    /** `send_password`. */
    method SendPassword(password: string) returns (r: Result<()>)
      modifies this
      ensures Exchange(r, State()) == PasswordExchange(old(State()), password)
    {
      var s := SendRequest(PostAuthMessageResponse(Some(password)));
      if s.Err? {
        return Err(s.error);
      }
      var reply := ReadResponse();
      if reply.Err? {
        return Err(reply.error);
      }
      match reply.value
      case Success => r := Ok(());
      case Error(t, d) => r := Err(DaemonFailure("Authentication failed: ", t, d));
      case AuthMessage(_, _) => r := Err(UnexpectedAfterPassword);
    }

    /** `authenticate`. */
    method Authenticate(username: string, password: string) returns (r: Result<()>)
      modifies this
      ensures Exchange(r, State()) == AuthExchange(old(State()), username, password)
    {
      var s := SendRequest(CreateSession(username));
      if s.Err? {
        return Err(s.error);
      }
      var reply := ReadResponse();
      if reply.Err? {
        return Err(reply.error);
      }
      match reply.value
      case AuthMessage(kind, _) =>
        if kind == Secret || kind == SecretVisible {
          r := SendPassword(password);
        } else {
          r := Err(UnexpectedAuthMessageType);
        }
      case Error(t, d) => r := Err(DaemonFailure("Auth error: ", t, d));
      case Success => r := Err(UnexpectedDuringAuth);
    }

    /** `start_session`. */
    method StartSession(command: string) returns (r: Result<()>)
      modifies this
      ensures Exchange(r, State()) == StartExchange(old(State()), command)
    {
      var args := Argv.SplitWhitespace(command);
      if args == [] {
        return Err(EmptySessionCommand);
      }
      r := SendRequest(Request.StartSession(args, []));
    }

    /** `cancel_session`. */
    method CancelSession() returns (r: Result<()>)
      modifies this
      ensures Exchange(r, State()) == CancelExchange(old(State()))
    {
      var s := SendRequest(Request.CancelSession);
      if s.Err? {
        return Err(s.error);
      }
      var reply := ReadResponse();
      if reply.Err? {
        return Err(reply.error);
      }
      match reply.value
      case Success => r := Ok(());
      case Error(t, d) => r := Err(DaemonFailure("Cancel failed: ", t, d));
      case AuthMessage(_, _) => r := Err(UnexpectedToCancel);
    }
  }

  /**
   * `login`. The connection is returned beside the result so that callers of
   * the model can see what was sent on it; the greeter itself drops it.
   */
  method Login(socket: Socket, username: string, password: string, command: string)
    returns (r: Result<()>, conn: Option<Client>)
    ensures r == LoginExchange(socket, username, password, command).result
    ensures conn.Some? <==> socket.listening
    ensures conn.Some? ==>
              fresh(conn.value)
              && Some(conn.value.State()) == LoginExchange(socket, username, password, command).conn
  {
    var c := Client.Connect(socket);
    if c.Err? {
      return Err(c.error), None;
    }
    var client := c.value;
    conn := Some(client);
    r := client.Authenticate(username, password);
    if r.Err? {
      return;
    }
    r := client.StartSession(command);
  }
}
