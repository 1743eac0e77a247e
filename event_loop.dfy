/**
 * The greeter's main loop: each key press is one step on the form, Enter
 * runs the login exchange with greetd, and the loop ends only on a
 * successful login or Ctrl+Esc. Drawing, terminal set-up and reading events
 * from the terminal are not modelled; the events arrive as a sequence, each
 * with the daemon's sockets as the step would find them.
 *
 * What a step and a run do is first given on form values (`Step`, `Run`);
 * the methods on the `App` object are proved to do exactly that.
 */
module EventLoop {
  import opened Wrappers
  import opened Ipc
  import GreetdClient
  import opened Ui

  datatype KeyCode = Tab | BackTab | Enter | Char(c: char) | Backspace | Left | Right | Esc | OtherKey

  /** A key press and whether Control was held. */
  datatype Key = Key(code: KeyCode, control: bool)

  /**
   * How the daemon would answer during one step: the socket for the login,
   * and the socket for the fresh connection that cancels after a failed login.
   */
  datatype Peer = Peer(login: Socket, cancel: Socket)

  const MissingCredentials := "Please enter username and password"

  /** `String::pop`, its result ignored: the string without its last character, if any. */
  function DropLast(s: string): (t: string)
    ensures s == [] ==> t == []
    ensures s != [] ==> t + [s[|s| - 1]] == s
  {
    if s == [] then [] else s[..|s| - 1]
  }

  /** What one key press leaves behind: the form, whether the loop breaks, and the cancel connection as it ends up. */
  datatype Outcome = Outcome(form: Form, exit: bool, cancel: Option<Channel>)

  /** Whether `login` with the form's credentials and selected session succeeds against this daemon. */
  predicate LoginAccepted(cfg: UiConfig, f: Form, peer: Peer)
    requires FormValid(cfg, f) && |cfg.sessions| > 0
  {
    GreetdClient.LoginExchange(peer.login, f.username, f.password, SelectedCommand(cfg, f)).result.Ok?
  }

  /** The `KeyCode::Enter` arm on a form value. */
  function EnterStep(cfg: UiConfig, f: Form, peer: Peer): (o: Outcome)
    requires FormValid(cfg, f) && |cfg.sessions| > 0
    ensures o.exit <==> f.username != [] && f.password != [] && LoginAccepted(cfg, f, peer)
    ensures o.exit ==> o.form == f && o.cancel == None
    ensures !o.exit ==> o.form.errorMessage.Some? && o.form.(errorMessage := f.errorMessage, password := f.password) == f
  {
    if f.username != [] && f.password != [] then
      var r := GreetdClient.LoginExchange(peer.login, f.username, f.password, SelectedCommand(cfg, f)).result;
      if r.Ok? then Outcome(f, true, None)
      else
        Outcome(WithError(f, "Login failed: " + r.error.message, cfg.clearPasswordOnError), false,
                if peer.cancel.listening then Some(GreetdClient.CancelExchange(Opened(peer.cancel)).after) else None)
    else Outcome(WithError(f, MissingCredentials, cfg.clearPasswordOnError), false, None)
  }

  /**
   * When Enter does not end the loop: without both credentials the error is
   * "Please enter username and password" and no connection is opened; after a
   * failed login the error is "Login failed: " and the login's error, and a
   * cancel is tried on a fresh connection exactly when one opens, sending only
   * `CancelSession` on it.
   */
  lemma EnterFailureCancels(cfg: UiConfig, f: Form, peer: Peer)
    requires FormValid(cfg, f) && |cfg.sessions| > 0
    ensures var o := EnterStep(cfg, f, peer);
      && ((f.username == [] || f.password == []) ==>
            o.form.errorMessage == Some(MissingCredentials) && o.cancel == None)
      && (f.username != [] && f.password != [] && !LoginAccepted(cfg, f, peer) ==>
            var e := GreetdClient.LoginExchange(peer.login, f.username, f.password, SelectedCommand(cfg, f)).result.error;
            && o.form.errorMessage == Some("Login failed: " + e.message)
            && (o.cancel.Some? <==> peer.cancel.listening)
            && (o.cancel.Some? ==>
                  Requests(o.cancel.value.log) == (if peer.cancel.writesLeft > 0 then [CancelSession] else [])))
      && o.form.password == (if !o.exit && cfg.clearPasswordOnError then [] else f.password)
  {
    if peer.cancel.listening {
      var ch := Opened(peer.cancel);
      GreetdClient.CancelRequests(ch);
      var log := GreetdClient.CancelExchange(ch).after.log;
      assert log[|ch.log|..] == log;
    }
  }

  /**
   * End to end: when the daemon prompts for the secret and then rejects the
   * password with `Error(t, d)`, Enter shows
   * "Login failed: Authentication failed: " followed by the type's name,
   * " - " and the description.
   */
  lemma EnterShowsPasswordRejection(cfg: UiConfig, f: Form, peer: Peer)
    requires FormValid(cfg, f) && |cfg.sessions| > 0
    requires f.username != [] && f.password != []
    requires peer.login.listening && peer.login.writesLeft >= 2 && |peer.login.replies| >= 2
    requires GreetdClient.IsPrompt(peer.login.replies[0]) && peer.login.replies[1].Error?
    ensures var rejected := peer.login.replies[1];
      EnterStep(cfg, f, peer).form.errorMessage
      == Some("Login failed: " + ("Authentication failed: " + ErrorTypeName(rejected.errorType) + " - " + rejected.description))
  {
    GreetdClient.LoginReportsPasswordRejection(peer.login, f.username, f.password, SelectedCommand(cfg, f));
    EnterFailureCancels(cfg, f, peer);
  }

  /**
   * One pass of the `match key.code` in `run_app`, on a form value. The loop
   * breaks exactly on Ctrl+Esc and on an Enter whose login succeeds, and only
   * Enter opens a cancel connection.
   */
  function Step(cfg: UiConfig, f: Form, key: Key, peer: Peer): (o: Outcome)
    requires FormValid(cfg, f) && |cfg.sessions| > 0
    ensures FormValid(cfg, o.form)
    ensures o.exit <==>
              || (key.code.Esc? && key.control)
              || (key.code.Enter? && f.username != [] && f.password != [] && LoginAccepted(cfg, f, peer))
    ensures !key.code.Enter? ==> o.cancel == None
  {
    match key.code
    case Tab => Outcome(f.(focus := f.focus.Next(), errorMessage := None), false, None)
    case BackTab => Outcome(f.(focus := f.focus.Prev(), errorMessage := None), false, None)
    case Enter => EnterStep(cfg, f, peer)
    case Char(c) =>
      Outcome(f.(username := if f.focus == Username then f.username + [c] else f.username,
                 password := if f.focus == Password then f.password + [c] else f.password,
                 errorMessage := None), false, None)
    case Backspace =>
      Outcome(f.(username := if f.focus == Username then DropLast(f.username) else f.username,
                 password := if f.focus == Password then DropLast(f.password) else f.password,
                 errorMessage := None), false, None)
    case Left =>
      if f.focus != Session then Outcome(f, false, None)
      else
        Outcome(f.(selectedSession := if f.selectedSession > 0 then f.selectedSession - 1 else f.selectedSession,
                   errorMessage := None), false, None)
    case Right =>
      if f.focus != Session then Outcome(f, false, None)
      else
        Outcome(f.(selectedSession := if f.selectedSession < |cfg.sessions| - 1 then f.selectedSession + 1
                                      else f.selectedSession,
                   errorMessage := None), false, None)
    case Esc => Outcome(f, key.control, None)
    case OtherKey => Outcome(f, false, None)
  }

  /**
   * Which keys change which field: the text fields only by typing or erasing
   * into the focused one (and the password also when a failed Enter clears
   * it), the selection only by Left/Right on the session field, the focus
   * only by Tab/BackTab.
   */
  lemma StepChangesFocusedField(cfg: UiConfig, f: Form, key: Key, peer: Peer)
    requires FormValid(cfg, f) && |cfg.sessions| > 0
    ensures var g := Step(cfg, f, key, peer).form;
      && (g.username != f.username ==> f.focus == Username && (key.code.Char? || key.code.Backspace?))
      && (g.password != f.password ==>
            || (f.focus == Password && (key.code.Char? || key.code.Backspace?))
            || (key.code.Enter? && cfg.clearPasswordOnError && g.password == []))
      && (g.selectedSession != f.selectedSession ==> f.focus == Session && (key.code.Left? || key.code.Right?))
      && (g.focus != f.focus ==> key.code.Tab? || key.code.BackTab?)
  {
  }

  /**
   * What each editing key does to the form: Tab and BackTab move the focus on
   * or back, a character is appended to the focused text field, Backspace
   * drops its last character (an empty field stays empty), and Left/Right on
   * the session field step the selection by one, stopping at either end.
   */
  lemma StepEdits(cfg: UiConfig, f: Form, key: Key, peer: Peer)
    requires FormValid(cfg, f) && |cfg.sessions| > 0
    ensures var g := Step(cfg, f, key, peer).form;
      && (key.code.Tab? ==> g.focus == f.focus.Next())
      && (key.code.BackTab? ==> g.focus == f.focus.Prev())
      && (key.code.Char? && f.focus == Username ==> g.username == f.username + [key.code.c])
      && (key.code.Char? && f.focus == Password ==> g.password == f.password + [key.code.c])
      && (key.code.Backspace? && f.focus == Username ==> g.username == DropLast(f.username))
      && (key.code.Backspace? && f.focus == Password ==> g.password == DropLast(f.password))
      && (key.code.Left? && f.focus == Session ==>
            g.selectedSession == (if f.selectedSession > 0 then f.selectedSession - 1 else 0))
      && (key.code.Right? && f.focus == Session ==>
            g.selectedSession == (if f.selectedSession < |cfg.sessions| - 1 then f.selectedSession + 1
                                  else |cfg.sessions| - 1))
  {
  }

  /**
   * The error line: a key that edits the form or moves the focus clears it,
   * an Enter that does not end the loop sets it, and the rest leave it alone.
   */
  lemma StepErrorLine(cfg: UiConfig, f: Form, key: Key, peer: Peer)
    requires FormValid(cfg, f) && |cfg.sessions| > 0
    ensures var o := Step(cfg, f, key, peer);
      && (key.code.Tab? || key.code.BackTab? || key.code.Char? || key.code.Backspace? ==> o.form.errorMessage == None)
      && ((key.code.Left? || key.code.Right?) ==>
            o.form.errorMessage == if f.focus == Session then None else f.errorMessage)
      && (key.code.Enter? && !o.exit ==> o.form.errorMessage.Some?)
      && (key.code.Esc? || key.code.OtherKey? ==> o.form == f)
  {
  }

  /**
   * Whatever the password, as long as it is present or absent alike, a step
   * against a daemon that answers alike shows the same error: the password
   * never reaches the error line.
   */
  lemma StepErrorIndependentOfPassword(cfg: UiConfig, f: Form, other: string, key: Key, peer: Peer)
    requires FormValid(cfg, f) && |cfg.sessions| > 0
    requires (f.password == []) == (other == [])
    ensures Step(cfg, f, key, peer).form.errorMessage == Step(cfg, f.(password := other), key, peer).form.errorMessage
  {
    if key.code.Enter? && f.username != [] && f.password != [] {
      GreetdClient.LoginIndependentOfPassword(peer.login, f.username, f.password, other, SelectedCommand(cfg, f));
    }
  }

  /** The `KeyCode::Enter` arm: without both credentials it only sets an error; otherwise it logs in, and on failure cancels the session on a fresh connection and shows the error. */
  method PressEnter(app: App, peer: Peer) returns (exit: bool, cancel: Option<Channel>)
    requires app.Valid() && |app.config.sessions| > 0
    modifies app
    ensures app.Valid()
    ensures Outcome(app.Fields(), exit, cancel) == EnterStep(app.config, old(app.Fields()), peer)
  {
    exit, cancel := false, None;
    if app.username != [] && app.password != [] {
      var r, _ := GreetdClient.Login(peer.login, app.username, app.password, app.CurrentSessionCommand());
      if r.Ok? {
        exit := true;
      } else {
        var c := GreetdClient.Client.Connect(peer.cancel);
        if c.Ok? {
          var _ := c.value.CancelSession();
          cancel := Some(c.value.State());
        }
        app.SetError("Login failed: " + r.error.message);
      }
    } else {
      app.SetError(MissingCredentials);
    }
  }

  /**
   * One pass of the `match key.code` in `run_app`. `exit` is the `break`;
   * `cancel` is the cancel connection opened after a failed login, as it
   * ends up, when connecting to it succeeded.
   */
  method HandleKey(app: App, key: Key, peer: Peer) returns (exit: bool, cancel: Option<Channel>)
    requires app.Valid() && |app.config.sessions| > 0
    modifies app
    ensures app.Valid()
    ensures Outcome(app.Fields(), exit, cancel) == Step(app.config, old(app.Fields()), key, peer)
  {
    exit, cancel := false, None;
    match key.code
    case Tab =>
      app.ClearError();
      app.NextFocus();
    case BackTab =>
      app.ClearError();
      app.PrevFocus();
    case Enter =>
      exit, cancel := PressEnter(app, peer);
    case Char(ch) =>
      app.ClearError();
      match app.focus {
        case Username => app.username := app.username + [ch];
        case Password => app.password := app.password + [ch];
        case Session =>
      }
    case Backspace =>
      app.ClearError();
      match app.focus {
        case Username => app.username := DropLast(app.username);
        case Password => app.password := DropLast(app.password);
        case Session =>
      }
    case Left =>
      if app.focus == Session {
        app.ClearError();
        app.PrevSession();
      }
    case Right =>
      if app.focus == Session {
        app.ClearError();
        app.NextSession();
      }
    case Esc =>
      exit := key.control;
    case OtherKey =>
  }

  /** An event from the terminal: a key press (with the daemon as that step finds it) or anything else. */
  datatype Input = KeyPress(key: Key, peer: Peer) | OtherEvent

  /** Why the loop stopped: a login succeeded, Ctrl+Esc, or (in the model only) the inputs ran out. */
  datatype Stop = LoggedIn | Quit | InputsExhausted

  predicate IsQuit(input: Input)
  {
    input.KeyPress? && input.key.code.Esc? && input.key.control
  }

  /** Where a run of the loop ends: the form, how many events it took, and why it stopped. */
  datatype Finish = Finish(form: Form, handled: nat, stop: Stop)

  /**
   * `run_app`'s loop over a finite run of events, on a form value: every
   * event is handled in order until a step breaks the loop. It stops at the
   * first Ctrl+Esc at the latest; non-key events leave the form alone.
   */
  function Run(cfg: UiConfig, f: Form, inputs: seq<Input>): (r: Finish)
    requires FormValid(cfg, f) && |cfg.sessions| > 0
    ensures FormValid(cfg, r.form)
    ensures r.handled <= |inputs|
    ensures r.stop == InputsExhausted ==> r.handled == |inputs|
    ensures r.stop != InputsExhausted ==> 0 < r.handled && inputs[r.handled - 1].KeyPress?
    ensures r.stop == Quit ==> IsQuit(inputs[r.handled - 1])
    ensures r.stop == LoggedIn ==> inputs[r.handled - 1].key.code.Enter?
    ensures forall j :: 0 <= j < r.handled - 1 ==> !IsQuit(inputs[j])
    ensures r.stop == InputsExhausted ==> forall j :: 0 <= j < |inputs| ==> !IsQuit(inputs[j])
    decreases |inputs|
  {
    if inputs == [] then Finish(f, 0, InputsExhausted)
    else if inputs[0].KeyPress? && Step(cfg, f, inputs[0].key, inputs[0].peer).exit then
      Finish(Step(cfg, f, inputs[0].key, inputs[0].peer).form, 1,
             if inputs[0].key.code.Esc? then Quit else LoggedIn)
    else
      var g := if inputs[0].KeyPress? then Step(cfg, f, inputs[0].key, inputs[0].peer).form else f;
      var r := Run(cfg, g, inputs[1..]);
      assert forall j :: 0 < j < |inputs| ==> inputs[j] == inputs[1..][j - 1];
      Finish(r.form, r.handled + 1, r.stop)
  }

  /**
   * A run that stopped did so at its last handled event: the events before it
   * ran to the end without stopping, and that event's step broke the loop
   * from the form they left.
   */
  lemma {:induction false} RunStopsAtFirstExit(cfg: UiConfig, f: Form, inputs: seq<Input>)
    requires FormValid(cfg, f) && |cfg.sessions| > 0
    ensures var r := Run(cfg, f, inputs);
      r.stop != InputsExhausted ==>
        var before := Run(cfg, f, inputs[..r.handled - 1]);
        var last := inputs[r.handled - 1];
        && before.stop == InputsExhausted
        && Step(cfg, before.form, last.key, last.peer).exit
        && r.form == Step(cfg, before.form, last.key, last.peer).form
    decreases |inputs|
  {
    var r := Run(cfg, f, inputs);
    if inputs != [] && r.stop != InputsExhausted {
      if inputs[0].KeyPress? && Step(cfg, f, inputs[0].key, inputs[0].peer).exit {
        assert inputs[..r.handled - 1] == [];
      } else {
        var g := if inputs[0].KeyPress? then Step(cfg, f, inputs[0].key, inputs[0].peer).form else f;
        var rest := inputs[1..];
        var r' := Run(cfg, g, rest);
        assert r == Finish(r'.form, r'.handled + 1, r'.stop);
        RunStopsAtFirstExit(cfg, g, rest);
        var p := inputs[..r.handled - 1];
        assert p != [] && p[0] == inputs[0];
        assert p[1..] == rest[..r'.handled - 1];
        assert inputs[r.handled - 1] == rest[r'.handled - 1];
      }
    }
  }

  /**
   * The loop ends with `LoggedIn` only at an Enter pressed on a form with both
   * credentials whose login the daemon accepted, and the form is then the one
   * that Enter was pressed on.
   */
  lemma RunLogsInOnlyOnSuccess(cfg: UiConfig, f: Form, inputs: seq<Input>)
    requires FormValid(cfg, f) && |cfg.sessions| > 0
    ensures var r := Run(cfg, f, inputs);
      r.stop == LoggedIn ==>
        var before := Run(cfg, f, inputs[..r.handled - 1]).form;
        var last := inputs[r.handled - 1];
        && last.KeyPress? && last.key.code.Enter?
        && before.username != [] && before.password != []
        && LoginAccepted(cfg, before, last.peer)
        && r.form == before
  {
    RunStopsAtFirstExit(cfg, f, inputs);
  }

  /** `run_app`'s loop: it handles the events in order, exactly as `Run` says. */
  method RunApp(app: App, inputs: seq<Input>) returns (handled: nat, stop: Stop)
    requires app.Valid() && |app.config.sessions| > 0
    modifies app
    ensures app.Valid()
    ensures Finish(app.Fields(), handled, stop) == Run(app.config, old(app.Fields()), inputs)
  {
    handled := 0;
    while handled < |inputs|
      invariant handled <= |inputs| && app.Valid()
      invariant var r := Run(app.config, app.Fields(), inputs[handled..]);
        Run(app.config, old(app.Fields()), inputs) == Finish(r.form, r.handled + handled, r.stop)
    {
      var input := inputs[handled];
      assert inputs[handled..][1..] == inputs[handled + 1..];
      handled := handled + 1;
      if input.KeyPress? {
        var exit, _ := HandleKey(app, input.key, input.peer);
        if exit {
          stop := if input.key.code.Esc? then Quit else LoggedIn;
          return;
        }
      }
    }
    stop := InputsExhausted;
  }
}
