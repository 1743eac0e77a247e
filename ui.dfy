/**
 * The greeter's form: which field has the focus, the text typed so far, the
 * chosen session and the error shown, with the rules that move the focus and
 * the selection and that set or clear the error; and the two display rules
 * for the password and the session name.
 */
module Ui {
  import opened Wrappers
  import Config

  /** Which field has the focus. */
  datatype Focus = Username | Password | Session {

    /** The field after this one, wrapping round. */
    function Next(): Focus
    {
      match this
      case Username => Password
      case Password => Session
      case Session => Username
    }

    /** The field before this one, wrapping round. */
    function Prev(): Focus
    {
      match this
      case Username => Session
      case Password => Username
      case Session => Password
    }
  }

  /** The focus visits every field and is back after three steps. */
  lemma FocusCycle(f: Focus)
    ensures f.Next() != f && f.Next().Next() != f && f.Next().Next().Next() == f
  {
  }

  /** Moving back undoes moving on, and the other way round. */
  lemma FocusInverse(f: Focus)
    ensures f.Next().Prev() == f && f.Prev().Next() == f
  {
  }

  /** The configuration the form reads: the session choices, the two security flags and the remembered user. */
  datatype UiConfig = UiConfig(
    sessions: seq<Config.Session>,
    clearPasswordOnError: bool,
    maskPassword: bool,
    lastUser: string)

  /** The form's fields as a value. */
  datatype Form = Form(
    username: string,
    password: string,
    selectedSession: nat,
    focus: Focus,
    errorMessage: Option<string>)

  /** The selection is a session, or 0 when there are none. */
  predicate FormValid(cfg: UiConfig, f: Form)
  {
    f.selectedSession == 0 || f.selectedSession < |cfg.sessions|
  }

  /** `current_session_command` on a form value: the command of the selected session. */
  function SelectedCommand(cfg: UiConfig, f: Form): (command: string)
    requires FormValid(cfg, f) && |cfg.sessions| > 0
    ensures exists s :: s in cfg.sessions && s.command == command
  {
    cfg.sessions[f.selectedSession].command
  }

  /** The form after `set_error(message)`: the message shown, the password forgotten if so configured, all else kept. */
  function WithError(f: Form, message: string, clearPassword: bool): (g: Form)
    ensures g.errorMessage == Some(message)
    ensures g.password == (if clearPassword then [] else f.password)
    ensures g.(errorMessage := f.errorMessage, password := f.password) == f
  {
    f.(errorMessage := Some(message), password := if clearPassword then [] else f.password)
  }

  /** The number of bytes UTF-8 takes for a character. */
  function Utf8Width(c: char): nat
  {
    if c as int < 0x80 then 1 else if c as int < 0x800 then 2 else if c as int < 0x1_0000 then 3 else 4
  }

  /** `String::len`: the length of a string in UTF-8 bytes. */
  function Utf8Length(s: string): nat
  {
    if s == [] then 0 else Utf8Width(s[0]) + Utf8Length(s[1..])
  }

  /** A string takes one to four bytes per character, and exactly one per character when it is ASCII. */
  lemma {:induction false} Utf8LengthBounds(s: string)
    ensures |s| <= Utf8Length(s) <= 4 * |s|
    ensures (forall i :: 0 <= i < |s| ==> s[i] as int < 0x80) ==> Utf8Length(s) == |s|
  {
    if s != [] {
      Utf8LengthBounds(s[1..]);
      assert forall i :: 1 <= i < |s| ==> s[i] == s[1..][i - 1];
    }
  }

  /** `c` written `n` times. */
  function Repeat(c: char, n: nat): (s: string)
    ensures |s| == n && forall i :: 0 <= i < n ==> s[i] == c
  {
    if n == 0 then [] else [c] + Repeat(c, n - 1)
  }

  /** `App`. */
  class App {
    var username: string
    var password: string
    var selectedSession: nat
    var focus: Focus
    var errorMessage: Option<string>
    const config: UiConfig

    /** The selection is a session, or 0 when there are none. */
    ghost predicate Valid()
      reads this
    {
      FormValid(config, Fields())
    }

    function Fields(): Form
      reads this
    {
      Form(username, password, selectedSession, focus, errorMessage)
    }

    /** `App::new`: the remembered user filled in, and the focus on the password when there is one. */
    constructor (config: UiConfig)
      ensures Valid() && this.config == config
      ensures username == config.lastUser && password == [] && selectedSession == 0 && errorMessage == None
      ensures focus == (if config.lastUser == [] then Username else Password)
    {
      this.config := config;
      username := config.lastUser;
      password := [];
      selectedSession := 0;
      focus := if config.lastUser == [] then Username else Password;
      errorMessage := None;
    }

    /** `next_focus`. */
    method NextFocus()
      modifies this`focus
      ensures focus == old(focus).Next()
    {
      focus := match focus
        case Username => Password
        case Password => Session
        case Session => Username;
    }

    /** `prev_focus`. */
    method PrevFocus()
      modifies this`focus
      ensures focus == old(focus).Prev()
    {
      focus := match focus
        case Username => Session
        case Password => Username
        case Session => Password;
    }

    /** `next_session`: one step on, unless the last session is selected. `len() - 1` needs a session to exist. */
    method NextSession()
      requires Valid() && |config.sessions| > 0
      modifies this`selectedSession
      ensures Valid() && selectedSession < |config.sessions|
      ensures selectedSession == if old(selectedSession) < |config.sessions| - 1 then old(selectedSession) + 1
                                 else old(selectedSession)
    {
      if selectedSession < |config.sessions| - 1 {
        selectedSession := selectedSession + 1;
      }
    }

    /** `prev_session`: one step back, unless the first session is selected. */
    method PrevSession()
      requires Valid()
      modifies this`selectedSession
      ensures Valid()
      ensures selectedSession == if old(selectedSession) > 0 then old(selectedSession) - 1 else old(selectedSession)
    {
      if selectedSession > 0 {
        selectedSession := selectedSession - 1;
      }
    }

    /** `current_session_command`. */
    function CurrentSessionCommand(): (command: string)
      reads this
      requires Valid() && |config.sessions| > 0
      ensures exists s :: s in config.sessions && s.command == command
    {
      SelectedCommand(config, Fields())
    }

    /** `clear_error`. */
    method ClearError()
      modifies this`errorMessage
      ensures errorMessage == None
    {
      errorMessage := None;
    }

    /** `set_error`: show the message, and forget the password if the configuration asks for it. */
    method SetError(message: string)
      modifies this`errorMessage, this`password
      ensures Fields() == WithError(old(Fields()), message, config.clearPasswordOnError)
    {
      errorMessage := Some(message);
      if config.clearPasswordOnError {
        password := [];
      }
    }

    /** What the password field shows (`draw_password`): one `*` per byte of the password when masking, else the password. */
    function PasswordDisplay(): (shown: string)
      reads this
      ensures config.maskPassword ==>
                |shown| == Utf8Length(password) && forall i :: 0 <= i < |shown| ==> shown[i] == '*'
      ensures !config.maskPassword ==> shown == password
    {
      if config.maskPassword then Repeat('*', Utf8Length(password)) else password
    }

    /** What the session field shows (`draw_session`): the name, between arrows while the field has the focus. */
    function SessionDisplay(): (text: string)
      reads this
      requires Valid() && |config.sessions| > 0
      ensures var name := config.sessions[selectedSession].name;
        if focus == Session then
          |text| == |name| + 4 && text[..2] == "< " && text[2..|text| - 2] == name && text[|text| - 2..] == " >"
        else text == name
    {
      var name := config.sessions[selectedSession].name;
      if focus == Session then "< " + name + " >" else name
    }
  }
}
