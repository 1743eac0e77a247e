# hypr-greeter, modelled in Dafny

hypr-greeter is a terminal greeter for greetd. It collects a username, a
password and a session choice, then talks to the greetd daemon over its Unix
socket to authenticate the user and start the chosen session. This project
models four parts of it and proves properties of them:

- **The greetd login client** (`greetd_client.dfy`, with `ipc.dfy` and
  `argv.dfy`). `GreetdClient.Client` owns one connection. Every send and read
  changes its request/reply log and its queue of scripted daemon replies.
  Each operation (`Authenticate`, `SendPassword`, `StartSession`,
  `CancelSession`, `Login`) is proved equal to a function on the channel
  value (`AuthExchange`, `PasswordExchange`, `StartExchange`, `CancelExchange`,
  `LoginExchange`). The lemmas about those functions cover:
  - the order of the exchange;
  - what is sent and when;
  - when each operation succeeds;
  - that, against a daemon that answers alike, no error depends on the password;
  - that requests and replies strictly alternate: every reply follows a
    request that gets one, and every such request but the last is answered.

  The session command is split into argv by `Argv.SplitWhitespace`, a model
  of Rust's `split_whitespace` over Unicode White_Space. It is proved to give
  well-formed words that join back to the collapsed command, and to round-trip
  with `Argv.JoinWords`.
- **The form state** (`ui.dfy`). `Ui.App` holds the focus cycle, the bounded
  session selection and the rules that set and clear the error. It also holds
  the two display rules: password masking and the session label.
- **The main loop** (`event_loop.dfy`). `EventLoop.Step` is one pass of the
  `match key.code` in `run_app` on a form value, and `EventLoop.Run` is the
  loop over a finite sequence of terminal events. Enter calls the login model
  with the daemon's socket given as input. The methods `EventLoop.HandleKey`
  and `EventLoop.RunApp` change an `Ui.App` object and are proved to do
  exactly what `Step` and `Run` say.
- **The configuration** (`config.dfy`). It models the `Config` and `Session`
  records, `Config::default` and `config_path`. It also models `load_config`,
  with the file system and the two JSON parsers given as inputs.

The transport stands in for `greetd_ipc::send`/`read` (`Ipc.Send`,
`Ipc.Read`). A send fails once the peer accepts no more writes. A read fails
when the daemon has no reply left. Connecting fails when the socket is not
listening. The texts of these three I/O errors are placeholder constants,
because the real ones come from the operating system.

Some facts about the code that the model keeps:
- `login` checks that the command is non-blank only after authentication has
  succeeded, so create and password have already been sent.
  `GreetdClient.LoginValidatesAfterAuthentication` states this.
- An `Informational` or `ErrorNotice` prompt fails with the plain error
  "Unexpected auth message type". Every error the code produces is a boxed
  error carrying only a message, modelled as `Wrappers.Failure`.
- The code itself does no message framing; that is left to `greetd_ipc`.

`ui.rs` reads `config.ui.*`, `config.security.*` and a `String` `last_user`,
none of which exist in `config.rs`. So `Ui.App` works over its own
configuration record, `Ui.UiConfig`. It has only the fields the form uses:
the sessions, `clear_password_on_error`, `mask_password` and `last_user` as a
string.

## Model

| member | source | states |
|---|---|---|
| Argv.SplitWhitespace | src/greetd_client.rs:76-79 | every argument is non-empty and free of whitespace; the vector is empty exactly when the command is empty or all whitespace |
| Argv.JoinSplitIsSqueeze | src/greetd_client.rs:76-79 | the arguments joined by single spaces are the command with leading/trailing whitespace dropped and each inner whitespace run collapsed to one space |
| Argv.SplitJoin | src/greetd_client.rs:76-79 | splitting well-formed words joined by single spaces gives back exactly those words, in order |
| Argv.SplitWord | src/greetd_client.rs:76-79 | a command that is a single word splits to a one-element vector holding it |
| Ipc.Send | src/greetd_client.rs:112-115 | a send succeeds iff the stream takes the write; it then logs exactly that request, otherwise nothing changes |
| Ipc.Read | src/greetd_client.rs:118-121 | a read succeeds iff a reply is pending; it returns the first one and logs it, otherwise nothing changes |
| Ipc.ReadsNeverExceedSends | src/greetd_client.rs:34-37 | on an alternating log the replies read never outnumber the requests that get an answer, which never outnumber all requests sent |
| Ipc.ErrorTypeName | src/greetd_client.rs:48 | the `{:?}` text of greetd's two error types, "Error" and "AuthError" (no contract; used in the error texts below) |
| GreetdClient.PasswordExchange | src/greetd_client.rs:57-71 | `send_password` on a channel value: send the password, then `Success` is Ok, `Error` is "Authentication failed: …", anything else "Unexpected response after password" (no contract; see the authenticate lemmas) |
| GreetdClient.AuthExchange | src/greetd_client.rs:25-54 | `authenticate` on a channel value (no contract; its properties are the lemmas below) |
| GreetdClient.CancelExchange | src/greetd_client.rs:98-109 | `cancel_session` on a channel value (no contract; see `CancelRequests`, `CancelAlternates`) |
| GreetdClient.LoginExchange | src/greetd_client.rs:125-135 | `login` on a socket value: connect, authenticate, start (no contract; see the login lemmas) |
| GreetdClient.AuthenticateTransfers | src/greetd_client.rs:31-51 | authenticate appends to the log exactly: `CreateSession` and its reply, then, after a secret prompt, the password and the reply to it, as far as the stream and the daemon go |
| GreetdClient.AuthenticateOpensWithCreateSession | src/greetd_client.rs:31-34 | authenticate only appends to the log; its first transfer is `CreateSession` with the given username; if that write fails nothing is transferred |
| GreetdClient.AuthenticateRequests | src/greetd_client.rs:37-51 | authenticate sends `CreateSession`, then `PostAuthMessageResponse(Some(password))` exactly when the first reply is a `Secret`/`SecretVisible` prompt; any other first reply fails with only `CreateSession` sent |
| GreetdClient.AuthenticateSucceeds | src/greetd_client.rs:38-42 | authenticate is Ok iff the daemon sends a secret prompt and then `Success`; the transfers are then exactly create, prompt, password, success |
| GreetdClient.AuthenticateReportsDaemonError | src/greetd_client.rs:47-67 | a daemon `Error` gives the message "Auth error: " (to `CreateSession`, lines 47-48) or "Authentication failed: " (to the password, lines 66-67), then the type's name, " - " and the description |
| GreetdClient.AuthenticateIndependentOfPassword | src/greetd_client.rs:44-50 | against a daemon that answers alike, any two passwords give the same result and use the stream alike, so no error text is built from the password |
| GreetdClient.StartExchange | src/greetd_client.rs:76-94 | a blank command fails with "Empty session command" and leaves the channel unchanged; otherwise it is one send of `StartSession` with the split command and `env = []` |
| GreetdClient.StartSessionRequest | src/greetd_client.rs:85-94 | a non-blank command reads nothing; when the write succeeds exactly one `StartSession` is logged, its arguments are well-formed words joining to the collapsed command, and `env` is empty |
| GreetdClient.CancelRequests | src/greetd_client.rs:98-109 | cancel sends only `CancelSession` and is Ok iff the reply is `Success`; a daemon `Error` gives the message "Cancel failed: ", the type's name, " - " and the description |
| GreetdClient.AuthenticateAlternates | src/greetd_client.rs:34-37 | started with no request outstanding, authenticate keeps the log alternating: every reply directly follows a request that gets one, and every such request but the last is directly answered |
| GreetdClient.StartSessionAlternates | src/greetd_client.rs:90-94 | start_session keeps the log alternating and leaves no request outstanding; its request gets no read |
| GreetdClient.CancelAlternates | src/greetd_client.rs:100-102 | started with no request outstanding, cancel_session keeps the log alternating |
| GreetdClient.LoginReportsPasswordRejection | src/greetd_client.rs:125-129 | when the daemon prompts for the secret and answers the password with `Error(t, d)`, login fails with "Authentication failed: " + the name of `t` + " - " + `d` (the error of `send_password`, src/greetd_client.rs:64-67) |
| GreetdClient.LoginSucceeds | src/greetd_client.rs:125-134 | login is Ok iff the socket accepts, the daemon prompts once and then accepts, three writes go through and the command is not blank |
| GreetdClient.LoginSuccessTranscript | src/greetd_client.rs:125-134 | a successful login sent exactly `[CreateSession, PostAuthMessageResponse(Some(password)), StartSession(argv, [])]` on its one connection and read two replies |
| GreetdClient.LoginValidatesAfterAuthentication | src/greetd_client.rs:129-132 | with a blank command and an accepting daemon, login fails with "Empty session command" after create and password have been sent |
| GreetdClient.LoginIndependentOfPassword | src/greetd_client.rs:125-134 | against a daemon that answers alike, login's result is the same for any two passwords (the real daemon's answer does depend on the password) |
| GreetdClient.LoginAlternates | src/greetd_client.rs:125-134 | the connection login used alternates requests and replies, and its reads never exceed its sends |
| GreetdClient.Client.constructor | src/greetd_client.rs:19-22 | a new client starts with an empty log and the socket's scripted replies |
| GreetdClient.Client.Connect | src/greetd_client.rs:19-22 | connecting succeeds iff the socket listens, giving a fresh client on it; otherwise it fails with the connection error |
| GreetdClient.Client.SendRequest | src/greetd_client.rs:112-115 | the result and new state are those of `Ipc.Send` |
| GreetdClient.Client.ReadResponse | src/greetd_client.rs:118-121 | the result and new state are those of `Ipc.Read` |
| GreetdClient.Client.SendPassword | src/greetd_client.rs:57-71 | the result and new state are those of `PasswordExchange` |
| GreetdClient.Client.Authenticate | src/greetd_client.rs:25-54 | the result and new state are those of `AuthExchange` |
| GreetdClient.Client.StartSession | src/greetd_client.rs:74-95 | the result and new state are those of `StartExchange` |
| GreetdClient.Client.CancelSession | src/greetd_client.rs:98-109 | the result and new state are those of `CancelExchange` |
| GreetdClient.Login | src/greetd_client.rs:125-135 | the result is that of `LoginExchange`; a connection exists iff the socket listens, and it ends in the state `LoginExchange` gives |
| Config.DefaultBackground | src/config.rs:45-47 | `default_background`: "#1a1b26" (no contract; stated by `DefaultValues`) |
| Config.DefaultTitle | src/config.rs:53-55 | `default_title`: "Welcome" (no contract; stated by `DefaultValues`) |
| Config.DefaultTrue | src/config.rs:49-51 | `default_true`: true, the default of `show_clock` (no contract; stated by `DefaultValues`) |
| Config.Default | src/config.rs:57-81 | the default configuration has three sessions, no keyboard layout and no last user |
| Config.DefaultValues | src/config.rs:45-81 | the default sessions are ("Hyprland", "Hyprland"), ("Sway", "sway"), ("TTY", "/bin/bash") in that order; the background is "#1a1b26", the title "Welcome", the clock shown |
| Config.DefaultSessionsLaunchable | src/config.rs:60-73 | every default session command splits to exactly itself, so `start_session` never refuses it |
| Config.Join | src/config.rs:92-95 | a joined path ends with the component joined |
| Config.ConfigPath | src/config.rs:84-89 | the system file `/etc/hypr-greeter/config.json` is chosen whenever it exists |
| Config.ConfigDir | src/config.rs:92-93 | `dirs::config_dir()` or else `~/.config` (no contract; stated by `UserConfigPath` and `FallbackConfigPath`) |
| Config.ConfigPathSuffix | src/config.rs:84-96 | the chosen path always ends in `hypr-greeter/config.json` |
| Config.UserConfigPath | src/config.rs:91-95 | without the system file the path is the configuration directory followed by `hypr-greeter/config.json`, with a `/` between them unless the directory is empty or already ends in `/` (where `join` adds no separator) |
| Config.FallbackConfigPath | src/config.rs:91-95 | without the system file and without a configuration directory the path is `~/.config/hypr-greeter/config.json` |
| Config.LastUserField | src/config.rs:113 | the `last_user` member of a JSON object when it is a string (no contract; stated by `LoadLastUser`) |
| Config.RememberedUser | src/config.rs:108-117 | the remembered user when the last-user file exists, reads, parses and has a string field (no contract; stated by `LoadLastUser`) |
| Config.LoadConfig | src/config.rs:99-120 | `load_config` (no contract; its properties are `LoadWithoutFile`, `LoadFailures`, `LoadParsedFile`, `LoadLastUser`) |
| Config.LoadWithoutFile | src/config.rs:100-106 | with no configuration file, loading gives `Config::default()` apart from the last user |
| Config.LoadFailures | src/config.rs:101-104 | loading fails iff the configuration file exists and cannot be read or parsed, with that error; the last-user file never makes it fail |
| Config.LoadParsedFile | src/config.rs:101-103 | a configuration file that parses is returned with all its fields; only the last user is decided afterwards |
| Config.LoadLastUser | src/config.rs:108-118 | the last user is set iff the last-user file exists, reads, parses and has a string `last_user` field, and then to that string; otherwise it stays `None` |
| Ui.Focus.Next | src/ui.rs:53-57 | the field after this one: Username, Password, Session, then Username again (no contract; stated by `FocusCycle` and `FocusInverse`) |
| Ui.Focus.Prev | src/ui.rs:62-66 | the field before this one, the reverse order (no contract; stated by `FocusInverse`) |
| Ui.FocusCycle | src/ui.rs:52-58 | the focus never stays put, visits all three fields and is back after three steps |
| Ui.FocusInverse | src/ui.rs:61-67 | moving the focus back undoes moving it on, and the other way round |
| Ui.Utf8LengthBounds | src/ui.rs:217 | a string's UTF-8 length is between its character count and four times that, and equals the count for ASCII |
| Ui.App.constructor | src/ui.rs:34-49 | empty password, first session, no error, the remembered user filled in, focus on Username iff that user is empty and on Password otherwise |
| Ui.App.NextFocus | src/ui.rs:52-58 | the focus moves to the next field: Username, Password, Session, Username |
| Ui.App.PrevFocus | src/ui.rs:61-67 | the focus moves to the previous field |
| Ui.App.NextSession | src/ui.rs:70-74 | with at least one session, the selection stays in range and moves on by one unless the last session is selected |
| Ui.App.PrevSession | src/ui.rs:77-81 | the selection moves back by one unless the first session is selected |
| Ui.SelectedCommand | src/ui.rs:84-86 | the command of the form's selected session; its contract says it belongs to a configured session |
| Ui.WithError | src/ui.rs:94-99 | the form after `set_error`: the message shown, the password emptied iff the flag is set, every other field as before |
| Ui.App.CurrentSessionCommand | src/ui.rs:84-86 | the command returned belongs to a configured session |
| Ui.App.ClearError | src/ui.rs:89-91 | the error is cleared and nothing else changes |
| Ui.App.SetError | src/ui.rs:94-99 | the new form is `WithError` of the old one: the message is set, the password emptied iff `clear_password_on_error`, nothing else changes |
| Ui.App.PasswordDisplay | src/ui.rs:216-220 | with masking on, the shown text is all `*`, one per UTF-8 byte of the password; with masking off it is the password |
| Ui.App.SessionDisplay | src/ui.rs:234-238 | with focus on Session the label is "< ", the selected name, " >"; otherwise it is the name |
| EventLoop.DropLast | src/main.rs:144-145 | popping removes the last character of a non-empty string and leaves an empty one empty |
| EventLoop.EnterStep | src/main.rs:99-128 | the Enter arm breaks the loop iff both fields are filled and the login is accepted, then keeping the form; otherwise an error is shown and only the error and password may change |
| EventLoop.Step | src/main.rs:87-172 | one key press keeps the form valid, breaks the loop iff Ctrl+Esc or an Enter with both fields whose login is accepted, and opens a cancel connection only on Enter |
| EventLoop.EnterFailureCancels | src/main.rs:117-127 | without both credentials the error is "Please enter username and password" and no connection is opened; after a failed login the error is "Login failed: " and the login's error, a cancel connection is used exactly when one opens and carries only `CancelSession` (none if it cannot be written); the password is kept unless the configuration clears it on error |
| EventLoop.EnterShowsPasswordRejection | src/main.rs:122 | when the daemon prompts for the secret and rejects the password with `Error(t, d)`, the error shown is "Login failed: Authentication failed: " + the name of `t` + " - " + `d` |
| EventLoop.StepChangesFocusedField | src/main.rs:87-162 | the username changes only by typing or erasing with focus on it; the password likewise, or when a failed Enter clears it; the selection only by Left/Right on the session field; the focus only by Tab/BackTab |
| EventLoop.StepEdits | src/main.rs:89-162 | Tab moves the focus to the next field and BackTab to the previous one; a character is appended to the focused username or password; Backspace drops its last character and leaves an empty field empty; Left/Right on the session field step the selection down/up by one, staying at the first/last session |
| EventLoop.StepErrorLine | src/main.rs:87-172 | Tab, BackTab, Char and Backspace clear the error; Left/Right clear it only on the session field; an Enter that does not end the loop sets it; Esc and other keys change nothing |
| EventLoop.StepErrorIndependentOfPassword | src/main.rs:117-123 | against a daemon that answers alike, two passwords that are both present or both absent give the same error line |
| EventLoop.PressEnter | src/main.rs:99-128 | the new form, the break and the cancel connection are those of `EnterStep`: login with the form's credentials and selected command, on failure a cancel on a fresh connection when one opens and "Login failed: " with the error, without credentials "Please enter username and password" |
| EventLoop.HandleKey | src/main.rs:87-172 | the new form, the break and the cancel connection are those of `Step` |
| EventLoop.Run | src/main.rs:81-174 | the loop handles events in order; it stops after a key press, at the first Ctrl+Esc at the latest, with `Quit` only on Ctrl+Esc and `LoggedIn` only on Enter, and runs out only after every event |
| EventLoop.RunStopsAtFirstExit | src/main.rs:81-174 | a run that stops does so at its last handled event: the earlier events ran without stopping, and that event's step broke the loop from the form they left |
| EventLoop.RunLogsInOnlyOnSuccess | src/main.rs:107-116 | the loop ends with `LoggedIn` only at an Enter pressed on a form with both credentials whose login the daemon accepted, and the form is then unchanged by it |
| EventLoop.RunApp | src/main.rs:81-174 | the final form, the number of events handled and why it stopped are those of `Run` |

## Left out

- Framing and JSON encoding of greetd messages belong to `greetd_ipc`, which is not part of this model. The transport is the abstract log and reply queue of `Ipc.Channel`.
- Socket I/O and tokio. Connecting is an input (`Ipc.Socket.listening`). A failing write is modelled by the number of writes the peer still accepts. The texts of the connect, write and read errors are placeholders for the operating system's messages.
- Ratatui layout and rendering, the clock and date, styles and the help line. Only the password and session texts are modelled.
- Terminal set-up and clean-up, `event::read`, `terminal.draw`, setting `XKB_DEFAULT_LAYOUT`, the 100 ms sleep and `eprintln!`. These are terminal and OS effects. Events arrive as a finite sequence, and `RunApp` reports running out of them, which the real loop never does. The loop's early return with an error when `terminal.draw` or `event::read` fails (src/main.rs:83 and 86) is not modelled either: those effects always succeed here.
- `save_last_user`, the file reads and the serde parsing in `load_config`. These are file I/O and a foreign parser. Their outcomes are the inputs `FileSystem`, `parseConfig` and `parseJson`.
- `async_main`, which builds the form from the loaded configuration. The two configuration types in the code do not match (see above), so the model does not connect them.
- An empty session list. `draw` indexes the sessions on every frame and would panic before any key is read, and `next_session` would underflow. So `Step`, `Run`, `HandleKey`, `RunApp` and `App.NextSession` require at least one session.
- Ui.App.CurrentSessionCommand: its contract says only that the result is the command of some configured session. Which session it is (the selected one) follows from its body, which is `Ui.SelectedCommand`, and `Step` relies on that.
- Ui.SelectedCommand: the same weaker contract, for the same reason.
