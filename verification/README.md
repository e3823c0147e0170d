# knuktats broadcast hub — a Dafny model

knuktats is a small Twisted application. WebSocket clients subscribe to a
broadcast hub. Three sources feed that hub:

- an IRC bot, which forwards "shouty 4-4" chat lines such as `ABCD WXYZ`;
- a serial push-button, which announces each press and answers `FLASH`;
- a ten-second heartbeat, which sends `tick N from server`.

A separate endpoint draws up to eight letters on a knuckle picture.

This project models the logic of those parts as pure Dafny functions over
immutable values and proves properties about them:

| module | file | models |
|---|---|---|
| `Strings` | strings.dfy | Python's `str.split(" ")` and its inverse `join`; `"%d"` rendering |
| `Gate` | gate.dfy | `should_tat`, the chat content gate |
| `Hub` | hub.dfy | `KnuxWebSocketServerFactory`: client list, `register`/`unregister`, `broadcast`, the prepared-message variant, `tick` and the constructor |
| `Irc` | irc.dfy | the forwarding decision of `KnuxIRCBot.privmsg`; the effective `alterCollidedNick` |
| `Options` | options.dfy | an option type for decisions that may send nothing |
| `Utf8` | utf8.dfy | strict UTF-8 well-formedness (what `bytes.decode()` accepts) |
| `Button` | button.dfy | `ButtonProtocol.lineReceived` and `flash`, as an action trace |
| `Tattoo` | tattoo.dfy | the letter normalisation and letter/position pairing of `generate_tats` |
| `Server` | server.dfy | the event wiring: `onOpen`, `onMessage`, `connectionLost`, chat lines, button lines and timer ticks, all against one shared hub |

A send is not performed. Each send becomes an entry in an output trace:
`Delivery(client, text)` for a WebSocket send, and `Serial(data)` for bytes
written to the button device. The reactor is single-threaded, so a run of the
application is a sequence of events, and each event is handled completely
before the next one.

The model follows the code, including these points:

- `broadcast` never removes a client whose send fails. It has no error
  handling.
- The button message is `KNUK TATS: push butn`.
- Opening the serial port is not guarded.
- `lineReceived` decodes the line before it broadcasts. A line that is not
  well-formed UTF-8 raises an exception, so nothing is broadcast and `FLASH`
  is not written. The exception escapes the protocol, so the model handles no
  later line.
- Only the second definition of `alterCollidedNick` takes effect, the one
  that appends `^`. It rebinds the name in the class body, so the earlier
  `_` version is dead code.

"Lowercase" is ASCII `'a'..'z'` (`Gate.IsLower`).

## Model

| member | source | states |
|---|---|---|
| Strings.Split | server2.py:30 | splitting on one space gives at least one token, no token holds the separator, and joining the tokens with the separator gives back the line |
| Strings.SplitJoin | server2.py:30 | `split` inverts `join` for separator-free tokens, so the token list is determined by the line |
| Strings.NatToString | server2.py:73 | `%d` of a count is a non-empty run of decimal digits with no leading zero |
| Strings.ParseNatToString | server2.py:73 | reading the decimal rendering back gives the number (round trip) |
| Strings.NatToStringInjective | server2.py:73 | different counts render differently |
| Gate.NoLower | server2.py:35-38 | the letter scan rejects exactly when some character is lowercase |
| Gate.TwoFourLetterWords | server2.py:30-34 | the split yields two words of length 4 iff the line has 9 characters and its only space is at index 4 |
| Gate.ShouldTat | server2.py:25-39 | `should_tat` accepts iff the line is nine characters, with a space at index 4 and nowhere else, and has no lowercase letter |
| Gate.WordLettersAreLineLetters | server2.py:35-38 | when the line splits into two four-character words, the scanned letters have no lowercase iff no character of the line other than the space at index 4 is lowercase |
| Gate.AcceptedShape | server2.py:30-34 | every accepted line has length 9 and a space at index 4 |
| Gate.EmptyWordRejected | server2.py:30-34 | a leading, trailing or doubled space makes an empty word, so the line is rejected |
| Gate.GateAcceptsLetters | server2.py:25-39 | `ABCD WXYZ` is accepted |
| Gate.GateAcceptsDigits | server2.py:35-38 | `1234 5678` is accepted: digits are not lowercase |
| Gate.GateRejectsExamples | server2.py:25-39 | `abcd WXYZ`, `AB WXYZ`, `ABCD WXYZ EFGH` and ` ABCD WXYZ` are rejected |
| Hub.Register | server2.py:76-79 | the client becomes a member, the list only grows at the end, nothing changes if it was already present, and a duplicate-free list stays duplicate-free |
| Hub.RemoveFirst | server2.py:84 | `list.remove` drops the first occurrence and nothing else: the result is the entries before it followed by the entries after it, one shorter, the same multiset less that client |
| Hub.Unregister | server2.py:81-84 | an absent client leaves the hub unchanged; on a duplicate-free list the client is gone, every other client stays in its original relative order, and the members are the old ones minus that client |
| Hub.WithoutFacts | server2.py:81-84 | the order-preserving removal drops exactly that client and keeps a list duplicate-free |
| Hub.WithoutAbsent | server2.py:81-82 | removing an absent client changes nothing |
| Hub.RemoveFirstOfDistinct | server2.py:84 | on a duplicate-free list, removing the first occurrence equals removing every occurrence |
| Hub.ReplayMatchesSet | server2.py:76-84 | after any sequence of opens and losses the list has no duplicates and its members equal the set built by the same additions and removals |
| Hub.Broadcast | server2.py:86-90 | one send per client, in list order, each carrying the message |
| Hub.BroadcastExactlyOnce | server2.py:86-90 | with no duplicates, each registered client gets the message exactly once and no other client gets anything |
| Hub.SendPrepared | server2.py:103-104 | one send of the prepared text per client, in list order |
| Hub.PreparedBroadcast | server2.py:100-105 | the prepared-message broadcast makes exactly the same per-client sends as the plain one |
| Hub.TickMessageInjective | server2.py:73 | distinct tick numbers give distinct tick messages |
| Hub.Tick | server2.py:71-73 | the counter rises by one, the client list is kept, and each client gets `tick N from server` with the new N |
| Hub.NewHub | server2.py:65-69 | the constructor's tick sets the counter to 1 and reaches nobody, because the list is still empty |
| Hub.TicksCountUp | server2.py:71-74 | k ticks raise the counter by k and announce the next k numbers in order, with no message repeated |
| Irc.PrivmsgDecision | server2.py:136-149 | a private message is dropped; a channel line is forwarded as `KNUK TATS: ` + line iff it has the shouty 4-4 shape; a forwarded message is 20 characters |
| Irc.Privmsg | server2.py:136-149 | a forwarded line makes one tagged send per client, in list order; a private or rejected line makes none |
| Irc.PrivmsgSends | server2.py:136-149 | a private or rejected line reaches nobody; an accepted channel line reaches each client exactly once |
| Irc.AlterCollidedNick | server2.py:170-175 | the altered nick is one character longer, starts with the original, and ends with `^` |
| Irc.NickAfter | server2.py:170-175 | after k collisions the nick is the original followed by k carets |
| Irc.NickAttemptsDistinct | server2.py:170-175 | successive collision retries never repeat a nickname |
| Utf8.FirstCharLength | button.py:20 | a well-formed character is 1 to 4 bytes long, and a 1-byte character is exactly an ASCII byte |
| Utf8.Decodes | button.py:20 | a line that decodes contains none of the bytes 0xC0, 0xC1 and 0xF5 to 0xFF, which never occur in UTF-8 |
| Utf8.AsciiDecodes | button.py:20 | an ASCII line always decodes |
| Utf8.InvalidLeadFails | button.py:20 | a byte that cannot start a character, such as 0xFF, makes decoding fail |
| Button.SendLine | button.py:8 | `sendLine` writes the line followed by the declared delimiter `\n` |
| Button.Flash | button.py:27-30 | `flash` writes exactly `FLASH\n` |
| Button.LineReceived | button.py:19-23 | a line is handled iff it decodes; a handled line broadcasts `KNUK TATS: push butn`, then writes `FLASH\n`, and does nothing else |
| Button.Session | button.py:19-30 | the actions of any run of lines come in whole pairs, broadcast then FLASH, at most one pair per line |
| Button.AlternatingCons | button.py:19-30 | a press in front of whole broadcast-then-FLASH pairs keeps them whole pairs |
| Button.SessionAlternates | button.py:19-30 | n decodable lines give exactly 2n actions, alternating broadcast then FLASH |
| Button.SessionStopsAtDecodeError | button.py:19-20 | lines after the first undecodable one have no effect |
| Button.PushLineHandled | button.py:19-23 | the line `push` is broadcast and then flashed |
| Button.UndecodableLineIgnored | button.py:20 | the line `\xff` raises in `decode` before any broadcast |
| Tattoo.RemoveSpaces | knuxtats.py:27 | the result holds no space and is no longer than the input |
| Tattoo.RemoveSpacesAppend | knuxtats.py:27 | removing spaces distributes over concatenation |
| Tattoo.RemoveSpacesFixed | knuxtats.py:27 | a text without spaces is unchanged |
| Tattoo.Spaces | knuxtats.py:29 | the padding has the requested length and is all spaces |
| Tattoo.RemoveSpacesOfSpaces | knuxtats.py:27-29 | padding disappears when spaces are removed |
| Tattoo.Normalise | knuxtats.py:27-29 | the result has length 8; it starts with the first min(8, k) non-space characters, where k counts them; a space appears exactly at the padding positions after those; with 8 or more non-space characters it holds no space |
| Tattoo.NormaliseIdempotent | knuxtats.py:27-29 | normalising twice is the same as normalising once |
| Tattoo.Zip | knuxtats.py:42 | `zip` pairs element i with element i, up to the shorter length |
| Tattoo.Placements | knuxtats.py:30-42 | there are exactly 8 positions, and the i-th normalised letter is paired with the i-th position for i in 0..7 |
| Tattoo.DefaultText | server2.py:203 | the default text `KNUK TATS` normalises to `KNUKTATS` |
| Server.OnMessage | server2.py:49-52 | a text frame yields a message made of the payload, ` from ` and the peer, in that order; a binary frame yields nothing |
| Server.ButtonOutputs | button.py:19-23 | every send made for the button goes to a registered client |
| Server.Handle | server2.py:44-56 | one event keeps the list duplicate-free; only open and lost change the list; only the timer changes the counter, by one; every send goes to a client registered when the event arrived |
| Server.Run | server2.py:65-84 | over any run of events the list stays duplicate-free, the nickname is kept, and the counter rises by exactly the number of timer events |
| Server.Start | server2.py:65-69 | at start-up the list is empty, the counter is 1, and the state is valid |
| Server.WsMessageFansOut | server2.py:49-52 | a text frame reaches every registered client once, in list order, as `<payload> from <peer>`; a binary frame reaches nobody |
| Server.ButtonPressOutputs | button.py:19-30 | a decodable line sends the push message to every client in order, then writes `FLASH\n` once, as the last output |

## Left out

- Timing is not modelled. `reactor.callLater(10, self.tick)` is left out, and a tick is one `TimerFired` event. The same goes for `listenTCP`, `connectSSL` and `reactor.run`.
- The serial device is not modelled: `SerialPort('/dev/ttyACM1', baudrate=115200)` and `setup`. This is I/O. A missing device is not modelled either, because the code has no guard for it.
- autobahn's wire framing, `prepareMessage` internals and UTF-8 encoding of sends are not modelled. These are library calls, so each send is one trace entry. `PreparedMessage` only carries the text.
- Hub.PreparedBroadcast: the two broadcasts differ in what they hand to autobahn. The plain one sends `msg.encode('utf8')` (server2.py:89), while the prepared one passes the unencoded `str` to `prepareMessage` (server2.py:102). The model assumes `prepareMessage` accepts that text. If autobahn rejects a `str` there, the prepared variant raises where the plain one sends. The model records only the text of each send, so the agreement holds at that level.
- Server.OnMessage: takes the payload as already-decoded text. `payload.decode('utf8')` is not modelled, because autobahn validates text frames before `onMessage` runs.
- Send failures are not modelled. A send always succeeds in the model, and the code never unregisters a failing client.
- The IRC protocol is not modelled: `connectionMade`, `signedOn`/`join`, `joined`, `action`, `irc_NICK` and Twisted's handling of `ERR_NICKNAMEINUSE`. Neither are `clientConnectionLost`'s reconnect or `clientConnectionFailed`. These are network code and logging. `Irc.NickAfter` models only the repeated use of `alterCollidedNick`.
- `user.split('!', 1)[0]` in `privmsg` is not modelled. It only feeds a log line.
- Gate.IsLower: only ASCII `'a'..'z'` counts as lowercase. Python's `str.islower` also accepts non-ASCII lowercase letters such as `é`. Lines containing those are accepted by the model but rejected by the code.
- PIL drawing, font metrics (floating point), PNG encoding and the HTTP resource `KnukTatsPage` are not modelled. These are library calls and I/O. Only the default query text is modelled, by `Tattoo.DefaultText`.
- The CGI `__main__` block of knuxtats.py is not modelled. It is I/O and uses an undefined name.
- `LineReceiver`'s own framing is not modelled: splitting the byte stream on the delimiter, and its maximum line length. This is framework code, so the model starts from received lines.
- `print` and `logging` calls are not modelled.
- Hub.Unregister: the membership and order facts are stated only for duplicate-free lists. `Hub.Register` keeps every list in that form.
- Button.Session: stops at the first undecodable line. The exception escapes `lineReceived`; the reactor logs it and drops the serial connection. `Server.Handle` models the drop by setting `serialUp` to false, so later serial lines are ignored. The log is not modelled.
