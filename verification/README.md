# rhuidean, modelled in Dafny

rhuidean is a small Ruby IRC client library. This project models its core
as pure Dafny functions and proves properties of them. The core covers:

- **The event queues.** This is the cooperative queue of named events that
  drives every client (`IRC::EventQueue`). The older copy's `run` works
  differently and is modelled separately.
- **The client.** This part of `IRC::Client` covers:
  - reading from the socket and framing the text into lines;
  - the `IRC_RE` message grammar and `parse`;
  - `IRC::Message` with its origin split and CTCP extraction;
  - `connect` and the registration handshake, and `dead=`;
  - the `select` timeout clamp of the I/O loop;
  - the default `PING`, `NICK` and CTCP handlers.

  The older `IRC::Client` is modelled next to it.
- **The outgoing formatters** of both `methods.rb` files.
- **`IRC::StatefulClient`**, which covers:
  - its case-folding `IRCHash`;
  - the registries of channels and users;
  - `RPL_ISUPPORT`, that is `CASEMAPPING`, `CHANMODES`, `CHANTYPES` and `PREFIX`;
  - the `JOIN`, `PART`, `KICK`, `NICK`, `QUIT`, `MODE`, `324` and `353`
    handlers, and the `:dead` handler;
  - `StatefulChannel`, with its mode parser and mode tables, and `StatefulUser`.

Ruby's `nil` becomes `Option`. A Ruby exception becomes a `Result` whose
`Raised` case carries the error text. In the client an exception ends the
event thread, so a handler that raises yields no state. Symbols are
strings. The socket is a flag, and a read is the text `read_nonblock` (or
`readpartial`) returned. Users live in an arena indexed by ids. The users
registry and the channel member lists hold these ids, so one user object
is shared as it is in Ruby.

Files, one module each:

| file | module | models |
|---|---|---|
| text.dfy | `Text` | Ruby string helpers: `downcase`, `chomp`, `chop`, `split` |
| event.dfy | `Events` | lib/rhuidean/event.rb |
| legacy_event.dfy | `LegacyEvents` | lib/irc/event.rb |
| framing.dfy | `Framing` | the `scan` framing of both `read` methods |
| parser.dfy | `Parser` | `IRC_RE` and the matching part of both `parse` methods |
| message.dfy | `Messages` | `IRC::Message` |
| commands.dfy | `Commands` | lib/rhuidean/methods.rb |
| legacy_commands.dfy | `LegacyCommands` | lib/irc/methods.rb |
| client.dfy | `Client` | lib/rhuidean/client.rb |
| legacy_client.dfy | `LegacyClient` | lib/irc/client.rb |
| casemap.dfy | `Casemap` | `IRCHash` and `irc_downcase` |
| channel.dfy | `Channels` | lib/rhuidean/stateful_channel.rb |
| user.dfy | `Users` | lib/rhuidean/stateful_user.rb |
| isupport.dfy | `Isupport` | the token parsing of `do_rpl_isupport` |
| stateful.dfy | `Stateful` | lib/rhuidean/stateful_client.rb |

Where the code and its documentation disagree, the model follows the code:

- In a `NAMES` reply, the status flag comes from the *last* prefix
  character of a name. The pattern `^([P])*(.+)` captures the last
  repetition of the group, not the first.
- `CASEMAPPING=ascii` folds nothing. `irc_downcase` only folds under
  `:rfc` and returns the string unchanged otherwise.
- A CTCP request's text is split into parameters before the CTCP verb is
  taken off. So `\x01PING 123\x01` reads as the verb `ping` with the
  parameters `["123"]`, as `Messages.PingExample` states.

## Model

| member | source | states |
|---|---|---|
| Text.Downcase | lib/rhuidean/client.rb:480 | ASCII lower-casing: same length, each character lowered, other characters kept |
| Text.Upcase | lib/rhuidean/client.rb:303 | ASCII upper-casing: same length, each character raised, other characters kept |
| Text.Chomp | lib/rhuidean/client.rb:283 | `chomp!` removes a trailing `\r\n` as one unit, and otherwise exactly one trailing `\n` or `\r`; any other string is unchanged, and a line loses its line break |
| Text.Chop | lib/rhuidean/client.rb:479 | `chop!` drops both characters of a trailing `\r\n`, and otherwise exactly the last character |
| Text.Split | lib/rhuidean/client.rb:299 | `String#split` with no argument: every word is nonempty and holds no whitespace |
| Text.SplitSquish | lib/rhuidean/client.rb:299 | the words of `String#split`, joined by single spaces, spell the string with leading and trailing whitespace dropped and each inner whitespace run made one space |
| Text.SplitJoin | lib/rhuidean/client.rb:299 | splitting words joined by single spaces gives the words back |
| Text.Fields | lib/rhuidean/stateful_client.rb:125 | `split('=')` before trailing empties are dropped: fields free of the separator |
| Text.DropTrailingEmpty | lib/rhuidean/stateful_client.rb:145 | Ruby's `split` drops trailing empty fields and nothing else |
| Text.Chars | lib/rhuidean/stateful_client.rb:147-150 | `split('')`: one one-character string per character |
| Text.Remove | lib/rhuidean/stateful_channel.rb:58 | `Array#delete`: every occurrence goes, and the result is an in-order subsequence holding every other element as often as before |
| Text.Shift | lib/rhuidean/stateful_channel.rb:102 | `Array#shift`: the first element, or nil on an empty array, and the rest |
| Text.Collect | lib/rhuidean/client.rb:282-303 | a run of steps raises exactly when some step raises, with the first step's error; otherwise it yields every value in order |
| Events.NewQueue | lib/rhuidean/event.rb:36-39 | a new queue has no events and no handlers |
| Events.Post | lib/rhuidean/event.rb:52-60 | `post` drops an event whose name is already queued and otherwise appends it; names stay unique |
| Events.PostAll | lib/rhuidean/event.rb:52-60 | posting several events extends the queue and leaves every name queued, and names stay unique |
| Events.PostAllKeepsFirst | lib/rhuidean/event.rb:55 | of several posts under one name, the first one's arguments are the ones that stay |
| Events.Handle | lib/rhuidean/event.rb:69-73 | `handle` appends the block to that name's list and changes no other list |
| Events.NeedsRan | lib/rhuidean/event.rb:80-82 | `needs_ran?` holds exactly when the queue is nonempty |
| Events.Calls | lib/rhuidean/event.rb:102 | the handlers of an event are called in registration order, each with the event |
| Events.Invoke | lib/rhuidean/event.rb:102 | running the handlers makes exactly those calls; what they post only extends the queue |
| Events.Drain | lib/rhuidean/event.rb:92-103 | the drain loop calls only registered handlers, never an `:exit` handler, and remembers the last handled `:exit` |
| Events.Run | lib/rhuidean/event.rb:89-110 | `run` keeps the handlers, makes `:exit` calls only after all others, and empties the queue when the `:exit` handlers post nothing |
| Events.LastHandledExit | lib/rhuidean/event.rb:95-100 | the remembered `:exit` is the last one in the queue, and only when `:exit` has handlers |
| Events.DrainSilent | lib/rhuidean/event.rb:92-103 | when handlers post nothing, the loop calls the handlers of each non-exit event in queue order |
| Events.RunSilent | lib/rhuidean/event.rb:89-110 | with silent handlers, one `run` empties the queue and makes the expected calls, `:exit` last |
| Events.HandleThenRun | lib/rhuidean/event.rb:52-110 | after `handle` and `post` on an empty queue, `run` calls the old handlers and then the new one |
| LegacyEvents.DrainLegacy | lib/irc/event.rb:95-110 | the old loop calls only registered handlers; anything left is an `:exit` moved to the back |
| LegacyEvents.RunLegacy | lib/irc/event.rb:95-110 | an `:exit` at the front of a longer queue is requeued at the back and the pass ends with no calls |
| LegacyEvents.FirstEarlyExit | lib/irc/event.rb:99 | finds the first handled `:exit` that is not the last event |
| LegacyEvents.DrainLegacySilent | lib/irc/event.rb:95-110 | with silent handlers, the old pass stops at the first early `:exit` and requeues it after the rest |
| LegacyEvents.RunLegacySilent | lib/irc/event.rb:95-110 | with silent handlers, the old `run` ends in the state `LegacyExpected` predicts |
| LegacyEvents.LegacyTwoPassesMatchDeferred | lib/irc/event.rb:95-110 | with unique names and silent handlers, two old passes make exactly the calls of one new pass and empty the queue |
| LegacyEvents.NoEarlyExitPasses | lib/irc/event.rb:95-110 | with no early `:exit`, two old passes equal one new pass |
| LegacyEvents.EarlyExitPasses | lib/irc/event.rb:95-110 | with an early `:exit` and unique names, two old passes equal one new pass |
| Framing.LineLength | lib/rhuidean/client.rb:209 | the length of the newline-free run at the start of a text, followed by a newline or the end |
| Framing.Pieces | lib/rhuidean/client.rb:209 | `scan(/(.+\n?)/)` yields pieces without a leading newline, each but the last ending in one |
| Framing.Stitch | lib/rhuidean/client.rb:213-217 | a piece either joins an unterminated last entry or is pushed, and the queue's text grows by it |
| Framing.Frame | lib/rhuidean/client.rb:209-218 | stitching every piece appends exactly their text to the queue's text |
| Framing.ReadLines | lib/rhuidean/client.rb:209-218 | after a read, the queue's text is the old text plus the read text with the skipped newlines taken out |
| Framing.ReadLinesFramed | lib/irc/client.rb:143-152 | `read` keeps the receive queue framed: nonempty entries, each holding a newline only at its end |
| Framing.FrameTerminated | lib/rhuidean/client.rb:213-217 | when nothing is pending, the pieces are pushed one per entry |
| Framing.ReadLinesStitches | lib/rhuidean/client.rb:214-215 | a pending fragment absorbs the first piece of the next read |
| Framing.PiecesSqueeze | lib/rhuidean/client.rb:209 | the pieces' text is the read text without the newlines that no piece can start with |
| Framing.ReadMergesLines | lib/rhuidean/client.rb:209-218 | as written, `PING :a` followed by a read of `\nPING :b\n` becomes one entry `PING :aPING :b\n` |
| Framing.ReadCorrectedText | lib/rhuidean/client.rb:209-218 | the corrected framing keeps the newline that ends a pending fragment |
| Framing.ReadCorrectedFramed | lib/rhuidean/client.rb:209-218 | the corrected framing keeps the receive queue framed |
| Framing.ReadCorrectedChunks | lib/rhuidean/client.rb:209-218 | with the correction, reading a text in two chunks frames it as reading it at once |
| Framing.ReadLinesAgree | lib/rhuidean/client.rb:209-218 | the written and corrected framing differ exactly when a fragment is pending and the read starts with a newline |
| Parser.WordLength | lib/rhuidean/client.rb:263 | the length of the leading `\w+` run: word characters, then a non-word character or the end |
| Parser.TargetLength | lib/rhuidean/client.rb:266 | the length of the leading run of characters other than whitespace and `:` |
| Parser.MatchLine | lib/rhuidean/client.rb:256-274 | a match of `IRC_RE` yields well-formed groups: the origin is the text after the leading `:`, the command starts the line, and the text is a suffix of the line |
| Parser.MatchCommand | lib/rhuidean/client.rb:263-272 | after the origin, the command is the leading word and must be followed by whitespace |
| Parser.AfterCommand | lib/rhuidean/client.rb:265-272 | the optional target and the text after one optional `:`; the text is a suffix of the input |
| Parser.ParseLine | lib/rhuidean/client.rb:282-299 | `parse` of one entry raises exactly when `IRC_RE` does not match; the command is a word and the params are split into words |
| Parser.LegacyParseLine | lib/irc/client.rb:212-224 | the old `parse` raises exactly when the grammar does not match, and posts the groups unchanged |
| Parser.MatchCompose | lib/rhuidean/client.rb:256-274 | every well-formed message printed as `:origin COMMAND target :text` matches back into the same groups |
| Parser.ParseWithTarget | lib/rhuidean/client.rb:289-299 | with a target, the params are the words of the text |
| Parser.ParseWithoutTarget | lib/rhuidean/client.rb:294-299 | without a target, the text moves to the target and the params are nil |
| Parser.LegacyParseCompose | lib/irc/client.rb:212-224 | the old parser reads every composed message back into its groups |
| Parser.OriginAloneRejected | lib/rhuidean/client.rb:256-274 | a line with only an origin does not match, so `parse` raises on it |
| Parser.CommandAloneRejected | lib/rhuidean/client.rb:263-264 | any line that is one command word and nothing after it, the empty line included, does not match |
| Messages.SplitOrigin | lib/rhuidean/client.rb:473-475 | `ORIGIN_RE` splits an origin into nonempty nick, user and host; no split means no `!` ... `@` layout fits |
| Messages.SplitOriginGreedy | lib/rhuidean/client.rb:442 | the split is greedy: the last `!` that still fits, then the last `@` |
| Messages.SplitOriginJoin | lib/rhuidean/client.rb:473-475 | `nick!user@host` splits back into its parts when the user holds no `!` and the host no `!` or `@` |
| Messages.ExtractCtcp | lib/rhuidean/client.rb:478-481 | CTCP extraction raises only on a lone `\x01` parameter; otherwise it drops the verb from the params or leaves them alone |
| Messages.ExtractCtcpParams | lib/rhuidean/client.rb:478-481 | `\x01VERB a b\x01` yields the lower-cased verb and the params `a b` |
| Messages.PingExample | lib/rhuidean/client.rb:478-481 | the params `\x01PING`, `123\x01` read as the verb `ping` with params `["123"]` |
| Messages.NewMessage | lib/rhuidean/client.rb:453-482 | `Message.new` keeps the raw line, origin and target, takes its source from the origin split, takes params and CTCP verb from the CTCP extraction, and raises only on a lone `\x01` |
| Messages.ActionFromWire | lib/rhuidean/client.rb:502-522 | a `\x01ACTION ...\x01` message is a CTCP and an action, and not a DCC |
| Commands.Send | lib/rhuidean/methods.rb:22-88 | each formatter appends its line to the send queue and changes nothing else; `invite` raises instead |
| Commands.SendAppends | lib/rhuidean/methods.rb:22-88 | every formatter but `invite` appends exactly its own line |
| Commands.SendIntended | lib/rhuidean/methods.rb:82-83 | corrected: `invite` appends its line like the other formatters, and agrees with `Send` on them |
| Commands.InviteIntendedParses | lib/rhuidean/methods.rb:82-83 | the intended `INVITE nick #chan` line reads back with the nick as target and the channel as text |
| Commands.SendAll | lib/rhuidean/methods.rb:22-88 | several formatters queue their lines in call order, and raise exactly when one of them is `invite` |
| Commands.LineParses | lib/rhuidean/methods.rb:22-88 | every formatted line with token arguments matches `IRC_RE` with the expected command, target and text |
| LegacyCommands.Send | lib/irc/methods.rb:17-53 | each old formatter appends its line and none of them can fail |
| LegacyCommands.SameLinesAsRhuidean | lib/irc/methods.rb:17-53 | the old lines equal the new ones, except that the new `join` adds a space and the new `part` adds ` :` |
| LegacyCommands.BareJoinParses | lib/irc/methods.rb:47-48 | the old `JOIN #chan` line has no target group: the channel is read as free text |
| Client.NewClient | lib/rhuidean/client.rb:58-109 | a new client is neither dead nor connected and has nothing queued |
| Client.VerifyAttributes | lib/rhuidean/client.rb:163-171 | raises the error of the first missing attribute among server, port, nickname, username and realname |
| Client.Connect | lib/rhuidean/client.rb:398-415 | `connect` raises when attributes are missing; otherwise the client is connected and not dead, the handshake is queued, and `:dead` is queued when the socket failed |
| Client.HandshakeIsSent | lib/rhuidean/client.rb:412-414 | the handshake is exactly what `pass`, `nick` and `user` append, in that order |
| Client.SetDead | lib/rhuidean/client.rb:179-186 | `dead = true` marks the client dead and drops the socket and connection; `false` does nothing |
| Client.ConnectFailureDies | lib/rhuidean/client.rb:404-410 | after a failed socket the client is connected with `:dead` queued, and the `:dead` handler leaves it dead and disconnected |
| Client.Read | lib/rhuidean/client.rb:193-225 | an empty or failed read posts `:dead`; otherwise the text is framed and `:recvq_ready` is posted exactly when the last entry is complete |
| Client.LineEvent | lib/rhuidean/client.rb:282-303 | an entry posts its message under the upper-cased command, never one of the client's own event names |
| Client.LineEvents | lib/rhuidean/client.rb:282-303 | the events of several entries, raising exactly when one entry raises |
| Client.PostEntries | lib/rhuidean/client.rb:282-303 | every entry's event is posted in order onto the queue |
| Client.Parse | lib/rhuidean/client.rb:281-309 | `parse` raises exactly when some entry raises; otherwise every entry's event is queued and the receive queue is emptied |
| Client.ParseKeepsFirst | lib/rhuidean/client.rb:303 | of two lines with the same command in one `parse`, only the first one's message is queued |
| Client.ParseQueue | lib/rhuidean/client.rb:281-309 | the queue after `parse` is the old queue with each entry's event posted in turn |
| Client.SelectTimeout | lib/rhuidean/client.rb:362-364 | the `select` timeout is at least 1: 0 becomes 1 and a negative value becomes 60 |
| Client.ClampSettles | lib/rhuidean/client.rb:362-364 | the clamp maps every remaining time to a fixed point of itself: a clamped timeout is left alone |
| Client.PingReply | lib/rhuidean/client.rb:97 | the `:PING` handler sends `PONG :<target>` |
| Client.PongEchoes | lib/rhuidean/client.rb:97 | the server reads back its own PING token as the target of the PONG |
| Client.PingParses | lib/rhuidean/client.rb:256-303 | a server `PING :token` line, with or without an origin, parses with the token as its target and builds a message |
| Client.PongParses | lib/rhuidean/client.rb:97 | our `PONG :token` reply is a well-formed line that parses back to the token |
| Client.TrackNick | lib/rhuidean/client.rb:131 | our nickname changes to the target exactly when the change's origin nick equals ours |
| Client.OwnNickChange | lib/rhuidean/client.rb:131 | `:was!u@h NICK :now` read from the wire renames us from `was` to `now` |
| Client.CtcpReply | lib/rhuidean/client.rb:142-153 | PING, VERSION and CLIENTINFO get a NOTICE framed by `\x01` to the origin nick; other CTCPs get no reply |
| Client.CtcpReadsBack | lib/rhuidean/client.rb:142-153 | a CTCP notice read back by a peer gives the lower-cased verb and the words after it |
| Client.CtcpPingEchoes | lib/rhuidean/client.rb:144-145 | the PING reply carries the request's words back |
| Client.CtcpVersionReads | lib/rhuidean/client.rb:146-148 | the VERSION reply reads back as one word, `rhuidean-<version>` |
| Client.CtcpClientInfoReads | lib/rhuidean/client.rb:149-150 | the CLIENTINFO reply reads back as the six words `114 97 107 97 117 114` |
| LegacyClient.Connect | lib/irc/client.rb:291-307 | the old `connect` checks the same attributes and queues the same handshake, and it never sets a connected flag |
| LegacyClient.SetDead | lib/irc/client.rb:115-121 | the old `dead = true` marks the client dead and drops the socket |
| LegacyClient.Read | lib/irc/client.rb:128-159 | the old `read` posts `:dead` on EOF, raises (ending the thread) on any other read error, and otherwise frames the text as `read` does |
| LegacyClient.LineEvent | lib/irc/client.rb:212-224 | the old `parse` posts the raw groups under the lower-cased command |
| LegacyClient.LineEvents | lib/irc/client.rb:212-224 | the old events of several entries, raising exactly when one entry does not match |
| LegacyClient.PostEntries | lib/irc/client.rb:212-224 | every entry's event is posted in order onto the old queue, and names stay unique |
| LegacyClient.PostsUnder | lib/irc/client.rb:224 | an untargeted `CMD :text` line is posted under the lower-cased command |
| LegacyClient.Parse | lib/irc/client.rb:211-228 | the old `parse` raises exactly when an entry does not match; otherwise every event is queued and the receive queue is emptied |
| LegacyClient.SameEventNames | lib/irc/client.rb:224 | both parsers name an event after its command, the old one in lower case and the new one in upper case |
| LegacyClient.ServerPostsExit | lib/irc/client.rb:224 | a server line `EXIT :...` posts `:exit` to the old client |
| LegacyClient.ServerPostsDead | lib/irc/client.rb:224 | a server line `DEAD :...` posts `:dead` to the old client |
| LegacyClient.PingReply | lib/irc/client.rb:78 | the old `:ping` handler sends `PONG :<text>` |
| LegacyClient.PongSameAsRhuidean | lib/irc/client.rb:78 | for an untargeted `PING :token` the old and new clients answer with the same line |
| LegacyClient.TargetedPongsDiffer | lib/irc/client.rb:78 | for a PING with a target the old client answers `PONG :<text>` and rhuidean answers `PONG :<target>` |
| Casemap.IrcDowncase | lib/rhuidean/stateful_client.rb:322-328 | corrected: the fold keeps length and is the identity unless the casemapping is `:rfc` |
| Casemap.FoldSameName | lib/rhuidean/stateful_client.rb:322-328 | under `:rfc`, two names get one key exactly when RFC 1459 calls them equal, character by character |
| Casemap.FoldIdempotent | lib/rhuidean/stateful_client.rb:322-328 | folding twice is folding once |
| Casemap.ChannelNameExample | lib/rhuidean/stateful_client.rb:322-328 | `#Test`, `#test` and `#TEST` share one key under `:rfc` and differ under the others |
| Casemap.IrcDowncaseAsWritten | lib/rhuidean/stateful_client.rb:324 | as written, the fold keeps length and is the identity unless the casemapping is `:rfc` |
| Casemap.AsWrittenMisfoldsBar | lib/rhuidean/stateful_client.rb:324 | as written, `a\|b` shares a key with `a^b` and not with `a\b`, the opposite of RFC 1459 |
| Casemap.NewHash | lib/rhuidean/stateful_client.rb:306-310 | a new hash is empty and keeps its casemapping |
| Casemap.Get | lib/rhuidean/stateful_client.rb:312-315 | corrected: `[]` finds the entry under the key folded by the RFC 1459 fold, or nil |
| Casemap.Set | lib/rhuidean/stateful_client.rb:317-320 | corrected: `[]=` makes every spelling of the key, under the RFC 1459 fold, read the value back and leaves other keys alone |
| Casemap.SetIfAbsent | lib/rhuidean/stateful_client.rb:179 | corrected: `\|\|=` stores only when no spelling of the key, under the RFC 1459 fold, is present |
| Casemap.Delete | lib/rhuidean/stateful_client.rb:197 | the inherited `delete` removes exactly the key as given, without folding |
| Casemap.DeleteIf | lib/rhuidean/stateful_client.rb:195 | the inherited `delete_if` keeps exactly the entries the block rejects |
| Casemap.Clear | lib/rhuidean/stateful_client.rb:92-93 | `clear` empties the hash and keeps its casemapping |
| Casemap.DeleteMissesUnfolded | lib/rhuidean/stateful_client.rb:76 | deleting by a spelling that is not already folded removes nothing |
| Casemap.DeleteDoesNotFoldExample | lib/rhuidean/stateful_client.rb:76 | under `:rfc`, a user stored as `Bob` survives `delete("Bob")` |
| Channels.NewChannel | lib/rhuidean/stateful_channel.rb:23-41 | a new channel has no key, no limit, no modes and no members |
| Channels.AddUser | lib/rhuidean/stateful_channel.rb:47-49 | `add_user` appends the user, even one already there |
| Channels.FindUser | lib/rhuidean/stateful_channel.rb:61-63 | `find_user` raises on a channel with members, because its block names an undefined `nick` |
| Channels.DeleteUser | lib/rhuidean/stateful_channel.rb:51-59 | a user object is removed everywhere it occurs, nil does nothing, and a nickname goes through `find_user` |
| Channels.DeleteUserRemovesOnly | lib/rhuidean/stateful_channel.rb:58 | deleting a user removes it and keeps every other member |
| Channels.Step | lib/rhuidean/stateful_channel.rb:88-135 | one mode character: a sign sets the direction; a letter shifts its parameter, updates the key, limit or flag list, and posts `mode_<flag>` |
| Channels.StepFlags | lib/rhuidean/stateful_channel.rb:124-130 | a flag letter with `+` appends its flag to the channel's flag list; with `-`, or before any sign, it deletes every copy of that flag |
| Channels.Letters | lib/rhuidean/stateful_channel.rb:88-97 | the characters of a mode string that are not signs: no sign survives and the result is no longer than the input |
| Channels.LettersKept | lib/rhuidean/stateful_channel.rb:88-97 | every character of a mode string that is not a sign is kept, as often as it occurs and in the original order |
| Channels.ScannedPosts | lib/rhuidean/stateful_channel.rb:133-135 | `parse_modes` posts one `mode_<flag>` event per letter, in order |
| Channels.ScannedParams | lib/rhuidean/stateful_channel.rb:100-116 | `parse_modes` consumes exactly the parameters its letters take: status modes and `k` always, and `l` only when adding |
| Channels.StatusLeavesChannel | lib/rhuidean/stateful_channel.rb:100-103 | status modes alone leave the channel unchanged |
| Channels.ScannedKeepsFlags | lib/rhuidean/stateful_channel.rb:124-131 | the flag list only ever holds the flags of the boolean and parameter tables |
| Channels.ScannedAppend | lib/rhuidean/stateful_channel.rb:88 | parsing `a + b` is parsing `a` and then `b` |
| Channels.KeyAndLimit | lib/rhuidean/stateful_channel.rb:106-117 | `+k` sets the key from its parameter and `-k` clears it while still consuming one; `+l` takes a limit, and `-l` takes none and resets it to 0 |
| Channels.UnsignedRemoves | lib/rhuidean/stateful_channel.rb:86-130 | with no sign yet, a flag is removed, and `l` takes no parameter |
| Channels.Deliver | lib/rhuidean/stateful_channel.rb:135 | posting raises exactly when the sink is the client and there is a letter; otherwise one event per letter |
| Channels.ClientSinkRaises | lib/rhuidean/stateful_channel.rb:135 | a channel built with the client as its queue raises at `+o` |
| Channels.QueueSinkPosts | lib/rhuidean/stateful_channel.rb:135 | corrected: a channel built with the event queue posts `mode_oper` with the parameter |
| Users.NewUser | lib/rhuidean/stateful_user.rb:32-44 | a new user has its nickname, no channels and no modes |
| Users.JoinChannel | lib/rhuidean/stateful_user.rb:65-69 | `join_channel` files the channel under its name and touches no other entry |
| Users.PartChannel | lib/rhuidean/stateful_user.rb:78-83 | `part_channel` drops the channel and its modes, both by the name as given |
| Users.AddStatusMode | lib/rhuidean/stateful_user.rb:92-97 | `add_status_mode` appends the flag on that channel only |
| Users.DeleteStatusMode | lib/rhuidean/stateful_user.rb:106-113 | `delete_status_mode` removes every copy of the flag on that channel and does nothing when the channel has no modes |
| Users.AddThenDelete | lib/rhuidean/stateful_user.rb:92-113 | adding and then deleting a flag leaves the flag absent and every other flag as it was |
| Users.PartAfterJoin | lib/rhuidean/stateful_user.rb:65-83 | part after join forgets the channel only when its name is already folded |
| Isupport.Token | lib/rhuidean/stateful_client.rb:125-127 | `split('=')`: a token without `=` is a bare name, the name is the text before the first `=`, neither part holds an `=`, and no name means no value |
| Isupport.TokenReads | lib/rhuidean/stateful_client.rb:125-127 | `KEY=VALUE` reads back as that key and value |
| Isupport.ChanModesOf | lib/rhuidean/stateful_client.rb:144-150 | `CHANMODES` succeeds exactly when the value has at least four fields, and each list is that field's characters |
| Isupport.ChanModesReads | lib/rhuidean/stateful_client.rb:144-150 | `a,b,c,d` reads back into the four lists |
| Isupport.ChanTypesOf | lib/rhuidean/stateful_client.rb:153-154 | `CHANTYPES` gives one type per character, and raises on a missing value |
| Isupport.MatchPrefixLine | lib/rhuidean/stateful_client.rb:87 | a match of `PREFIX_RE` on one line is `(letters)symbols` with a word of letters |
| Isupport.MatchPrefix | lib/rhuidean/stateful_client.rb:158 | `PREFIX_RE` anchors on any line, and on a single line it is `MatchPrefixLine` |
| Isupport.MatchPrefixReads | lib/rhuidean/stateful_client.rb:87 | `(ov)@+` reads back as the letters and symbols |
| Isupport.PrefixRejects | lib/rhuidean/stateful_client.rb:87 | empty letters, missing parentheses and a missing `)` do not match |
| Isupport.Lookup | lib/rhuidean/stateful_client.rb:165 | a status-mode key is absent exactly when no pair has it |
| Isupport.Replace | lib/rhuidean/stateful_client.rb:165 | overwriting a present key keeps the order and changes only that key |
| Isupport.Store | lib/rhuidean/stateful_client.rb:165 | `@status_modes[m] = p` reads back, keeps other keys, and appends a new key at the end |
| Isupport.PrefixPairs | lib/rhuidean/stateful_client.rb:161-166 | each letter is paired with the symbol at its index, or nil when the symbols run out |
| Isupport.StoreAll | lib/rhuidean/stateful_client.rb:164-166 | storing the pairs in order keeps the keys distinct |
| Isupport.StoreAllReads | lib/rhuidean/stateful_client.rb:164-166 | after storing, each letter reads its own symbol and other keys keep their old values |
| Isupport.PrefixExample | lib/rhuidean/stateful_client.rb:156-166 | `(ov)@+` stores `o` to `@` and `v` to `+` |
| Stateful.NewStatefulAsWritten | lib/rhuidean/stateful_client.rb:96 | as written, the constructor raises because `Numeric::RPL_ISUPPORT` is not defined |
| Stateful.ConstructorRaises | lib/rhuidean/numeric.rb:21 | the constructor always raises, while `005` is defined as `RPL_BOUNCE` |
| Stateful.NewStateful | lib/rhuidean/stateful_client.rb:29-46 | corrected: empty registries folding by `:rfc`, a nil casemapping, channel types `#` and `&`, and no status modes |
| Stateful.Known | lib/rhuidean/stateful_client.rb:178-179 | `@users[nick] \|\| StatefulUser.new` finds the known user or files a fresh one, and keeps every existing entry |
| Stateful.AddUser | lib/rhuidean/stateful_client.rb:58-62 | `add_user` files the user under its nickname and leaves other keys alone |
| Stateful.DeleteUser | lib/rhuidean/stateful_client.rb:71-81 | `delete_user` removes the nickname as given, for a string or a user, and returns nil for anything else |
| Stateful.AddThenDeleteUser | lib/rhuidean/stateful_client.rb:58-81 | adding and then deleting a user forgets it only when its nickname is already folded |
| Stateful.OnJoin | lib/rhuidean/stateful_client.rb:171-184 | our JOIN files a fresh channel and queues `MODE #chan`; another user's JOIN finds or files the user and appends it to the channel, raising when the channel is unknown |
| Stateful.Depart | lib/rhuidean/stateful_client.rb:200-207 | another user's leave takes it off the channel and deletes it by its nickname, raising for a nil nick, an unknown channel or an unknown user |
| Stateful.OnPart | lib/rhuidean/stateful_client.rb:186-208 | our PART raises on the missing `users`; another user's PART is `Depart` |
| Stateful.OnKick | lib/rhuidean/stateful_client.rb:228-250 | the victim is the first param; our kick raises as our part does, and anyone else's is `Depart` |
| Stateful.OnNick | lib/rhuidean/stateful_client.rb:210-226 | the user is renamed, filed under the new nick, and the old key as given is deleted; raises for an unknown user |
| Stateful.OnQuit | lib/rhuidean/stateful_client.rb:252-263 | our QUIT posts `:dead`; anyone else's deletes the user by nickname, and raises for an unknown user |
| Stateful.QuitLeavesMembers | lib/rhuidean/stateful_client.rb:258 | after another user's QUIT, the channels still list the user |
| Stateful.NickCaseChangeForgets | lib/rhuidean/stateful_client.rb:216-217 | under `:rfc`, `bob` renaming to `Bob` loses the user, because the delete removes the key just stored |
| Stateful.ModeEvents | lib/rhuidean/stateful_channel.rb:135 | each mode post becomes an event carrying the message, direction and parameter |
| Stateful.ApplyModes | lib/rhuidean/stateful_client.rb:107 | the channel takes the parsed modes and every letter's event is queued, raising when the sink is the client |
| Stateful.OnMode | lib/rhuidean/stateful_client.rb:105-108 | MODE on a non-channel target is ignored; on a channel it applies `params[0]` with the rest as parameters |
| Stateful.OnChannelModeIs | lib/rhuidean/stateful_client.rb:111-113 | `324` applies `params[1]` to the channel `params[0]`, raising when either is missing |
| Stateful.ModeSink | lib/rhuidean/stateful_client.rb:174 | with the client as sink `+o` raises; with the queue as sink it queues `mode_oper` |
| Stateful.ModeIgnoresIsupport | lib/rhuidean/stateful_client.rb:105-108 | the learned channel and status modes do not change what MODE does |
| Stateful.NameMatch | lib/rhuidean/stateful_client.rb:276-281 | the name regex takes the longest prefix run that leaves a nonempty nick, and captures its last character |
| Stateful.StatusFlagOf | lib/rhuidean/stateful_client.rb:285-294 | `@` is `oper` and `+` is `voice`; any other prefix maps to the first status mode with that symbol |
| Stateful.PlainNickFlag | lib/rhuidean/stateful_client.rb:291-293 | a name with no prefix gets the first status mode that has no symbol |
| Stateful.NamesStep | lib/rhuidean/stateful_client.rb:278-297 | one name finds or files its user, adds its flag on the channel and appends it to the members |
| Stateful.NamesFrom | lib/rhuidean/stateful_client.rb:278-298 | a run of names raises exactly on an empty name and keeps existing users |
| Stateful.NamesAppend | lib/rhuidean/stateful_client.rb:278-298 | the names' users are appended to the channel in order |
| Stateful.OnNames | lib/rhuidean/stateful_client.rb:270-299 | `353` raises with too few params, no known prefixes, an unknown channel or an empty name; otherwise it appends every name's user |
| Stateful.NamesNeedPrefix | lib/rhuidean/stateful_client.rb:276 | with no status modes learned, the empty character class makes every NAMES reply raise |
| Stateful.ApplyToken | lib/rhuidean/stateful_client.rb:127-168 | `CASEMAPPING` resets both registries, `CHANMODES`, `CHANTYPES` and `PREFIX` set their tables or raise on a bad value, and other tokens do nothing |
| Stateful.ApplyTokens | lib/rhuidean/stateful_client.rb:127-168 | the tokens apply in order and raise exactly when one token raises |
| Stateful.TokenRaisesAlone | lib/rhuidean/stateful_client.rb:127-168 | whether a token raises does not depend on the state |
| Stateful.OnIsupport | lib/rhuidean/stateful_client.rb:122-169 | `RPL_ISUPPORT` raises exactly on nil params or a raising token, and keeps the client |
| Stateful.PrefixReadsBack | lib/rhuidean/stateful_client.rb:156-166 | after `PREFIX=(letters)symbols`, each letter maps to its symbol |
| Stateful.Apply | lib/rhuidean/stateful_client.rb:90-119 | every modelled handler keeps the registries valid |
| Stateful.OnMessage | lib/rhuidean/stateful_client.rb:98-116 | a message handler raises when its event carries no message |
| Stateful.RunHandlers | lib/rhuidean/event.rb:102 | handlers run in order, and a raising handler stops the rest |
| Stateful.Dispatch | lib/rhuidean/event.rb:102 | dispatching a modelled event keeps the registries valid |
| Stateful.DeadClears | lib/rhuidean/stateful_client.rb:91-94 | `:dead` marks the client dead and disconnected, and then clears both registries |
| Stateful.OwnNickNeedsRegistry | lib/rhuidean/stateful_client.rb:210-216 | our own NICK raises unless we are in the users registry, and otherwise renames us |
| Stateful.DispatchNick | lib/rhuidean/stateful_client.rb:100 | NICK runs the registry rekey first and our own nick tracking after it |
| Stateful.TrackNickStep | lib/rhuidean/client.rb:131 | the tracking handler changes only our nickname |

## Left out

- Socket I/O is left out. The socket is a flag, and a read is its text.
  `write`, `select` and `sleep` in the I/O loop, the `Timer` thread,
  logging, `Thread.exit` and `Time.now` are not modelled. `dead` is a
  boolean rather than a timestamp.
- The handlers for `:read_ready`, `:write_ready` and `:exit`, and the
  `433` handler, are left out. The `433` handler picks a random nickname
  suffix. `Stateful.Dispatch` excludes these events.
- `Rhuidean::VERSION` is defined outside the library's sources, so it is a
  parameter of the CTCP reply.
- Only the constructor's handlers are modelled. Blocks a user registers
  with `on` are arbitrary Ruby code. The event queue takes their effect as
  a function parameter instead.
- Events.Run: a pass is bounded by a `fuel` count and returns `None` when
  the count runs out. A run whose handlers keep posting new events
  forever is not modelled.
- Stateful.Dispatch: the contract states only that the registries stay
  valid. What each handler does is stated on that handler's own member.
- Stateful.Apply: the contract states only that the registries stay
  valid, for the same reason.
- Stateful.NameMatch: the symbols are spliced into a regex character class
  unescaped. The model treats each symbol character literally, so a
  symbol such as `]` or `^` that changes the class is not modelled.
- Stateful.OnJoin: a JOIN with a nil origin nick under `:ascii` raises in
  the model. Ruby would file the channel's new user under nil.
- Casemap.Get: keys are folded by the corrected RFC 1459 fold, where `|`
  folds to `\`. Ruby's `tr` folds both `|` and `^` to `~`. So under `:rfc`
  a read of `a^b` misses an `a|b` entry that Ruby finds, and a read of
  `a\b` finds one that Ruby misses. The as-written fold is
  `Casemap.IrcDowncaseAsWritten`, and the difference is a finding below.
- Casemap.Set: stores under the corrected fold, for the same reason, so
  the spellings that read the value back differ from Ruby's for `|`, `^`
  and `\`.
- Casemap.SetIfAbsent: the presence test uses the corrected fold, for the
  same reason.
- The stateful client's users and channels registries are `IrcHash`es,
  so every `Stateful` member that files, finds or deletes a user or
  channel (`Known`, `AddUser`, `OnJoin`, `OnPart`, `OnKick`, `OnNick`,
  `OnQuit`, `NamesStep`) follows the corrected fold as well.
- Isupport.Token: the name and the no-`=` case are characterised in
  full. The value is stated only to hold no `=`, and `TokenReads` pins it
  for `KEY=VALUE`. The other `split('=')` layouts, such as `K=V=W`, are
  not characterised.
- LegacyClient.Read: the old `read` retries `Errno::EAGAIN` in a loop. The
  model receives the outcome after the retries, so a read that keeps
  failing with `EAGAIN` is not modelled.
- `IRC::Client#exit`, `to_s` and `on` are not modelled separately. `on` is
  `Events.Handle`.
- The `IRC::Message` predicates `to_channel?`, `ctcp?`, `action?` and
  `dcc?` are plain predicates. Only `Messages.ActionFromWire` states
  anything about them.

## Findings

| source | as written | input that shows it | evidently intended | confidence | as-written member | corrected member |
|---|---|---|---|---|---|---|
| lib/rhuidean/client.rb:209-218 | `scan(/(.+\n?)/)` cannot match a lone newline, so the newline that ends a pending fragment is dropped and the next line is glued onto it | `PING :a` pending, then a read of `\nPING :b\n` | the newline completes the pending entry | not executed | Framing.ReadMergesLines | Framing.ReadCorrectedChunks |
| lib/rhuidean/stateful_client.rb:324 | `tr('{}\|^', '[]\\~')` reads the replacement set as `[]~`, so `\|` folds to `~` | `a\|b` and `a^b` share a key, while `a\|b` and `a\b` do not | `\|` folds to `\` as RFC 1459 says | not executed | Casemap.AsWrittenMisfoldsBar | Casemap.FoldSameName |
| lib/rhuidean/stateful_client.rb:96 | `Numeric::RPL_ISUPPORT` is not defined; numeric.rb names `005` `RPL_BOUNCE` | `StatefulClient.new` with any block | the `005` handler is registered | not executed | Stateful.ConstructorRaises | Stateful.NewStateful |
| lib/rhuidean/stateful_client.rb:174 | the channel gets the client as its event queue, and the client has no `post` | our JOIN, then `MODE #chan +o nick` | channels post to the client's event queue | not executed | Channels.ClientSinkRaises | Channels.QueueSinkPosts |
| lib/rhuidean/methods.rb:83 | `invite` appends to `@senq`, which is nil | `invite("nick", "#chan")` | the line is queued on `@sendq` | not executed | Commands.Send | Commands.InviteIntendedParses |
