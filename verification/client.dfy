/**
 * `IRC::Client` of lib/rhuidean/client.rb: the state that `connect`,
 * `dead=`, `read` and `parse` move between, and the default handlers that
 * answer the server.  The socket is a flag, a read is the text it returned,
 * and every line the client sends is a line appended to the send queue.
 */
module Client {
  import opened Text
  import opened Events
  import opened Framing
  import opened Parser
  import opened Messages
  import Commands
  import Channels

  /** The arguments of an event on the client's queue: none for the
      client's own events, a message for an IRC command, and the message,
      sign and parameter of one letter of a channel mode change. */
  datatype Arg = NoArgs | Msg(m: Message)
               | ModeChange(m: Message, sign: Channels.Sign, param: Option<string>)

  const DeadName: string := "dead"
  const RecvqReadyName: string := "recvq_ready"
  const ReadReadyName: string := "read_ready"
  const WriteReadyName: string := "write_ready"

  /** The events the client posts to itself. */
  const InternalNames: set<string> := {DeadName, RecvqReadyName, ReadReadyName, WriteReadyName, ExitName}

  /** The attributes set in the constructor's block; nil is `None`. */
  datatype Attributes = Attributes(server: Option<string>, port: Option<int>, password: Option<string>,
                                   nickname: Option<string>, username: Option<string>, realname: Option<string>)

  /** `socket` says whether `@socket` holds a socket. */
  datatype Client = Client(attrs: Attributes, dead: bool, connected: bool, socket: bool,
                           recvq: seq<string>, sendq: seq<string>, queue: seq<Event<Arg>>)

  /** `Client.new` (lines 58-109): not dead, not connected, nothing queued. */
  function NewClient(a: Attributes): (c: Client)
    ensures c.attrs == a && c.recvq == [] && c.sendq == [] && c.queue == []
    ensures !c.dead && !c.connected && !c.socket
  {
    Client(a, false, false, false, [], [], [])
  }

  // ---------------------------------------------------------------------
  // Connecting and dying

  /** The attributes `connect` needs, in the order they are checked, each
      with the error raised when it is missing. */
  function Requirements(a: Attributes): seq<(bool, string)> {
    [(a.server.Some?, "need a server to connect to"),
     (a.port.Some?, "need a port to connect to"),
     (a.nickname.Some?, "need a nickname to connect with"),
     (a.username.Some?, "need a username to connect with"),
     (a.realname.Some?, "need a realname to connect with")]
  }

  predicate Complete(a: Attributes) {
    a.server.Some? && a.port.Some? && a.nickname.Some? && a.username.Some? && a.realname.Some?
  }

  /** `verify_attributes`: the error of the first missing attribute. */
  function VerifyAttributes(a: Attributes): (r: Result<Attributes>)
    ensures r.Ok? <==> Complete(a)
    ensures r.Ok? ==> r.value == a
    ensures r.Raised? ==>
              exists i :: 0 <= i < |Requirements(a)| && !Requirements(a)[i].0 && r.error == Requirements(a)[i].1
                          && forall j :: 0 <= j < i ==> Requirements(a)[j].0
  {
    var rs := Requirements(a);
    if a.server.None? then
      assert !rs[0].0;
      Raised("need a server to connect to")
    else if a.port.None? then
      assert rs[0].0 && !rs[1].0;
      Raised("need a port to connect to")
    else if a.nickname.None? then
      assert rs[0].0 && rs[1].0 && !rs[2].0;
      Raised("need a nickname to connect with")
    else if a.username.None? then
      assert rs[0].0 && rs[1].0 && rs[2].0 && !rs[3].0;
      Raised("need a username to connect with")
    else if a.realname.None? then
      assert rs[0].0 && rs[1].0 && rs[2].0 && rs[3].0 && !rs[4].0;
      Raised("need a realname to connect with")
    else Ok(a)
  }

  /** The registration lines, as section 4.1 of RFC 1459 orders them: PASS
      when there is a password, then NICK, then USER with the server name
      as both host and server. */
  function Handshake(a: Attributes): seq<string>
    requires Complete(a)
  {
    var srv := a.server.value;
    (if a.password.Some? then ["PASS " + a.password.value] else [])
      + ["NICK " + a.nickname.value,
         "USER " + a.username.value + " " + srv + " " + srv + " :" + a.realname.value]
  }

  /** `connect`.  `socketOk` says whether `TCPSocket.new` succeeded; when it
      fails the socket is left as it was and `:dead` is posted, yet the client
      still calls itself connected and queues the handshake. */
  function Connect(c: Client, socketOk: bool): (r: Result<Client>)
    ensures r.Raised? <==> !Complete(c.attrs)
    ensures r.Raised? ==> r.error == VerifyAttributes(c.attrs).error
    ensures r.Ok? ==> !r.value.dead && r.value.connected
    ensures r.Ok? ==> r.value.sendq == c.sendq + Handshake(c.attrs)
    ensures r.Ok? ==> r.value.socket == (socketOk || c.socket)
    ensures r.Ok? ==> Queued(r.value.queue, DeadName) == (!socketOk || Queued(c.queue, DeadName))
    ensures r.Ok? ==> c.queue <= r.value.queue && |r.value.queue| <= |c.queue| + 1
    ensures r.Ok? ==> r.value.recvq == c.recvq && r.value.attrs == c.attrs
  {
    match VerifyAttributes(c.attrs)
    case Raised(e) => Raised(e)
    case Ok(a) =>
      var c1 := if socketOk then c.(socket := true) else c.(queue := Post(c.queue, DeadName, NoArgs));
      Ok(c1.(dead := false, connected := true, sendq := c.sendq + Handshake(a)))
  }

  /** The handshake lines are exactly what `send_pass`, `send_nick` and
      `send_user` append, in that order, through the formatters. */
  lemma HandshakeIsSent(q: seq<string>, a: Attributes)
    requires Complete(a)
    ensures var srv := a.server.value;
            var q1 := if a.password.Some? then Commands.Send(q, Commands.Pass(a.password.value), a.nickname).value else q;
            var q2 := Commands.Send(q1, Commands.Nick(a.nickname.value), a.nickname).value;
            Commands.Send(q2, Commands.User(a.username.value, srv, srv, a.realname.value), a.nickname).value
              == q + Handshake(a)
  {
    var srv := a.server.value;
    var q1 := if a.password.Some? then Commands.Send(q, Commands.Pass(a.password.value), a.nickname).value else q;
    if a.password.Some? {
      Commands.SendAppends(q, Commands.Pass(a.password.value), a.nickname);
    }
    Commands.SendAppends(q1, Commands.Nick(a.nickname.value), a.nickname);
    var q2 := q1 + ["NICK " + a.nickname.value];
    var user := Commands.User(a.username.value, srv, srv, a.realname.value);
    Commands.SendAppends(q2, user, a.nickname);
    UserLine(a.username.value, srv, a.realname.value);
  }

  lemma UserLine(u: string, srv: string, r: string)
    ensures Commands.Line(Commands.User(u, srv, srv, r), None) == "USER " + u + " " + srv + " " + srv + " :" + r
  {
    assert "USER " + u + " " + (srv + " " + srv + " :" + r) == "USER " + u + " " + srv + " " + srv + " :" + r;
  }

  /** `dead=`: only `true` has an effect, and it drops the socket and the
      connection; queues and attributes are kept. */
  function SetDead(c: Client, b: bool): (r: Client)
    ensures b ==> r.dead && !r.socket && !r.connected
    ensures b ==> r.recvq == c.recvq && r.sendq == c.sendq && r.queue == c.queue && r.attrs == c.attrs
    ensures !b ==> r == c
  {
    if b then c.(dead := true, socket := false, connected := false) else c
  }

  /** A failed socket leaves the client connected but with `:dead` queued;
      once the `:dead` handler runs, it is dead and no longer connected. */
  lemma ConnectFailureDies(c: Client)
    requires Complete(c.attrs)
    ensures Connect(c, false).Ok?
    ensures var c1 := Connect(c, false).value;
            c1.connected && !c1.dead && Queued(c1.queue, DeadName)
            && var c2 := SetDead(c1, true); c2.dead && !c2.connected && c2.sendq == c.sendq + Handshake(c.attrs)
  {
  }

  // ---------------------------------------------------------------------
  // Reading

  /** `read`, given what `read_nonblock` returned (`None` when it raised).
      Nothing or an empty string posts `:dead`; otherwise the text is framed
      onto the receive queue and `:recvq_ready` is posted when the last
      entry is a complete line. */
  function Read(c: Client, data: Option<string>): (r: Client)
    ensures r.sendq == c.sendq && r.attrs == c.attrs && r.dead == c.dead && r.connected == c.connected && r.socket == c.socket
    ensures Framed(c.recvq) ==> Framed(r.recvq)
    ensures c.queue <= r.queue && |r.queue| <= |c.queue| + 1
    ensures data.None? || data == Some("") ==> r.recvq == c.recvq && Queued(r.queue, DeadName)
    ensures data.Some? && data.value != "" ==> r.recvq == ReadLines(c.recvq, data.value)
    ensures data.Some? && data.value != "" ==>
              (Queued(r.queue, RecvqReadyName) <==> Ready(r.recvq) || Queued(c.queue, RecvqReadyName))
    ensures data.Some? && data.value != "" ==> (Queued(r.queue, DeadName) <==> Queued(c.queue, DeadName))
  {
    if data.None? || data == Some("") then c.(queue := Post(c.queue, DeadName, NoArgs))
    else
      var q := ReadLines(c.recvq, data.value);
      assert Framed(c.recvq) ==> Framed(q) by {
        if Framed(c.recvq) {
          ReadLinesFramed(c.recvq, data.value);
        }
      }
      var c1 := c.(recvq := q);
      if Ready(q) then
        var r := c1.(queue := Post(c.queue, RecvqReadyName, NoArgs));
        assert Queued(r.queue, DeadName) ==> Queued(c.queue, DeadName) by {
          if !Queued(c.queue, RecvqReadyName) {
            assert r.queue == c.queue + [Event(RecvqReadyName, NoArgs)];
          }
        }
        r
      else c1
  }

  // ---------------------------------------------------------------------
  // Parsing

  /** An upper-cased `\w+` command: never a lower-case letter. */
  predicate CommandName(n: string) {
    |n| > 0 && forall i :: 0 <= i < |n| ==> IsWord(n[i]) && !('a' <= n[i] <= 'z')
  }

  /** The event `parse` posts for one receive-queue entry: the message built
      from the chomped line, under the upper-cased command.  Since every such
      name is upper case, a server can never post one of the client's own
      events. */
  function LineEvent(entry: string): (r: Result<Event<Arg>>)
    requires OneLine(entry)
    ensures r.Raised? <==> ParseLine(entry).Raised? || ParseLine(entry).value.params == Some(["\U{1}"])
    ensures r.Ok? ==> CommandName(r.value.name) && r.value.name !in InternalNames
    ensures r.Ok? ==> r.value.args.Msg? && r.value.args.m.raw == Chomp(entry)
    ensures r.Ok? ==> Downcase(r.value.name) == Downcase(ParseLine(entry).value.command)
  {
    match ParseLine(entry)
    case Raised(e) => Raised(e)
    case Ok(p) =>
      match NewMessage(Chomp(entry), p)
      case Raised(e) => Raised(e)
      case Ok(m) =>
        UpcaseWord(p.command);
        Ok(Event(Upcase(p.command), Msg(m)))
  }

  lemma UpcaseWord(w: string)
    requires Word(w)
    ensures CommandName(Upcase(w)) && Upcase(w) !in InternalNames
    ensures Downcase(Upcase(w)) == Downcase(w)
  {
    var n := Upcase(w);
    assert forall i :: 0 <= i < |w| ==> IsWord(w[i]);
    assert CommandName(n);
    assert n[0] != 'd' && n[0] != 'r' && n[0] != 'w' && n[0] != 'e';
    assert forall i :: 0 <= i < |w| ==> LowerChar(UpperChar(w[i])) == LowerChar(w[i]);
  }

  /** The events of a run of entries, one per entry, in order. */
  function LineEvents(lines: seq<string>): (r: Result<seq<Event<Arg>>>)
    requires forall i :: 0 <= i < |lines| ==> OneLine(lines[i])
    ensures r.Raised? <==> exists i :: 0 <= i < |lines| && LineEvent(lines[i]).Raised?
    ensures r.Ok? ==> |r.value| == |lines| && forall i :: 0 <= i < |lines| ==> LineEvent(lines[i]) == Ok(r.value[i])
  {
    Collect(LineResults(lines))
  }

  function LineResults(lines: seq<string>): (rs: seq<Result<Event<Arg>>>)
    requires forall i :: 0 <= i < |lines| ==> OneLine(lines[i])
    ensures |rs| == |lines| && forall i :: 0 <= i < |lines| ==> rs[i] == LineEvent(lines[i])
  {
    seq(|lines|, i requires 0 <= i < |lines| => LineEvent(lines[i]))
  }

  /** The event queue once every entry of a framed receive queue has
      posted its event, in order. */
  function PostEntries(queue: seq<Event<Arg>>, recvq: seq<string>): (r: Result<seq<Event<Arg>>>)
    requires Framed(recvq)
    ensures r.Raised? <==> exists i :: 0 <= i < |recvq| && LineEvent(recvq[i]).Raised?
    ensures r.Ok? ==> queue <= r.value && |r.value| <= |queue| + |recvq|
    ensures r.Ok? ==> forall i :: 0 <= i < |recvq| ==> Queued(r.value, LineEvent(recvq[i]).value.name)
    ensures r.Ok? && UniqueNames(queue) ==> UniqueNames(r.value)
  {
    FramedOneLine(recvq);
    match LineEvents(recvq)
    case Raised(e) => Raised(e)
    case Ok(evs) =>
      assert forall i :: 0 <= i < |recvq| ==> LineEvent(recvq[i]).value == evs[i];
      Ok(PostAll(queue, evs))
  }

  /** `parse` (lines 281-309): each entry posts its event, in order, then the
      receive queue is emptied.  An entry the grammar rejects, or a lone
      `\x01` parameter, raises and ends the thread. */
  function Parse(c: Client): (r: Result<Client>)
    requires Framed(c.recvq)
    ensures r.Raised? <==> exists i :: 0 <= i < |c.recvq| && LineEvent(c.recvq[i]).Raised?
    ensures r.Ok? ==> r.value.recvq == [] && r.value.sendq == c.sendq && r.value.attrs == c.attrs
    ensures r.Ok? ==> r.value.dead == c.dead && r.value.connected == c.connected && r.value.socket == c.socket
    ensures r.Ok? ==> c.queue <= r.value.queue && |r.value.queue| <= |c.queue| + |c.recvq|
    ensures r.Ok? ==> forall i :: 0 <= i < |c.recvq| ==> Queued(r.value.queue, LineEvent(c.recvq[i]).value.name)
    ensures r.Ok? && UniqueNames(c.queue) ==> UniqueNames(r.value.queue)
  {
    FramedOneLine(c.recvq);
    match PostEntries(c.queue, c.recvq)
    case Raised(e) => Raised(e)
    case Ok(q) => Ok(c.(queue := q, recvq := []))
  }

  /** Two entries with the same command in one `parse`: only the first
      one's message reaches the handlers, the second is dropped by `post`. */
  lemma ParseKeepsFirst(c: Client, i: nat, k: nat)
    requires Framed(c.recvq) && Parse(c).Ok? && UniqueNames(c.queue)
    requires i < k < |c.recvq|
    requires LineEvent(c.recvq[i]).value.name == LineEvent(c.recvq[k]).value.name
    requires !Queued(c.queue, LineEvent(c.recvq[i]).value.name)
    requires forall j :: 0 <= j < i ==> LineEvent(c.recvq[j]).value.name != LineEvent(c.recvq[i]).value.name
    ensures OnlyUnder(Parse(c).value.queue, LineEvent(c.recvq[i]).value)
    ensures LineEvent(c.recvq[k]).value != LineEvent(c.recvq[i]).value ==>
              LineEvent(c.recvq[k]).value !in Parse(c).value.queue
  {
    var evs := ParseQueue(c);
    assert LineEvent(c.recvq[i]).value == evs[i];
    assert forall j :: 0 <= j < i ==> evs[j].name != evs[i].name by {
      forall j | 0 <= j < i ensures evs[j].name != evs[i].name {
        assert LineEvent(c.recvq[j]).value == evs[j];
      }
    }
    PostAllKeepsFirst(c.queue, evs, i);
  }

  /** The queue `parse` leaves is the old one with every entry's event
      posted in turn. */
  lemma ParseQueue(c: Client) returns (evs: seq<Event<Arg>>)
    requires Framed(c.recvq) && Parse(c).Ok?
    ensures |evs| == |c.recvq| && Parse(c).value.queue == PostAll(c.queue, evs)
    ensures forall j :: 0 <= j < |c.recvq| ==> LineEvent(c.recvq[j]) == Ok(evs[j])
  {
    evs := LineEvents(c.recvq).value;
  }

  // ---------------------------------------------------------------------
  // Scheduling

  /** The `select` timeout of `io_loop` (lines 362-364), from the seconds
      until the next timer, already rounded: 0 would block forever and
      becomes 1, and a negative value (no timer) becomes 60. */
  function SelectTimeout(remaining: int): (r: int)
    ensures r >= 1
    ensures remaining >= 1 ==> r == remaining
    ensures remaining == 0 ==> r == 1
    ensures remaining < 0 ==> r == 60
  {
    var t := if remaining == 0 then 1 else remaining;
    if t < 0 then 60 else t
  }

  /** A clamped timeout is already a valid `select` timeout: clamping it
      again changes nothing. */
  lemma ClampSettles(remaining: int)
    ensures SelectTimeout(SelectTimeout(remaining)) == SelectTimeout(remaining)
  {
  }

  // ---------------------------------------------------------------------
  // Default handlers

  /** The `:PING` handler (line 97). */
  function PingReply(m: Message): (r: Commands.Command)
    ensures Commands.Line(r, None) == "PONG :" + m.target
  {
    Commands.Raw("PONG :" + m.target)
  }

  /** The PONG echoes the PING: the server reads back, as the target of its
      `PONG`, exactly the target of the `PING` it sent. */
  lemma PongEchoes(origin: Option<string>, token: string)
    requires origin.Some? ==> |origin.value| > 0 && NoSpace(origin.value)
    requires NoNewline(token)
    ensures var ping := Compose(Groups(origin, "PING", None, token)) + "\r\n";
            OneLine(ping) && ParseLine(ping).Ok? && NewMessage(Chomp(ping), ParseLine(ping).value).Ok?
            && var m := NewMessage(Chomp(ping), ParseLine(ping).value).value;
               var pong := Commands.Line(PingReply(m), None) + "\r\n";
               OneLine(pong) && ParseLine(pong) == Ok(Parsed(None, "PONG", token, None))
  {
    var ping := Compose(Groups(origin, "PING", None, token)) + "\r\n";
    PingParses(origin, token);
    var m := NewMessage(Chomp(ping), ParseLine(ping).value).value;
    assert m.target == token;
    PongParses(token);
  }

  lemma PingParses(origin: Option<string>, token: string)
    requires origin.Some? ==> |origin.value| > 0 && NoSpace(origin.value)
    requires NoNewline(token)
    ensures var ping := Compose(Groups(origin, "PING", None, token)) + "\r\n";
            OneLine(ping) && ParseLine(ping) == Ok(Parsed(origin, "PING", token, None))
            && NewMessage(Chomp(ping), ParseLine(ping).value).Ok?
            && NewMessage(Chomp(ping), ParseLine(ping).value).value.target == token
  {
    WordText("PING");
    ParseWithoutTarget(origin, "PING", token);
  }

  lemma PongParses(token: string)
    requires NoNewline(token)
    ensures OneLine("PONG :" + token + "\r\n") && ParseLine("PONG :" + token + "\r\n") == Ok(Parsed(None, "PONG", token, None))
  {
    PongText(token);
    WordText("PONG");
    ParseWithoutTarget(None, "PONG", token);
  }

  lemma PongText(token: string)
    ensures Compose(Groups(None, "PONG", None, token)) + "\r\n" == "PONG :" + token + "\r\n"
  {
    assert Compose(Groups(None, "PONG", None, token)) == "PONG :" + token;
  }

  lemma WordText(w: string)
    requires w == "PING" || w == "PONG" || w == "NOTICE"
    ensures Word(w)
  {
  }

  /** The `:NICK` handler (line 131): the new nick is adopted when the
      change's origin nick equals ours, where nil equals nil. */
  function TrackNick(nickname: Option<string>, m: Message): (r: Option<string>)
    ensures r == nickname || r == Some(m.target)
    ensures r != nickname ==> OriginNick(m) == nickname
    ensures OriginNick(m) == nickname ==> r == Some(m.target)
  {
    if OriginNick(m) == nickname then Some(m.target) else nickname
  }

  /** Our own nick change, as the server announces it, renames us. */
  lemma OwnNickChange(was: string, user: string, host: string, now: string)
    requires |was| > 0 && |user| > 0 && |host| > 0 && NoNewline(now)
    requires NoSpace(was) && NoSpace(user) && NoSpace(host)
    requires '!' !in user && '!' !in host && '@' !in host
    ensures var o := was + "!" + user + "@" + host;
            var line := Compose(Groups(Some(o), "NICK", None, now)) + "\r\n";
            OneLine(line) && ParseLine(line).Ok? && NewMessage(Chomp(line), ParseLine(line).value).Ok?
            && TrackNick(Some(was), NewMessage(Chomp(line), ParseLine(line).value).value) == Some(now)
  {
    var o := was + "!" + user + "@" + host;
    assert NoSpace(o) by {
      forall i | 0 <= i < |o| ensures !IsSpace(o[i]) {
        if i < |was| { assert o[i] == was[i]; }
        else if i == |was| { assert o[i] == '!'; }
        else if i < |was| + 1 + |user| { assert o[i] == user[i - |was| - 1]; }
        else if i == |was| + 1 + |user| { assert o[i] == '@'; }
        else { assert o[i] == host[i - |was| - 2 - |user|]; }
      }
    }
    assert Word("NICK");
    ParseWithoutTarget(Some(o), "NICK", now);
    SplitOriginJoin(was, user, host);
  }

  /** The version reply needs `Rhuidean::VERSION`, which is defined outside
      the library's sources; it is a parameter here. */
  function CtcpReply(m: Message, version: string): (r: Option<Commands.Command>)
    ensures r.Some? <==> m.ctcp == Some("ping") || m.ctcp == Some("version") || m.ctcp == Some("clientinfo")
    ensures r.Some? ==> r.value.Notice? && r.value.to == Commands.Interpolate(OriginNick(m))
    ensures r.Some? ==> |r.value.message| >= 2 && r.value.message[0] == '\U{1}' && Last(r.value.message) == '\U{1}'
  {
    var to := Commands.Interpolate(OriginNick(m));
    match m.ctcp
    case Some(v) =>
      if v == "ping" then
        var args := match m.params case None => "" case Some(ps) => Join(ps, " ");
        Some(Commands.Notice(to, "\U{1}PING " + args + "\U{1}"))
      else if v == "version" then
        Some(Commands.Notice(to, "\U{1}VERSION " + "rhuidean-" + version + "\U{1}"))
      else if v == "clientinfo" then
        Some(Commands.Notice(to, ClientInfoReply))
      else None
    case None => None
  }

  /** What a peer's `Message.new` makes of `NOTICE nick :\x01VERB a b\x01`:
      the CTCP verb, downcased, and the words after it. */
  lemma CtcpReadsBack(nick: string, verb: string, args: seq<string>)
    requires TargetToken(nick) && |verb| > 0 && NoSpace(verb) && |args| > 0
    requires forall i :: 0 <= i < |args| ==> |args[i]| > 0 && NoSpace(args[i])
    ensures var line := Commands.Line(Commands.Notice(nick, "\U{1}" + verb + " " + Join(args, " ") + "\U{1}"), None) + "\r\n";
            OneLine(line) && ParseLine(line) == Ok(Parsed(None, "NOTICE", nick, Some(CtcpParams(verb, args))))
            && NewMessage(Chomp(line), ParseLine(line).value).Ok?
            && var m := NewMessage(Chomp(line), ParseLine(line).value).value;
               m.ctcp == Some(Downcase(verb)) && m.params == Some(args) && m.target == nick
  {
    var ps := CtcpParams(verb, args);
    var text := "\U{1}" + verb + " " + Join(args, " ") + "\U{1}";
    CtcpJoin(verb, args);
    CtcpTokens(verb, args);
    WordText("NOTICE");
    ParseWithTarget(None, "NOTICE", nick, ps);
    NoticeCompose(nick, text);
    var line := Commands.Line(Commands.Notice(nick, text), None) + "\r\n";
    assert ParseLine(line) == Ok(Parsed(None, "NOTICE", nick, Some(ps)));
    ExtractCtcpParams(verb, args);
  }

  lemma CtcpTokens(verb: string, args: seq<string>)
    requires |verb| > 0 && NoSpace(verb) && |args| > 0
    requires forall i :: 0 <= i < |args| ==> |args[i]| > 0 && NoSpace(args[i])
    ensures var ps := CtcpParams(verb, args);
            forall i :: 0 <= i < |ps| ==> |ps[i]| > 0 && NoSpace(ps[i])
  {
    assert NoSpace("\U{1}" + verb);
    assert NoSpace(Last(args) + "\U{1}");
  }

  lemma NoticeCompose(nick: string, text: string)
    ensures Compose(Groups(None, "NOTICE", Some(nick), text)) == Commands.Line(Commands.Notice(nick, text), None)
  {
    assert "NOTICE" + " " == "NOTICE ";
  }

  /** The text of a CTCP request is its params joined by spaces. */
  lemma CtcpJoin(verb: string, args: seq<string>)
    requires |args| > 0
    ensures Join(CtcpParams(verb, args), " ") == "\U{1}" + verb + " " + Join(args, " ") + "\U{1}"
  {
    var head := "\U{1}" + verb;
    var tail := args[..|args| - 1] + [Last(args) + "\U{1}"];
    assert CtcpParams(verb, args) == [head] + tail;
    JoinCons(head, tail);
    JoinAppendLast(args, "\U{1}");
    Assoc(head, Join(args, " "));
  }

  lemma JoinCons(head: string, tail: seq<string>)
    requires |tail| > 0
    ensures Join([head] + tail, " ") == head + " " + Join(tail, " ")
  {
    var ps := [head] + tail;
    assert ps[0] == head && ps[1..] == tail;
  }

  lemma Assoc(head: string, j: string)
    ensures head + " " + (j + "\U{1}") == head + " " + j + "\U{1}"
  {
  }

  /** Appending to the last word appends to the joined text. */
  lemma {:induction false} JoinAppendLast(ts: seq<string>, x: string)
    requires |ts| > 0
    ensures Join(ts[..|ts| - 1] + [Last(ts) + x], " ") == Join(ts, " ") + x
    decreases |ts|
  {
    var us := ts[..|ts| - 1] + [Last(ts) + x];
    if |ts| > 1 {
      JoinAppendLast(ts[1..], x);
      assert us[1..] == ts[1..][..|ts[1..]| - 1] + [Last(ts[1..]) + x];
      assert us[0] == ts[0];
    }
  }

  /** The reply to a CTCP PING carries the request's words back, so the
      peer that sent `\x01PING a b\x01` reads a PING with `a b`. */
  lemma CtcpPingEchoes(m: Message, version: string)
    requires m.ctcp == Some("ping") && m.params.Some? && |m.params.value| > 0
    requires forall i :: 0 <= i < |m.params.value| ==> |m.params.value[i]| > 0 && NoSpace(m.params.value[i])
    requires TargetToken(Commands.Interpolate(OriginNick(m)))
    ensures CtcpReply(m, version).Some?
    ensures var line := Commands.Line(CtcpReply(m, version).value, None) + "\r\n";
            OneLine(line) && ParseLine(line).Ok? && NewMessage(Chomp(line), ParseLine(line).value).Ok?
            && var p := NewMessage(Chomp(line), ParseLine(line).value).value;
               p.ctcp == Some("ping") && p.params == m.params
  {
    var to := Commands.Interpolate(OriginNick(m));
    var j := Join(m.params.value, " ");
    assert CtcpReply(m, version) == Some(Commands.Notice(to, "\U{1}PING " + j + "\U{1}"));
    assert "\U{1}PING " + j + "\U{1}" == "\U{1}" + "PING" + " " + j + "\U{1}";
    CtcpReadsBack(to, "PING", m.params.value);
    VerbNames();
  }

  lemma VerbNames()
    ensures Downcase("PING") == "ping" && Downcase("VERSION") == "version"
    ensures Downcase("CLIENTINFO") == "clientinfo"
  {
    LowerOf("PING", "ping");
    LowerOf("VERSION", "version");
    LowerOf("CLIENTINFO", "clientinfo");
  }

  lemma LowerOf(s: string, t: string)
    requires |s| == |t| && forall i :: 0 <= i < |s| ==> LowerChar(s[i]) == t[i]
    ensures Downcase(s) == t
  {
  }

  /** The VERSION reply reads back as a VERSION with one word,
      `rhuidean-<version>`. */
  lemma CtcpVersionReads(m: Message, version: string)
    requires m.ctcp == Some("version") && NoSpace(version)
    requires TargetToken(Commands.Interpolate(OriginNick(m)))
    ensures CtcpReply(m, version).Some?
    ensures var line := Commands.Line(CtcpReply(m, version).value, None) + "\r\n";
            OneLine(line) && ParseLine(line).Ok? && NewMessage(Chomp(line), ParseLine(line).value).Ok?
            && var p := NewMessage(Chomp(line), ParseLine(line).value).value;
               p.ctcp == Some("version") && p.params == Some(["rhuidean-" + version])
  {
    var to := Commands.Interpolate(OriginNick(m));
    var w := "rhuidean-" + version;
    assert CtcpReply(m, version) == Some(Commands.Notice(to, "\U{1}VERSION " + "rhuidean-" + version + "\U{1}"));
    VersionText(version);
    CtcpReadsBack(to, "VERSION", [w]);
    VerbNames();
  }

  lemma VersionText(version: string)
    requires NoSpace(version)
    ensures NoSpace("rhuidean-" + version)
    ensures "\U{1}VERSION " + "rhuidean-" + version + "\U{1}" == "\U{1}" + "VERSION" + " " + Join(["rhuidean-" + version], " ") + "\U{1}"
  {
    var w := "rhuidean-" + version;
    assert NoSpace(w) by {
      assert forall i :: 9 <= i < |w| ==> w[i] == version[i - 9];
    }
    assert Join([w], " ") == w;
  }

  /** The CLIENTINFO reply reads back as six numeric words. */
  lemma CtcpClientInfoReads(m: Message, version: string)
    requires m.ctcp == Some("clientinfo")
    requires TargetToken(Commands.Interpolate(OriginNick(m)))
    ensures CtcpReply(m, version).Some?
    ensures var line := Commands.Line(CtcpReply(m, version).value, None) + "\r\n";
            OneLine(line) && ParseLine(line).Ok? && NewMessage(Chomp(line), ParseLine(line).value).Ok?
            && var p := NewMessage(Chomp(line), ParseLine(line).value).value;
               p.ctcp == Some("clientinfo") && p.params == Some(ClientInfoWords)
  {
    var to := Commands.Interpolate(OriginNick(m));
    assert CtcpReply(m, version) == Some(Commands.Notice(to, ClientInfoReply));
    ClientInfoText();
    CtcpReadsBack(to, "CLIENTINFO", ClientInfoWords);
    VerbNames();
  }

  const ClientInfoWords: seq<string> := ["114", "97", "107", "97", "117", "114"]

  /** The CLIENTINFO reply text: the verb and the six numbers between
      `\x01` bytes. */
  const ClientInfoReply: string := "\U{1}" + "CLIENTINFO" + " " + "114 97 107 97 117 114" + "\U{1}"

  lemma ClientInfoText()
    ensures forall i :: 0 <= i < |ClientInfoWords| ==> |ClientInfoWords[i]| > 0 && NoSpace(ClientInfoWords[i])
    ensures ClientInfoReply == "\U{1}" + "CLIENTINFO" + " " + Join(ClientInfoWords, " ") + "\U{1}"
  {
    ClientInfoJoin();
  }

  lemma ClientInfoJoin()
    ensures Join(ClientInfoWords, " ") == "114 97 107 97 117 114"
  {
    ClientInfoTailJoin();
    JoinConsText(["114", "97", "107", "97", "117", "114"], "97 107 97 117 114");
  }

  lemma ClientInfoTailJoin()
    ensures Join(["97", "107", "97", "117", "114"], " ") == "97 107 97 117 114"
  {
    JoinLastFour();
    JoinConsText(["97", "107", "97", "117", "114"], "107 97 117 114");
  }

  lemma JoinLastFour()
    ensures Join(["107", "97", "117", "114"], " ") == "107 97 117 114"
  {
    JoinLastThree();
    JoinConsText(["107", "97", "117", "114"], "97 117 114");
  }

  lemma JoinLastThree()
    ensures Join(["97", "117", "114"], " ") == "97 117 114"
  {
    JoinConsText(["117", "114"], "114");
    JoinConsText(["97", "117", "114"], "117 114");
  }

  lemma JoinConsText(ts: seq<string>, j: string)
    requires |ts| > 1 && Join(ts[1..], " ") == j
    ensures Join(ts, " ") == ts[0] + " " + j
  {
  }
}
