/**
 * The older `IRC::Client` of lib/irc/client.rb.  It frames input exactly as
 * the rhuidean copy does, but its `parse` posts the raw groups of `IRC_RE`
 * under the downcased command, it has no `connected` flag, and only EOF
 * counts as a dead read.
 */
module LegacyClient {
  import opened Text
  import opened Events
  import opened Framing
  import opened Parser
  import LegacyCommands
  import Commands
  import Client

  /** `post(name, origin, target, params)`: the three groups after the
      command, with no swap and no splitting. */
  datatype LegacyArg = NoArgs | Fields(origin: Option<string>, target: Option<string>, text: string)

  datatype LegacyClient = LegacyClient(attrs: Client.Attributes, dead: bool, socket: bool,
                                       recvq: seq<string>, sendq: seq<string>, queue: seq<Event<LegacyArg>>)

  /** `connect` (lines 291-307): the attributes are checked in the same
      order as the rhuidean copy, a failed socket posts `:dead`, and `dead`
      is cleared either way before the handshake is queued. */
  function Connect(c: LegacyClient, socketOk: bool): (r: Result<LegacyClient>)
    ensures r.Raised? <==> !Client.Complete(c.attrs)
    ensures r.Raised? ==> r.error == Client.VerifyAttributes(c.attrs).error
    ensures r.Ok? ==> !r.value.dead && r.value.sendq == c.sendq + Client.Handshake(c.attrs)
    ensures r.Ok? ==> r.value.socket == (socketOk || c.socket)
    ensures r.Ok? ==> Queued(r.value.queue, Client.DeadName) == (!socketOk || Queued(c.queue, Client.DeadName))
    ensures r.Ok? ==> c.queue <= r.value.queue && r.value.recvq == c.recvq && r.value.attrs == c.attrs
  {
    match Client.VerifyAttributes(c.attrs)
    case Raised(e) => Raised(e)
    case Ok(a) =>
      var c1 := if socketOk then c.(socket := true) else c.(queue := Post(c.queue, Client.DeadName, NoArgs));
      Ok(c1.(dead := false, sendq := c.sendq + Client.Handshake(a)))
  }

  /** The handshake `connect` queues is what `pass`, `nick` and `user`
      append, in that order. */
  lemma HandshakeIsSent(q: seq<string>, a: Client.Attributes)
    requires Client.Complete(a)
    ensures var srv := a.server.value;
            var q1 := if a.password.Some? then LegacyCommands.Send(q, LegacyCommands.Pass(a.password.value)) else q;
            var q2 := LegacyCommands.Send(q1, LegacyCommands.Nick(a.nickname.value));
            LegacyCommands.Send(q2, LegacyCommands.User(a.username.value, srv, srv, a.realname.value))
              == q + Client.Handshake(a)
  {
    var srv := a.server.value;
    var q1 := if a.password.Some? then LegacyCommands.Send(q, LegacyCommands.Pass(a.password.value)) else q;
    if a.password.Some? {
      SendAppends(q, LegacyCommands.Pass(a.password.value));
    }
    SendAppends(q1, LegacyCommands.Nick(a.nickname.value));
    var q2 := q1 + ["NICK " + a.nickname.value];
    SendAppends(q2, LegacyCommands.User(a.username.value, srv, srv, a.realname.value));
    Client.UserLine(a.username.value, srv, a.realname.value);
  }

  lemma SendAppends(q: seq<string>, c: LegacyCommands.LegacyCommand)
    ensures LegacyCommands.Send(q, c) == q + [LegacyCommands.Line(c)]
  {
    var r := LegacyCommands.Send(q, c);
    assert r == r[..|q|] + [Last(r)];
  }

  /** `dead=` (lines 115-121): only `true` has an effect, and it drops the
      socket. */
  function SetDead(c: LegacyClient, b: bool): (r: LegacyClient)
    ensures b ==> r.dead && !r.socket
    ensures b ==> r.recvq == c.recvq && r.sendq == c.sendq && r.queue == c.queue && r.attrs == c.attrs
    ensures !b ==> r == c
  {
    if b then c.(dead := true, socket := false) else c
  }

  /** What `readpartial` hands `read` once `Errno::EAGAIN` has been retried
      away: text, end of file, or any other error. */
  datatype ReadOutcome = Data(text: string) | Eof | Failed(error: string)

  /** `read` (lines 128-159).  Only `EOFError` is rescued, and it posts
      `:dead`; any other error escapes the `:read_ready` handler and ends
      the thread with nothing posted.  Text, even none, is framed. */
  function Read(c: LegacyClient, got: ReadOutcome): (r: Result<LegacyClient>)
    ensures r.Raised? <==> got.Failed?
    ensures r.Raised? ==> r.error == got.error
    ensures r.Ok? ==> r.value.sendq == c.sendq && r.value.attrs == c.attrs
                      && r.value.dead == c.dead && r.value.socket == c.socket
    ensures r.Ok? && Framed(c.recvq) ==> Framed(r.value.recvq)
    ensures r.Ok? ==> c.queue <= r.value.queue && |r.value.queue| <= |c.queue| + 1
    ensures got.Eof? ==> r.Ok? && r.value.recvq == c.recvq && Queued(r.value.queue, Client.DeadName)
    ensures got.Data? ==> r.Ok? && r.value.recvq == ReadLines(c.recvq, got.text)
    ensures got.Data? ==>
              (Queued(r.value.queue, Client.RecvqReadyName) <==> Ready(r.value.recvq) || Queued(c.queue, Client.RecvqReadyName))
  {
    match got
    case Failed(e) => Raised(e)
    case Eof => Ok(c.(queue := Post(c.queue, Client.DeadName, NoArgs)))
    case Data(d) =>
      var q := ReadLines(c.recvq, d);
      assert Framed(c.recvq) ==> Framed(q) by {
        if Framed(c.recvq) {
          ReadLinesFramed(c.recvq, d);
        }
      }
      var c1 := c.(recvq := q);
      Ok(if Ready(q) then c1.(queue := Post(c.queue, Client.RecvqReadyName, NoArgs)) else c1)
  }

  /** The event the legacy `parse` posts for one entry: the downcased
      command with the groups as they matched. */
  function LineEvent(entry: string): (r: Result<Event<LegacyArg>>)
    requires OneLine(entry)
    ensures r.Raised? <==> MatchLine(Chomp(entry)).None?
    ensures r.Ok? ==> var g := MatchLine(Chomp(entry)).value;
                      r.value == Event(Downcase(g.command), Fields(g.origin, g.target, g.text))
  {
    match LegacyParseLine(entry)
    case Raised(e) => Raised(e)
    case Ok(g) => Ok(Event(Downcase(g.command), Fields(g.origin, g.target, g.text)))
  }

  function LineEvents(lines: seq<string>): (r: Result<seq<Event<LegacyArg>>>)
    requires forall i :: 0 <= i < |lines| ==> OneLine(lines[i])
    ensures r.Raised? <==> exists i :: 0 <= i < |lines| && LineEvent(lines[i]).Raised?
    ensures r.Ok? ==> |r.value| == |lines| && forall i :: 0 <= i < |lines| ==> LineEvent(lines[i]) == Ok(r.value[i])
  {
    Collect(LineResults(lines))
  }

  function LineResults(lines: seq<string>): (rs: seq<Result<Event<LegacyArg>>>)
    requires forall i :: 0 <= i < |lines| ==> OneLine(lines[i])
    ensures |rs| == |lines| && forall i :: 0 <= i < |lines| ==> rs[i] == LineEvent(lines[i])
  {
    seq(|lines|, i requires 0 <= i < |lines| => LineEvent(lines[i]))
  }

  /** The event queue once every entry of a framed receive queue has
      posted its event, in order. */
  function PostEntries(queue: seq<Event<LegacyArg>>, recvq: seq<string>): (r: Result<seq<Event<LegacyArg>>>)
    requires Framed(recvq)
    ensures r.Raised? <==> exists i :: 0 <= i < |recvq| && LineEvent(recvq[i]).Raised?
    ensures r.Ok? ==> queue <= r.value && |r.value| <= |queue| + |recvq|
    ensures r.Ok? ==> forall i :: 0 <= i < |recvq| ==> Queued(r.value, LineEvent(recvq[i]).value.name)
    ensures r.Ok? && UniqueNames(queue) ==> UniqueNames(r.value)
  {
    FramedOneLine(recvq);
    match LineEvents(recvq)
    case Raised(e) => Raised(e)
    case Ok(evs) =>
      assert forall i :: 0 <= i < |recvq| ==> LineEvent(recvq[i]).value == evs[i];
      Ok(PostAll(queue, evs))
  }

  /** `parse` (lines 211-228): entries are shifted off in order and each
      posts its event; a line the grammar rejects raises. */
  function Parse(c: LegacyClient): (r: Result<LegacyClient>)
    requires Framed(c.recvq)
    ensures r.Raised? <==> exists i :: 0 <= i < |c.recvq| && LineEvent(c.recvq[i]).Raised?
    ensures r.Ok? ==> r.value.recvq == [] && r.value.sendq == c.sendq && r.value.attrs == c.attrs
    ensures r.Ok? ==> r.value.dead == c.dead && r.value.socket == c.socket
    ensures r.Ok? ==> c.queue <= r.value.queue && |r.value.queue| <= |c.queue| + |c.recvq|
    ensures r.Ok? ==> forall i :: 0 <= i < |c.recvq| ==> Queued(r.value.queue, LineEvent(c.recvq[i]).value.name)
    ensures r.Ok? && UniqueNames(c.queue) ==> UniqueNames(r.value.queue)
  {
    FramedOneLine(c.recvq);
    match PostEntries(c.queue, c.recvq)
    case Raised(e) => Raised(e)
    case Ok(q) => Ok(c.(queue := q, recvq := []))
  }

  /** Both parsers name a line's event after its command, differing only in
      case: the rhuidean copy upper-cases it, this one lower-cases it. */
  lemma SameEventNames(entry: string)
    requires OneLine(entry) && Client.LineEvent(entry).Ok?
    ensures LineEvent(entry).Ok?
    ensures LineEvent(entry).value.name == Downcase(Client.LineEvent(entry).value.name)
  {
  }

  /** Unlike the rhuidean copy, a server line can post the client's own
      events: `EXIT` reaches the `:exit` handler, which ends the thread. */
  lemma ServerPostsExit(text: string)
    requires NoNewline(text)
    ensures OneLine("EXIT :" + text + "\r\n") && LineEvent("EXIT :" + text + "\r\n").Ok?
    ensures LineEvent("EXIT :" + text + "\r\n").value.name == ExitName
  {
    InternalWords();
    var line := "EXIT :" + text + "\r\n";
    assert line == "EXIT" + " :" + text + "\r\n";
    PostsUnder("EXIT", text);
  }

  /** Likewise `DEAD` reaches the `:dead` handler, which drops the socket. */
  lemma ServerPostsDead(text: string)
    requires NoNewline(text)
    ensures OneLine("DEAD :" + text + "\r\n") && LineEvent("DEAD :" + text + "\r\n").Ok?
    ensures LineEvent("DEAD :" + text + "\r\n").value.name == Client.DeadName
  {
    InternalWords();
    var line := "DEAD :" + text + "\r\n";
    assert line == "DEAD" + " :" + text + "\r\n";
    PostsUnder("DEAD", text);
  }

  lemma PostsUnder(c: string, text: string)
    requires Word(c) && NoNewline(text)
    ensures OneLine(c + " :" + text + "\r\n") && LineEvent(c + " :" + text + "\r\n").Ok?
    ensures LineEvent(c + " :" + text + "\r\n").value.name == Downcase(c)
  {
    Untargeted(c, text);
  }

  lemma InternalWords()
    ensures Word("EXIT") && Word("DEAD")
    ensures Downcase("EXIT") == ExitName && Downcase("DEAD") == Client.DeadName
  {
    Client.LowerOf("EXIT", "exit");
    Client.LowerOf("DEAD", "dead");
  }

  lemma Untargeted(c: string, text: string)
    requires Word(c) && NoNewline(text)
    ensures OneLine(c + " :" + text + "\r\n")
    ensures MatchLine(Chomp(c + " :" + text + "\r\n")) == Some(Groups(None, c, None, text))
  {
    var g := Groups(None, c, None, text);
    MatchCompose(g);
    ChompCrlf(Compose(g));
    assert Compose(g) == c + " :" + text;
  }

  /** The `:ping` handler (line 78) answers with the free text. */
  function PingReply(args: LegacyArg): (r: LegacyCommands.LegacyCommand)
    requires args.Fields?
    ensures LegacyCommands.Line(r) == "PONG :" + args.text
  {
    LegacyCommands.Raw("PONG :" + args.text)
  }

  /** On a `PING :token` both clients send the same `PONG :token`; the
      legacy copy answers from the free text, rhuidean from the target its
      swap put the free text into. */
  lemma PongSameAsRhuidean(origin: Option<string>, token: string)
    requires origin.Some? ==> |origin.value| > 0 && NoSpace(origin.value)
    requires NoNewline(token)
    ensures var ping := Compose(Groups(origin, "PING", None, token)) + "\r\n";
            OneLine(ping) && LineEvent(ping).Ok? && LineEvent(ping).value.args.Fields?
            && Client.LineEvent(ping).Ok? && Client.LineEvent(ping).value.args.Msg?
            && LegacyCommands.Line(PingReply(LineEvent(ping).value.args))
               == Commands.Line(Client.PingReply(Client.LineEvent(ping).value.args.m), None)
  {
    assert Word("PING");
    var g := Groups(origin, "PING", None, token);
    MatchCompose(g);
    ChompCrlf(Compose(g));
    Client.PingParses(origin, token);
  }

  /** A PING that names a target is answered differently: the legacy copy
      echoes the free text, rhuidean echoes the target (its `m.target`). */
  lemma TargetedPongsDiffer(origin: Option<string>, t: string, ps: seq<string>)
    requires origin.Some? ==> |origin.value| > 0 && NoSpace(origin.value)
    requires TargetToken(t) && ps != ["\U{1}"]
    requires forall i :: 0 <= i < |ps| ==> |ps[i]| > 0 && NoSpace(ps[i])
    ensures var ping := Compose(Groups(origin, "PING", Some(t), Join(ps, " "))) + "\r\n";
            OneLine(ping) && LineEvent(ping).Ok? && LineEvent(ping).value.args.Fields?
            && Client.LineEvent(ping).Ok? && Client.LineEvent(ping).value.args.Msg?
            && LegacyCommands.Line(PingReply(LineEvent(ping).value.args)) == "PONG :" + Join(ps, " ")
            && Commands.Line(Client.PingReply(Client.LineEvent(ping).value.args.m), None) == "PONG :" + t
  {
    assert Word("PING");
    JoinNoNewline(ps);
    var g := Groups(origin, "PING", Some(t), Join(ps, " "));
    MatchCompose(g);
    ChompCrlf(Compose(g));
    ParseWithTarget(origin, "PING", t, ps);
  }
}
