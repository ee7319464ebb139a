/**
 * The outgoing command formatters of lib/rhuidean/methods.rb.  Each one
 * appends one line to the send queue; `invite` writes to `@senq`, an
 * instance variable that is never assigned, so it raises instead.
 */
module Commands {
  import opened Text
  import opened Parser

  datatype Command =
    | Raw(message: string)
    | Nick(nick: string)
    | User(username: string, server: string, host: string, realname: string)
    | Pass(password: string)
    | Privmsg(to: string, message: string)
    | Notice(to: string, message: string)
    | Join(channel: string, key: string)
    | Part(channel: string, message: string)
    | Kick(channel: string, target: string, reason: string)
    | Topic(target: string, text: string)
    | Umode(mode: string)
    | Mode(target: string, mode: string)
    | Invite(target: string, channel: string)
    | Quit(message: string)

  /** The default arguments of the formatters: `join(c)` has key `''`,
      `part`, `kick`, `topic`, `mode` and `quit` default their last argument
      to `''`. */
  function JoinDefault(channel: string): Command { Join(channel, "") }
  function PartDefault(channel: string): Command { Part(channel, "") }
  function ModeDefault(target: string): Command { Mode(target, "") }
  function QuitDefault(): Command { Quit("") }

  /** `"#{x}"` of an attribute that may be nil: nil interpolates as `""`. */
  function Interpolate(x: Option<string>): string {
    match x case None => "" case Some(s) => s
  }

  /** The line a formatter builds; `nickname` is the client's `@nickname`,
      used by `umode`.  `invite` builds its line too, but never queues it. */
  function Line(c: Command, nickname: Option<string>): string {
    match c
    case Raw(m) => m
    case Nick(n) => "NICK " + n
    case User(u, s, h, r) => "USER " + u + " " + (s + " " + h + " :" + r)
    case Pass(p) => "PASS " + p
    case Privmsg(t, m) => "PRIVMSG " + t + " :" + m
    case Notice(t, m) => "NOTICE " + t + " :" + m
    case Join(ch, k) => "JOIN " + ch + " " + k
    case Part(ch, m) => "PART " + ch + " :" + m
    case Kick(ch, t, r) => "KICK " + ch + " " + (t + " :" + r)
    case Topic(t, x) => "TOPIC " + t + " :" + x
    case Umode(m) => "MODE " + Interpolate(nickname) + " " + m
    case Mode(t, m) => "MODE " + t + " " + m
    case Invite(t, ch) => "INVITE " + t + " " + ch
    case Quit(m) => "QUIT :" + m
  }

  /** Calling a formatter: one line joins the tail of the send queue and
      nothing else changes; `invite` raises on `nil << ...`. */
  function Send(sendq: seq<string>, c: Command, nickname: Option<string>): (r: Result<seq<string>>)
    ensures r.Raised? <==> c.Invite?
    ensures r.Ok? ==> |r.value| == |sendq| + 1 && r.value[..|sendq|] == sendq
    ensures r.Ok? ==> Last(r.value) == Line(c, nickname)
  {
    if c.Invite? then Raised("undefined method `<<' for nil:NilClass")
    else
      var r := sendq + [Line(c, nickname)];
      assert r[..|sendq|] == sendq;
      Ok(r)
  }

  /** Every formatter but `invite` appends exactly its own line. */
  lemma SendAppends(sendq: seq<string>, c: Command, nickname: Option<string>)
    requires !c.Invite?
    ensures Send(sendq, c, nickname) == Ok(sendq + [Line(c, nickname)])
  {
    var r := Send(sendq, c, nickname).value;
    assert r == r[..|sendq|] + [Last(r)];
  }

  /** `invite` as evidently intended, queueing on `@sendq` like every other
      formatter; on the other commands it is `Send`. */
  function SendIntended(sendq: seq<string>, c: Command, nickname: Option<string>): (r: seq<string>)
    ensures |r| == |sendq| + 1 && r[..|sendq|] == sendq && Last(r) == Line(c, nickname)
    ensures !c.Invite? ==> Send(sendq, c, nickname) == Ok(r)
  {
    var r := sendq + [Line(c, nickname)];
    assert r[..|sendq|] == sendq;
    r
  }

  /** The intended `invite` line reads back with the nick as target and the
      channel as text. */
  lemma InviteIntendedParses(sendq: seq<string>, t: string, ch: string, nickname: Option<string>)
    requires TargetToken(t) && TargetToken(ch)
    ensures var line := Last(SendIntended(sendq, Invite(t, ch), nickname));
            NoNewline(line) && MatchLine(line) == Some(Groups(None, "INVITE", Some(t), ch))
  {
    assert "INVITE" + " " == "INVITE ";
    OptionalParses("INVITE", t, ch);
  }

  /** `v` is `sendq` followed by the lines of `cs`, in order. */
  predicate SentInOrder(sendq: seq<string>, cs: seq<Command>, v: seq<string>, nickname: Option<string>) {
    |v| == |sendq| + |cs| && v[..|sendq|] == sendq
    && forall i :: 0 <= i < |cs| ==> v[|sendq| + i] == Line(cs[i], nickname)
  }

  /** Several formatters in a row: the lines queue in call order. */
  function SendAll(sendq: seq<string>, cs: seq<Command>, nickname: Option<string>): (r: Result<seq<string>>)
    ensures r.Raised? <==> exists i :: 0 <= i < |cs| && cs[i].Invite?
    ensures r.Ok? ==> SentInOrder(sendq, cs, r.value, nickname)
    decreases |cs|
  {
    if |cs| == 0 then Ok(sendq)
    else
      InviteTail(cs);
      match Send(sendq, cs[0], nickname)
      case Raised(e) => Raised(e)
      case Ok(q1) =>
        SendAppends(sendq, cs[0], nickname);
        var r := SendAll(q1, cs[1..], nickname);
        if r.Ok? then
          SendAllStep(sendq, cs, r.value, nickname);
          r
        else
          r
  }

  /** An `invite` is in `cs` when it is the first command or in the rest. */
  lemma InviteTail(cs: seq<Command>)
    requires |cs| > 0
    ensures (exists i :: 0 <= i < |cs| && cs[i].Invite?)
            <==> cs[0].Invite? || exists i :: 0 <= i < |cs[1..]| && cs[1..][i].Invite?
  {
    if exists i :: 0 <= i < |cs[1..]| && cs[1..][i].Invite? {
      var i :| 0 <= i < |cs[1..]| && cs[1..][i].Invite?;
      assert cs[i + 1].Invite?;
    }
    if exists i :: 0 <= i < |cs| && cs[i].Invite? {
      var i :| 0 <= i < |cs| && cs[i].Invite?;
      if i > 0 {
        assert cs[1..][i - 1].Invite?;
      }
    }
  }

  lemma SendAllStep(sendq: seq<string>, cs: seq<Command>, v: seq<string>, nickname: Option<string>)
    requires |cs| > 0
    requires SentInOrder(sendq + [Line(cs[0], nickname)], cs[1..], v, nickname)
    ensures SentInOrder(sendq, cs, v, nickname)
  {
    var q1 := sendq + [Line(cs[0], nickname)];
    assert v[..|sendq|] == v[..|q1|][..|sendq|];
    forall i | 0 <= i < |cs| ensures v[|sendq| + i] == Line(cs[i], nickname) {
      if i == 0 {
        assert v[|sendq|] == v[..|q1|][|sendq|];
      } else {
        assert v[|q1| + (i - 1)] == Line(cs[1..][i - 1], nickname);
      }
    }
  }

  // ---------------------------------------------------------------------
  // Read back by the message grammar

  /** The command word of each line. */
  function Verb(c: Command): string {
    match c
    case Raw(_) => ""
    case Nick(_) => "NICK"
    case User(_, _, _, _) => "USER"
    case Pass(_) => "PASS"
    case Privmsg(_, _) => "PRIVMSG"
    case Notice(_, _) => "NOTICE"
    case Join(_, _) => "JOIN"
    case Part(_, _) => "PART"
    case Kick(_, _, _) => "KICK"
    case Topic(_, _) => "TOPIC"
    case Umode(_) => "MODE"
    case Mode(_, _) => "MODE"
    case Invite(_, _) => "INVITE"
    case Quit(_) => "QUIT"
  }

  /** Arguments a receiving peer's `IRC_RE` can take back unchanged. */
  predicate Readable(c: Command) {
    match c
    case Raw(_) => false
    case Invite(_, _) => false
    case Umode(_) => false
    case Nick(n) => TargetToken(n)
    case Pass(p) => TargetToken(p)
    case User(u, s, h, r) => TargetToken(u) && TargetToken(s) && TargetToken(h) && NoNewline(r)
    case Privmsg(t, m) => TargetToken(t) && NoNewline(m)
    case Notice(t, m) => TargetToken(t) && NoNewline(m)
    case Join(ch, k) => TargetToken(ch) && (k == "" || TargetToken(k))
    case Part(ch, m) => TargetToken(ch) && NoNewline(m)
    case Kick(ch, t, r) => TargetToken(ch) && TargetToken(t) && NoNewline(r)
    case Topic(t, x) => TargetToken(t) && NoNewline(x)
    case Mode(t, m) => TargetToken(t) && (m == "" || TargetToken(m))
    case Quit(m) => NoNewline(m)
  }

  /** How the grammar of `IRC_RE` reads each line: the first argument is
      the target, everything after it is the free text. */
  function Reading(c: Command): Groups {
    match c
    case Nick(n) => Groups(None, "NICK", None, n)
    case Pass(p) => Groups(None, "PASS", None, p)
    case User(u, s, h, r) => Groups(None, "USER", Some(u), s + " " + h + " :" + r)
    case Privmsg(t, m) => Groups(None, "PRIVMSG", Some(t), m)
    case Notice(t, m) => Groups(None, "NOTICE", Some(t), m)
    case Join(ch, k) => Groups(None, "JOIN", Some(ch), k)
    case Part(ch, m) => Groups(None, "PART", Some(ch), m)
    case Kick(ch, t, r) => Groups(None, "KICK", Some(ch), t + " :" + r)
    case Topic(t, x) => Groups(None, "TOPIC", Some(t), x)
    case Mode(t, m) => Groups(None, "MODE", Some(t), m)
    case Quit(m) => Groups(None, "QUIT", None, m)
    case _ => Groups(None, Verb(c), None, "")
  }

  /** Every readable formatted line matches the message grammar, with the
      formatter's command word and arguments in the expected groups. */
  lemma LineParses(c: Command, nickname: Option<string>)
    requires Readable(c)
    ensures NoNewline(Line(c, nickname))
    ensures MatchLine(Line(c, nickname)) == Some(Reading(c))
  {
    if c.Nick? || c.Pass? {
      BareLineParses(c, nickname);
    } else if c.Privmsg? || c.Notice? || c.Part? || c.Topic? {
      TrailingLineParses(c, nickname);
    } else if c.Join? {
      assert "JOIN" + " " == "JOIN ";
      OptionalParses("JOIN", c.channel, c.key);
    } else if c.Mode? {
      assert "MODE" + " " == "MODE ";
      OptionalParses("MODE", c.target, c.mode);
    } else if c.User? {
      UserParses(c.username, c.server, c.host, c.realname);
    } else if c.Kick? {
      KickParses(c.channel, c.target, c.reason);
    } else {
      assert c.Quit?;
      assert Word("QUIT");
      TailMatchesUntargeted(None, "QUIT", c.message);
      assert "QUIT" + " :" + c.message == "QUIT :" + c.message;
    }
  }

  /** `nick` and `pass`: the argument is read as free text. */
  lemma BareLineParses(c: Command, nickname: Option<string>)
    requires Readable(c) && (c.Nick? || c.Pass?)
    ensures NoNewline(Line(c, nickname))
    ensures MatchLine(Line(c, nickname)) == Some(Reading(c))
  {
    match c {
      case Nick(n) =>
        assert "NICK" + " " == "NICK ";
        BareParses("NICK", n);
      case Pass(p) =>
        assert "PASS" + " " == "PASS ";
        BareParses("PASS", p);
    }
  }

  /** `privmsg`, `notice`, `part` and `topic`: a target, then ` :` and text. */
  lemma TrailingLineParses(c: Command, nickname: Option<string>)
    requires Readable(c) && (c.Privmsg? || c.Notice? || c.Part? || c.Topic?)
    ensures NoNewline(Line(c, nickname))
    ensures MatchLine(Line(c, nickname)) == Some(Reading(c))
  {
    match c {
      case Privmsg(t, m) =>
        assert "PRIVMSG" + " " == "PRIVMSG ";
        TrailingParses("PRIVMSG", t, m);
      case Notice(t, m) =>
        assert "NOTICE" + " " == "NOTICE ";
        TrailingParses("NOTICE", t, m);
      case Part(ch, m) =>
        assert "PART" + " " == "PART ";
        TrailingParses("PART", ch, m);
      case Topic(t, x) =>
        assert "TOPIC" + " " == "TOPIC ";
        TrailingParses("TOPIC", t, x);
    }
  }

  lemma UserParses(u: string, s: string, h: string, r: string)
    requires TargetToken(u) && TargetToken(s) && TargetToken(h) && NoNewline(r)
    ensures var line := "USER " + u + " " + (s + " " + h + " :" + r);
            NoNewline(line) && MatchLine(line) == Some(Groups(None, "USER", Some(u), s + " " + h + " :" + r))
  {
    var rest := s + " " + h + " :" + r;
    TokenText(s);
    TokenText(h);
    NoNewlineConcat(s + " ", h);
    NoNewlineConcat(s + " " + h + " :", r);
    assert rest[0] == s[0];
    assert Word("USER") && "USER" + " " == "USER ";
    PairParses("USER", u, rest);
  }

  lemma KickParses(ch: string, t: string, r: string)
    requires TargetToken(ch) && TargetToken(t) && NoNewline(r)
    ensures var line := "KICK " + ch + " " + (t + " :" + r);
            NoNewline(line) && MatchLine(line) == Some(Groups(None, "KICK", Some(ch), t + " :" + r))
  {
    var rest := t + " :" + r;
    TokenText(t);
    NoNewlineConcat(t + " :", r);
    assert rest[0] == t[0];
    assert Word("KICK") && "KICK" + " " == "KICK ";
    PairParses("KICK", ch, rest);
  }

  /** `join`, `mode` and `invite`, whose second argument is a bare word
      (which `join` and `mode` may leave empty). */
  lemma OptionalParses(v: string, t: string, k: string)
    requires v == "JOIN" || v == "MODE" || v == "INVITE"
    requires TargetToken(t) && (k == "" || TargetToken(k))
    ensures var line := v + " " + t + " " + k;
            NoNewline(line) && MatchLine(line) == Some(Groups(None, v, Some(t), k))
  {
    if k != "" {
      TokenText(k);
    }
    assert Word(v);
    PairParses(v, t, k);
  }

  lemma TokenText(t: string)
    requires TargetToken(t)
    ensures NoNewline(t) && t[0] != ':'
  {
    assert forall i :: 0 <= i < |t| ==> TargetChar(t[i]);
  }

  lemma WordText(w: string)
    requires Word(w)
    ensures NoNewline(w) && w[0] != ':'
  {
    assert forall i :: 0 <= i < |w| ==> IsWord(w[i]);
  }

  /** `V t :text`: target `t`, free text `text`. */
  lemma TrailingParses(v: string, t: string, text: string)
    requires Word(v) && TargetToken(t) && NoNewline(text)
    ensures NoNewline(v + " " + t + " :" + text)
    ensures MatchLine(v + " " + t + " :" + text) == Some(Groups(None, v, Some(t), text))
  {
    TailMatchesTargeted(None, v, t, text);
    assert (v + " " + t + " :" + text)[0] == v[0];
  }

  /** `V x`: no target, since the run is not followed by whitespace, and the
      whole argument is the free text. */
  lemma BareParses(v: string, x: string)
    requires Word(v) && TargetToken(x)
    ensures NoNewline(v + " " + x)
    ensures MatchLine(v + " " + x) == Some(Groups(None, v, None, x))
  {
    var s := v + " " + x;
    WordText(v);
    TokenText(x);
    NoNewlineConcat(v + " ", x);
    assert s[0] == v[0];
    PlainLine(s);
    CommandThen(None, v, x);
    assert x + "" == x;
    TargetLengthOf(x, "");
  }

  /** `V t rest`: target `t`, and `rest` is the free text when it does not
      start with a colon. */
  lemma PairParses(v: string, t: string, rest: string)
    requires Word(v) && TargetToken(t) && NoNewline(rest)
    requires |rest| == 0 || rest[0] != ':'
    ensures NoNewline(v + " " + t + " " + rest)
    ensures MatchLine(v + " " + t + " " + rest) == Some(Groups(None, v, Some(t), rest))
  {
    var tail := t + " " + rest;
    var s := v + " " + t + " " + rest;
    PairNoNewline(v, t, rest);
    assert s == v + " " + tail;
    assert s[0] == v[0];
    PlainLine(s);
    CommandThen(None, v, tail);
    PairTarget(t, rest);
  }

  lemma PairTarget(t: string, rest: string)
    requires TargetToken(t) && (|rest| == 0 || rest[0] != ':')
    ensures var tail := t + " " + rest;
            TargetLength(tail) == |t| && tail[|t|] == ' ' && tail[..|t|] == t && StripColon(tail[|t| + 1..]) == rest
  {
    var tail := t + " " + rest;
    assert tail == t + (" " + rest);
    TargetLengthOf(t, " " + rest);
    assert tail[|t| + 1..] == rest;
  }

  lemma PairNoNewline(v: string, t: string, rest: string)
    requires Word(v) && TargetToken(t) && NoNewline(rest)
    ensures NoNewline(v + " " + t + " " + rest)
  {
    WordText(v);
    TokenText(t);
    NoNewlineConcat(v + " ", t);
    NoNewlineConcat(v + " " + t + " ", rest);
  }
}
