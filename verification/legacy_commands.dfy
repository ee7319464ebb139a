/**
 * The formatters of the older lib/irc/methods.rb: eight of them, each
 * appending one line to the send queue.  Six build the same line as their
 * rhuidean namesakes; `join` takes no key and `part` no message.
 */
module LegacyCommands {
  import opened Text
  import opened Parser
  import Commands

  datatype LegacyCommand =
    | Raw(message: string)
    | Nick(nick: string)
    | User(username: string, server: string, host: string, realname: string)
    | Pass(password: string)
    | Privmsg(to: string, message: string)
    | Notice(to: string, message: string)
    | Join(channel: string)
    | Part(channel: string)

  function Line(c: LegacyCommand): string {
    match c
    case Raw(m) => m
    case Nick(n) => "NICK " + n
    case User(u, s, h, r) => "USER " + u + " " + (s + " " + h + " :" + r)
    case Pass(p) => "PASS " + p
    case Privmsg(t, m) => "PRIVMSG " + t + " :" + m
    case Notice(t, m) => "NOTICE " + t + " :" + m
    case Join(ch) => "JOIN " + ch
    case Part(ch) => "PART " + ch
  }

  /** Every legacy formatter appends its line at the tail and changes
      nothing else; none of them can fail. */
  function Send(sendq: seq<string>, c: LegacyCommand): (r: seq<string>)
    ensures |r| == |sendq| + 1 && r[..|sendq|] == sendq && Last(r) == Line(c)
  {
    var r := sendq + [Line(c)];
    assert r[..|sendq|] == sendq;
    r
  }

  /** The rhuidean formatter of the same name. */
  function Counterpart(c: LegacyCommand): Commands.Command {
    match c
    case Raw(m) => Commands.Raw(m)
    case Nick(n) => Commands.Nick(n)
    case User(u, s, h, r) => Commands.User(u, s, h, r)
    case Pass(p) => Commands.Pass(p)
    case Privmsg(t, m) => Commands.Privmsg(t, m)
    case Notice(t, m) => Commands.Notice(t, m)
    case Join(ch) => Commands.Join(ch, "")
    case Part(ch) => Commands.Part(ch, "")
  }

  /** The six shared formatters build the rhuidean line exactly; `join`
      and `part` differ from the rhuidean defaults only by the trailing
      `" "` and `" :"` those add. */
  lemma SameLinesAsRhuidean(c: LegacyCommand, nickname: Option<string>)
    ensures !c.Join? && !c.Part? ==> Line(c) == Commands.Line(Counterpart(c), nickname)
    ensures c.Join? ==> Line(c) + " " == Commands.Line(Counterpart(c), nickname)
    ensures c.Part? ==> Line(c) + " :" == Commands.Line(Counterpart(c), nickname)
  {
    match c {
      case Join(ch) => assert "JOIN " + ch + " " + "" == "JOIN " + ch + " ";
      case Part(ch) => assert "PART " + ch + " :" + "" == "PART " + ch + " :";
      case _ =>
    }
  }

  /** With no key after it, the channel of a legacy `JOIN` is not followed
      by whitespace, so the message grammar reads it as free text, not as
      the target. */
  lemma BareJoinParses(ch: string)
    requires TargetToken(ch)
    ensures NoNewline(Line(Join(ch)))
    ensures MatchLine(Line(Join(ch))) == Some(Groups(None, "JOIN", None, ch))
  {
    assert "JOIN" + " " == "JOIN ";
    Commands.BareParses("JOIN", ch);
  }
}
