/**
 * `IRC::Message` of the rhuidean copy (lib/rhuidean/client.rb:439-523): the
 * parsed line, the origin split into nick, user and host by `ORIGIN_RE`, and
 * the CTCP verb taken out of the params.
 */
module Messages {
  import opened Text
  import opened Parser

  /** The three groups of `ORIGIN_RE = /^(.+)\!(.+)\@(.+)$/`. */
  datatype Origin = Origin(nick: string, user: string, host: string)

  /** A message as handlers see it.  `source` holds `origin_nick`,
      `origin_user` and `origin_host`, which are set together or not at all. */
  datatype Message = Message(raw: string, origin: Option<string>, target: string,
                             params: Option<seq<string>>, ctcp: Option<string>, source: Option<Origin>)

  /** The largest `j` in `[lo, hi)` with `o[j] == '@'`. */
  function LastAt(o: string, lo: nat, hi: nat): (r: Option<nat>)
    requires hi <= |o|
    ensures r.Some? ==> lo <= r.value < hi && o[r.value] == '@'
    ensures r.Some? ==> forall k :: r.value < k < hi ==> o[k] != '@'
    ensures r.None? ==> forall k :: lo <= k < hi ==> o[k] != '@'
    decreases hi
  {
    if hi <= lo then None
    else if o[hi - 1] == '@' then Some(hi - 1)
    else LastAt(o, lo, hi - 1)
  }

  /** A `!` at `b` that some later `@` can pair with, leaving all three
      groups nonempty. */
  predicate Pairable(o: string, b: nat)
    requires 0 < |o|
  {
    1 <= b < |o| && o[b] == '!' && LastAt(o, b + 2, |o| - 1).Some?
  }

  /** The greedy first group: the last pairable `!` at or before `i`. */
  function LastBang(o: string, i: nat): (r: Option<nat>)
    requires i < |o|
    ensures r.Some? ==> r.value <= i && Pairable(o, r.value)
    ensures r.Some? ==> forall b :: r.value < b <= i ==> !Pairable(o, b)
    ensures r.None? ==> forall b :: 0 <= b <= i ==> !Pairable(o, b)
    decreases i
  {
    if i == 0 then None
    else if Pairable(o, i) then Some(i)
    else LastBang(o, i - 1)
  }

  /** `ORIGIN_RE.match(origin)`.  Both `(.+)` groups before a literal are
      greedy, so the split takes the last `!` that still leaves a `@` with
      text on both sides, then the last such `@`. */
  function SplitOrigin(o: string): (r: Option<Origin>)
    ensures r.Some? ==> o == r.value.nick + "!" + r.value.user + "@" + r.value.host
    ensures r.Some? ==> |r.value.nick| > 0 && |r.value.user| > 0 && |r.value.host| > 0
    ensures r.None? ==> forall i, j :: 1 <= i && i + 2 <= j < |o| - 1 && o[i] == '!' ==> o[j] != '@'
  {
    if |o| == 0 then None
    else match LastBang(o, |o| - 1)
      case None =>
        assert forall i, j :: 1 <= i && i + 2 <= j < |o| - 1 && o[i] == '!' ==> o[j] != '@' by {
          forall i, j | 1 <= i && i + 2 <= j < |o| - 1 && o[i] == '!' ensures o[j] != '@' {
            assert !Pairable(o, i);
          }
        }
        None
      case Some(i) =>
        var j := LastAt(o, i + 2, |o| - 1).value;
        var r := Origin(o[..i], o[i + 1..j], o[j + 1..]);
        assert o == o[..i] + "!" + o[i + 1..j] + "@" + o[j + 1..];
        Some(r)
  }

  /** `SplitOrigin` returns the greedy split: no later `!` could start the
      user part, and the host holds no `@` that could end it. */
  lemma SplitOriginGreedy(o: string)
    requires SplitOrigin(o).Some?
    ensures var r := SplitOrigin(o).value;
            var i := |r.nick|;
            var j := |r.nick| + 1 + |r.user|;
            (forall b, k :: i < b && b + 2 <= k < |o| - 1 && o[b] == '!' ==> o[k] != '@')
            && (forall k :: j < k < |o| - 1 ==> o[k] != '@')
  {
    var i := LastBang(o, |o| - 1).value;
    forall b, k | i < b && b + 2 <= k < |o| - 1 && o[b] == '!' ensures o[k] != '@' {
      assert !Pairable(o, b);
    }
  }

  /** A plain `nick!user@host` splits back into its parts; the nick may hold
      any character, the user may not hold `!`, the host neither `!` nor `@`. */
  lemma SplitOriginJoin(n: string, u: string, h: string)
    requires |n| > 0 && |u| > 0 && |h| > 0
    requires '!' !in u && '!' !in h && '@' !in h
    ensures SplitOrigin(n + "!" + u + "@" + h) == Some(Origin(n, u, h))
  {
    var o := n + "!" + u + "@" + h;
    var i := |n|;
    var j := |n| + 1 + |u|;
    OriginLayout(n, u, h);
    assert SplitOrigin(o).Some?;
    var r := SplitOrigin(o).value;
    SplitOriginGreedy(o);
    var i' := |r.nick|;
    var j' := i' + 1 + |r.user|;
    assert o[i'] == '!' && o[j'] == '@';
    assert i' == i;
    assert j' == j;
    assert r.nick == o[..i] && r.user == o[i + 1..j] && r.host == o[j + 1..];
  }

  /** Where the separators of `n!u@h` sit, and that no `!` follows the
      first one and no `@` the second. */
  lemma OriginLayout(n: string, u: string, h: string)
    requires |n| > 0 && |u| > 0 && |h| > 0
    requires '!' !in u && '!' !in h && '@' !in h
    ensures var o := n + "!" + u + "@" + h;
            var i, j := |n|, |n| + 1 + |u|;
            o[i] == '!' && o[j] == '@' && i + 2 <= j < |o| - 1
            && (forall k :: i < k < |o| ==> o[k] != '!')
            && (forall k :: j < k < |o| ==> o[k] != '@')
            && o[..i] == n && o[i + 1..j] == u && o[j + 1..] == h
  {
    var o := n + "!" + u + "@" + h;
    var i, j := |n|, |n| + 1 + |u|;
    forall k | i < k < |o| ensures o[k] != '!' {
      if k < j {
        assert o[k] == u[k - i - 1];
      } else if k > j {
        assert o[k] == h[k - j - 1];
      }
    }
    forall k | j < k < |o| ensures o[k] != '@' {
      assert o[k] == h[k - j - 1];
    }
    assert o[..i] == n && o[i + 1..j] == u && o[j + 1..] == h;
  }

  // ---------------------------------------------------------------------
  // CTCP

  /** Lines 478-481: when the first param starts with `\x01`, the last param
      is chopped in place (the same string as the first when there is only
      one), and the first param without its `\x01`, downcased, becomes the
      CTCP verb.  `"\x01".chop[1..-1]` is nil, and `nil.downcase` raises. */
  function ExtractCtcp(params: Option<seq<string>>): (r: Result<(Option<seq<string>>, Option<string>)>)
    ensures r.Raised? <==> params == Some(["\U{1}"])
    ensures r.Ok? && r.value.1.None? ==> r.value.0 == params
    ensures r.Ok? && r.value.1.Some? ==> params.Some? && r.value.0.Some? && |r.value.0.value| == |params.value| - 1
  {
    match params
    case None => Ok((None, None))
    case Some(ps) =>
      if |ps| > 0 && |ps[0]| > 0 && ps[0][0] == '\U{1}' then
        var chopped := ps[..|ps| - 1] + [Chop(Last(ps))];
        var first := chopped[0];
        if |first| == 0 then
          assert |ps| == 1;
          assert |ps[0]| == 1;
          assert ps[0] == "\U{1}";
          assert ps == [ps[0]];
          Raised("undefined method `downcase' for nil:NilClass")
        else
          Ok((Some(chopped[1..]), Some(Downcase(first[1..]))))
      else
        assert params != Some(["\U{1}"]);
        Ok((params, None))
  }

  /** How a CTCP request is laid out in params: `\x01` before the verb and
      after the last word. */
  function CtcpParams(verb: string, args: seq<string>): seq<string> {
    if |args| == 0 then ["\U{1}" + verb + "\U{1}"]
    else ["\U{1}" + verb] + args[..|args| - 1] + [Last(args) + "\U{1}"]
  }

  /** Extraction undoes the layout: the verb comes back downcased and the
      words come back unchanged. */
  lemma ExtractCtcpParams(verb: string, args: seq<string>)
    ensures ExtractCtcp(Some(CtcpParams(verb, args))) == Ok((Some(args), Some(Downcase(verb))))
  {
    var ps := CtcpParams(verb, args);
    if |args| == 0 {
      ChopTail("\U{1}" + verb);
      assert ("\U{1}" + verb)[1..] == verb;
    } else {
      ChopTail(Last(args));
      var chopped := ps[..|ps| - 1] + [Chop(Last(ps))];
      assert chopped == ["\U{1}" + verb] + args[..|args| - 1] + [Last(args)];
      assert chopped[1..] == args;
      assert ("\U{1}" + verb)[1..] == verb;
    }
  }

  lemma ChopTail(s: string)
    ensures Chop(s + "\U{1}") == s
  {
    var t := s + "\U{1}";
    assert t[|t| - 1] == '\U{1}';
    assert t[..|t| - 1] == s;
  }

  /** The example of the class comment: `PRIVMSG x :\x01PING 123\x01`. */
  lemma PingExample()
    ensures ExtractCtcp(Some(["\U{1}PING", "123\U{1}"])) == Ok((Some(["123"]), Some("ping")))
  {
    assert "\U{1}" + "PING" == "\U{1}PING" && "123" + "\U{1}" == "123\U{1}";
    assert ["123"][..0] == [];
    assert CtcpParams("PING", ["123"]) == ["\U{1}PING"] + [] + ["123\U{1}"];
    ExtractCtcpParams("PING", ["123"]);
    assert Downcase("PING") == "ping";
  }

  // ---------------------------------------------------------------------
  // Message.new and its predicates

  /** `Message.new(client, line, origin, target, params)`. */
  function NewMessage(raw: string, p: Parsed): (r: Result<Message>)
    ensures r.Ok? ==> r.value.raw == raw && r.value.origin == p.origin && r.value.target == p.target
    ensures r.Ok? ==> (r.value.source.Some? <==> p.origin.Some? && SplitOrigin(p.origin.value).Some?)
    ensures r.Ok? && p.origin.Some? ==> r.value.source == SplitOrigin(p.origin.value)
    ensures r.Ok? ==> ExtractCtcp(p.params) == Ok((r.value.params, r.value.ctcp))
    ensures r.Raised? <==> p.params == Some(["\U{1}"])
  {
    var source := match p.origin case None => None case Some(o) => SplitOrigin(o);
    match ExtractCtcp(p.params)
    case Raised(e) => Raised(e)
    case Ok((params, ctcp)) => Ok(Message(raw, p.origin, p.target, params, ctcp, source))
  }

  function OriginNick(m: Message): Option<string> {
    match m.source case None => None case Some(s) => Some(s.nick)
  }

  /** `to_channel?`: the target starts with `#`, `&` or `!`; `""[0]` is nil,
      which is none of them. */
  predicate ToChannel(m: Message) {
    |m.target| > 0 && m.target[0] in "#&!"
  }

  predicate IsCtcp(m: Message) {
    m.ctcp.Some?
  }

  predicate IsAction(m: Message) {
    m.ctcp == Some("action")
  }

  predicate IsDcc(m: Message) {
    m.ctcp == Some("dcc")
  }

  /** An ACTION is a CTCP whatever the case of the verb on the wire, and a
      message is never both an ACTION and a DCC. */
  lemma ActionFromWire(raw: string, p: Parsed, args: seq<string>)
    requires p.params == Some(CtcpParams("ACTION", args))
    ensures NewMessage(raw, p).Ok?
    ensures IsAction(NewMessage(raw, p).value) && IsCtcp(NewMessage(raw, p).value)
    ensures !IsDcc(NewMessage(raw, p).value)
  {
    ExtractCtcpParams("ACTION", args);
    assert Downcase("ACTION") == "action";
  }
}
