/**
 * `StatefulChannel` (lib/rhuidean/stateful_channel.rb): a channel's key,
 * limit, mode flags and member list, and `parse_modes`, which reads a mode
 * string against the channel's built-in tables and posts one `mode_<flag>`
 * event per letter.
 */
module Channels {
  import opened Text

  /** Users live in the stateful client's arena; a channel lists their ids,
      so a renamed user is renamed everywhere at once. */
  type UserId = nat

  /** `mode` in `parse_modes`: nil until the first `+` or `-`. */
  datatype Sign = NoSign | Add | Del

  /** The symbols of `STATUS_MODES`, `PARAM_MODES` and `BOOL_MODES`. */
  datatype ModeFlag =
    | Ban | Except | Invex | Oper | Voice
    | Limited | Keyed
    | InviteOnly | Moderated | NoExternal | Private | Secret | TopicLock

  /** `@limit`: `0` until an `l` is read, then `0` again on `-l` or the
      parameter of `+l`, nil when none was left. */
  datatype Limit = NoLimit | LimitParam(param: Option<string>)

  /** Where `@eventq.post` goes.  `do_join` passes the client itself, which
      has no `post`; the comment at lines 17-21 intends the client's queue. */
  datatype Sink = ClientSink | QueueSink

  datatype Channel = Channel(name: string, key: Option<string>, limit: Limit, modes: seq<ModeFlag>,
                             members: seq<UserId>, sink: Sink)

  /** `StatefulChannel.new(name, eventq)` (lines 23-41). */
  function NewChannel(name: string, sink: Sink): (ch: Channel)
    ensures ch.name == name && ch.sink == sink
    ensures ch.key.None? && ch.limit == NoLimit && ch.modes == [] && ch.members == []
  {
    Channel(name, None, NoLimit, [], [], sink)
  }

  // ---------------------------------------------------------------------
  // Members

  /** `add_user` (lines 47-49): appended, even when already there. */
  function AddUser(ch: Channel, u: UserId): (r: Channel)
    ensures r.members == ch.members + [u]
    ensures r.(members := ch.members) == ch
  {
    ch.(members := ch.members + [u])
  }

  /** What `delete_user` is handed: a user, nil, or a nickname. */
  datatype UserArg = AUser(id: UserId) | NilUser | ANick(nick: string)

  /** `find_user` (lines 61-63) as written: its block names `nick`, which is
      not defined, so it raises as soon as there is a member to test and
      finds nothing when there is none. */
  function FindUser(ch: Channel): (r: Result<Option<UserId>>)
    ensures r.Raised? <==> |ch.members| > 0
    ensures r.Ok? ==> r.value.None?
  {
    if |ch.members| > 0 then Raised("undefined local variable or method `nick'") else Ok(None)
  }

  /** `delete_user` (lines 51-59): every occurrence of the user goes; nil
      changes nothing; a nickname goes through `find_user`. */
  function DeleteUser(ch: Channel, u: UserArg): (r: Result<Channel>)
    ensures u.AUser? ==> r.Ok? && r.value.members == Remove(ch.members, u.id)
                         && r.value.(members := ch.members) == ch
    ensures u.NilUser? ==> r == Ok(ch)
    ensures u.ANick? ==> (r.Raised? <==> |ch.members| > 0) && (r.Ok? ==> r.value == ch)
  {
    match u
    case AUser(id) => Ok(ch.(members := Remove(ch.members, id)))
    case NilUser => Ok(ch)
    case ANick(_) =>
      match FindUser(ch)
      case Raised(e) => Raised(e)
      case Ok(_) => Ok(ch)
  }

  /** After `delete_user`, the user is nowhere in the list and every other
      member still is. */
  lemma DeleteUserRemovesOnly(ch: Channel, u: UserId, v: UserId)
    ensures u !in DeleteUser(ch, AUser(u)).value.members
    ensures v != u ==> (v in DeleteUser(ch, AUser(u)).value.members <==> v in ch.members)
  {
    var r := DeleteUser(ch, AUser(u)).value.members;
    if v != u && v in ch.members {
      var i :| 0 <= i < |ch.members| && ch.members[i] == v;
    }
  }

  // ---------------------------------------------------------------------
  // The mode tables (lines 69-83)

  function StatusMode(c: char): Option<ModeFlag> {
    if c == 'b' then Some(Ban)
    else if c == 'e' then Some(Except)
    else if c == 'I' then Some(Invex)
    else if c == 'o' then Some(Oper)
    else if c == 'v' then Some(Voice)
    else None
  }

  function ParamMode(c: char): Option<ModeFlag> {
    if c == 'l' then Some(Limited) else if c == 'k' then Some(Keyed) else None
  }

  function BoolMode(c: char): Option<ModeFlag> {
    if c == 'i' then Some(InviteOnly)
    else if c == 'm' then Some(Moderated)
    else if c == 'n' then Some(NoExternal)
    else if c == 'p' then Some(Private)
    else if c == 's' then Some(Secret)
    else if c == 't' then Some(TopicLock)
    else None
  }

  /** The flag a letter stands for, nil for a letter in no table. */
  function FlagOf(c: char): Option<ModeFlag> {
    if StatusMode(c).Some? then StatusMode(c)
    else if ParamMode(c).Some? then ParamMode(c)
    else BoolMode(c)
  }

  /** `flag.to_s`. */
  function FlagName(f: ModeFlag): string {
    match f
    case Ban => "ban"
    case Except => "except"
    case Invex => "invex"
    case Oper => "oper"
    case Voice => "voice"
    case Limited => "limited"
    case Keyed => "keyed"
    case InviteOnly => "invite_only"
    case Moderated => "moderated"
    case NoExternal => "no_external"
    case Private => "private"
    case Secret => "secret"
    case TopicLock => "topic_lock"
  }

  /** `"mode_#{flag.to_s}"`: nil interpolates as nothing. */
  function EventName(c: char): string {
    match FlagOf(c) case None => "mode_" case Some(f) => "mode_" + FlagName(f)
  }

  /** The flags a channel's own mode list can hold: the boolean and the
      parameter modes, never a status mode. */
  predicate ChannelFlag(f: ModeFlag) {
    f.Limited? || f.Keyed? || f.InviteOnly? || f.Moderated? || f.NoExternal? || f.Private? || f.Secret? || f.TopicLock?
  }

  predicate ChannelFlags(modes: seq<ModeFlag>) {
    forall i :: 0 <= i < |modes| ==> ChannelFlag(modes[i])
  }

  // ---------------------------------------------------------------------
  // parse_modes (lines 85-137)

  /** `@eventq.post(event, chan, mode, param)`, minus `chan`, which is the
      same message for every post of one call. */
  datatype ModePost = ModePost(name: string, sign: Sign, param: Option<string>)

  /** The state `parse_modes` threads through its loop: the channel, the
      current sign, the parameters not yet shifted and the posts so far. */
  datatype Scan = Scan(ch: Channel, sign: Sign, params: seq<string>, posts: seq<ModePost>)

  predicate IsSign(c: char) {
    c == '+' || c == '-'
  }

  /** Whether the letter shifts a parameter under the given sign. */
  predicate TakesParam(c: char, sign: Sign) {
    StatusMode(c).Some? || c == 'k' || (c == 'l' && sign == Add)
  }

  /** The parameter a letter posts with: the one it shifts, if it takes one. */
  function StepParam(st: Scan, c: char): Option<string> {
    if TakesParam(c, st.sign) then Shift(st.params).0 else None
  }

  /** One character of the mode string. */
  function Step(st: Scan, c: char): (r: Scan)
    ensures IsSign(c) ==> r == st.(sign := if c == '+' then Add else Del)
    ensures !IsSign(c) ==> r.sign == st.sign && r.ch.name == st.ch.name && r.ch.members == st.ch.members
                           && r.ch.sink == st.ch.sink
    ensures !IsSign(c) ==> r.posts == st.posts + [ModePost(EventName(c), st.sign, StepParam(st, c))]
    ensures !IsSign(c) ==> r.params == if TakesParam(c, st.sign) then Shift(st.params).1 else st.params
    ensures StatusMode(c).Some? || FlagOf(c).None? ==> r.ch == st.ch
    ensures ChannelFlags(st.ch.modes) ==> ChannelFlags(r.ch.modes)
  {
    if c == '+' then st.(sign := Add)
    else if c == '-' then st.(sign := Del)
    else
      var sh := Shift(st.params);
      var take := TakesParam(c, st.sign);
      var param := if take then sh.0 else None;
      var params := if take then sh.1 else st.params;
      var ch := st.ch;
      var ch1 := if c == 'k' then ch.(key := if st.sign == Add then param else None)
                 else if c == 'l' then ch.(limit := if st.sign == Add then LimitParam(param) else NoLimit)
                 else ch;
      var ch2 := if BoolMode(c).Some? || ParamMode(c).Some? then
                   var f := FlagOf(c).value;
                   RemoveKeepsFlags(ch1.modes, f);
                   ch1.(modes := if st.sign == Add then ch1.modes + [f] else Remove(ch1.modes, f))
                 else ch1;
      Scan(ch2, st.sign, params, st.posts + [ModePost(EventName(c), st.sign, param)])
  }

  /** A flag letter with `+` appends its flag to the channel's flag list;
      with `-`, or before any sign, it deletes every copy of the flag. */
  lemma StepFlags(st: Scan, c: char)
    requires !IsSign(c) && StatusMode(c).None? && FlagOf(c).Some?
    ensures st.sign == Add ==> Step(st, c).ch.modes == st.ch.modes + [FlagOf(c).value]
    ensures st.sign != Add ==> Step(st, c).ch.modes == Remove(st.ch.modes, FlagOf(c).value)
  {
  }

  /** Removing a flag keeps a list of channel flags one. */
  lemma RemoveKeepsFlags(modes: seq<ModeFlag>, f: ModeFlag)
    ensures ChannelFlags(modes) ==> ChannelFlags(Remove(modes, f))
  {
    var r := Remove(modes, f);
    if ChannelFlags(modes) {
      forall i | 0 <= i < |r| ensures ChannelFlag(r[i]) {
        assert r[i] in modes;
      }
    }
  }

  /** `modes.each_char`, left to right. */
  function Scanned(st: Scan, modes: string): (r: Scan)
    decreases |modes|
  {
    if |modes| == 0 then st else Scanned(Step(st, modes[0]), modes[1..])
  }

  /** `parse_modes(chan, modes, params)` started on a channel: no sign yet. */
  function ParseModes(ch: Channel, modes: string, params: seq<string>): Scan {
    Scanned(Scan(ch, NoSign, params, []), modes)
  }

  /** The letters of a mode string that are not `+` or `-`, in order. */
  function Letters(modes: string): (r: string)
    ensures |r| <= |modes|
    ensures forall i :: 0 <= i < |r| ==> !IsSign(r[i])
  {
    if |modes| == 0 then []
    else if IsSign(modes[0]) then Letters(modes[1..])
    else [modes[0]] + Letters(modes[1..])
  }

  /** What `Letters` keeps of `modes`: an in-order subsequence holding
      every character that is not a sign, as often as it occurs. */
  predicate LettersIn(r: string, modes: string) {
    && Subseq(r, modes)
    && multiset(r) == multiset(modes)['+' := 0]['-' := 0]
    && |r| <= |modes|
    && (forall i :: 0 <= i < |r| ==> !IsSign(r[i]))
  }

  /** Every letter of a mode string is kept, in order; only the signs go. */
  lemma {:induction false} LettersKept(modes: string)
    ensures LettersIn(Letters(modes), modes)
    decreases |modes|
  {
    if |modes| > 0 {
      LettersKept(modes[1..]);
      if IsSign(modes[0]) {
        SignDropped(modes, Letters(modes[1..]));
      } else {
        LetterKept(modes, Letters(modes[1..]));
      }
    }
  }

  lemma SignDropped(modes: string, rest: string)
    requires |modes| > 0 && IsSign(modes[0]) && LettersIn(rest, modes[1..])
    ensures LettersIn(rest, modes)
  {
    assert modes == [modes[0]] + modes[1..];
  }

  lemma LetterKept(modes: string, rest: string)
    requires |modes| > 0 && !IsSign(modes[0]) && LettersIn(rest, modes[1..])
    ensures LettersIn([modes[0]] + rest, modes)
  {
    assert modes == [modes[0]] + modes[1..];
    assert ([modes[0]] + rest)[1..] == rest;
  }

  /** How many parameters the letters of `modes` shift, starting under `sign`. */
  function Wanted(sign: Sign, modes: string): nat
    decreases |modes|
  {
    if |modes| == 0 then 0
    else if IsSign(modes[0]) then Wanted(if modes[0] == '+' then Add else Del, modes[1..])
    else (if TakesParam(modes[0], sign) then 1 else 0) + Wanted(sign, modes[1..])
  }

  /** The names of the events a list of posts carries, in order. */
  function PostNames(ps: seq<ModePost>): (r: seq<string>)
    ensures |r| == |ps| && forall i :: 0 <= i < |ps| ==> r[i] == ps[i].name
  {
    if |ps| == 0 then [] else PostNames(ps[..|ps| - 1]) + [Last(ps).name]
  }

  /** Reference: the event each letter of a mode string stands for, in order. */
  function LetterNames(modes: string): (r: seq<string>)
    ensures |r| == |Letters(modes)|
  {
    if |modes| == 0 then []
    else if IsSign(modes[0]) then LetterNames(modes[1..])
    else [EventName(modes[0])] + LetterNames(modes[1..])
  }

  /** Each letter posts exactly one event, named after its flag, in the
      order of the letters; the signs post nothing. */
  lemma {:induction false} ScannedPosts(st: Scan, modes: string)
    ensures PostNames(Scanned(st, modes).posts) == PostNames(st.posts) + LetterNames(modes)
    ensures |Scanned(st, modes).posts| == |st.posts| + |Letters(modes)|
    decreases |modes|
  {
    if |modes| > 0 {
      var s1 := Step(st, modes[0]);
      ScannedPosts(s1, modes[1..]);
      if !IsSign(modes[0]) {
        PostNamesSnoc(st.posts, ModePost(EventName(modes[0]), st.sign, StepParam(st, modes[0])));
        ConsNames(PostNames(st.posts), EventName(modes[0]), LetterNames(modes[1..]));
      }
    }
  }

  lemma PostNamesSnoc(ps: seq<ModePost>, p: ModePost)
    ensures PostNames(ps + [p]) == PostNames(ps) + [p.name]
  {
    assert (ps + [p])[..|ps|] == ps;
  }

  lemma ConsNames(a: seq<string>, x: string, b: seq<string>)
    ensures a + [x] + b == a + ([x] + b)
  {
  }

  /** The parameters are shifted from the front, one for each letter that
      takes one under the sign in force, and nil once they run out. */
  lemma {:induction false} ScannedParams(st: Scan, modes: string)
    ensures var r := Scanned(st, modes);
            var n := Wanted(st.sign, modes);
            r.params == if n <= |st.params| then st.params[n..] else []
    decreases |modes|
  {
    if |modes| > 0 {
      var s1 := Step(st, modes[0]);
      ScannedParams(s1, modes[1..]);
      if !IsSign(modes[0]) && TakesParam(modes[0], st.sign) && |st.params| > 0 {
        var n1 := Wanted(st.sign, modes[1..]);
        if n1 <= |st.params| - 1 {
          assert st.params[1..][n1..] == st.params[n1 + 1..];
        }
      }
    }
  }

  /** A mode string of status letters and signs alone leaves the channel
      as it was: the status modes belong to users, not to the channel. */
  lemma {:induction false} StatusLeavesChannel(st: Scan, modes: string)
    requires forall i :: 0 <= i < |modes| ==> IsSign(modes[i]) || StatusMode(modes[i]).Some?
    ensures Scanned(st, modes).ch == st.ch
    decreases |modes|
  {
    if |modes| > 0 {
      StatusLeavesChannel(Step(st, modes[0]), modes[1..]);
    }
  }

  /** The channel's mode list never holds a status flag. */
  lemma {:induction false} ScannedKeepsFlags(st: Scan, modes: string)
    requires ChannelFlags(st.ch.modes)
    ensures ChannelFlags(Scanned(st, modes).ch.modes)
    decreases |modes|
  {
    if |modes| > 0 {
      ScannedKeepsFlags(Step(st, modes[0]), modes[1..]);
    }
  }

  /** Reading two mode strings one after the other is reading them joined. */
  lemma {:induction false} ScannedAppend(st: Scan, a: string, b: string)
    ensures Scanned(st, a + b) == Scanned(Scanned(st, a), b)
    decreases |a|
  {
    if |a| > 0 {
      assert (a + b)[0] == a[0] && (a + b)[1..] == a[1..] + b;
      ScannedAppend(Step(st, a[0]), a[1..], b);
    } else {
      assert a + b == b;
    }
  }

  /** `+k secret` sets the key and `-k *` clears it, shifting its parameter
      either way; `+l 10` stores the parameter and `-l` takes none. */
  lemma KeyAndLimit(ch: Channel)
    ensures var r := ParseModes(ch, "+k", ["secret", "x"]);
            r.ch.key == Some("secret") && r.params == ["x"] && Keyed in r.ch.modes
    ensures var r := ParseModes(ch, "-k", ["*", "x"]);
            r.ch.key.None? && r.params == ["x"] && Keyed !in r.ch.modes
    ensures var r := ParseModes(ch, "+l", ["10"]);
            r.ch.limit == LimitParam(Some("10")) && r.params == []
    ensures var r := ParseModes(ch, "-l", ["10"]);
            r.ch.limit == NoLimit && r.params == ["10"]
  {
    assert "+k"[1..] == "k" && "-k"[1..] == "k" && "+l"[1..] == "l" && "-l"[1..] == "l";
    assert "k"[1..] == "" && "l"[1..] == "";
  }

  /** With no sign yet, a letter counts as a removal: `mode == :add` fails. */
  lemma UnsignedRemoves(ch: Channel)
    ensures TopicLock !in ParseModes(ch, "t", []).ch.modes
    ensures ParseModes(ch, "l", ["5"]).params == ["5"]
  {
    UnsignedTopic(ch);
    UnsignedLimit(ch);
  }

  lemma UnsignedTopic(ch: Channel)
    ensures TopicLock !in ParseModes(ch, "t", []).ch.modes
  {
    assert "t"[1..] == "";
    assert ParseModes(ch, "t", []) == Step(Scan(ch, NoSign, [], []), 't');
    assert FlagOf('t') == Some(TopicLock);
    StepFlags(Scan(ch, NoSign, [], []), 't');
  }

  lemma UnsignedLimit(ch: Channel)
    ensures ParseModes(ch, "l", ["5"]).params == ["5"]
  {
    assert "l"[1..] == "";
    assert ParseModes(ch, "l", ["5"]) == Step(Scan(ch, NoSign, ["5"], []), 'l');
  }

  // ---------------------------------------------------------------------
  // Delivery of the posts

  /** `parse_modes` as a whole: with the client as the sink, the first
      letter's `post` raises `NoMethodError` and the thread dies; with the
      queue as the sink every post is delivered. */
  function Deliver(ch: Channel, modes: string, params: seq<string>): (r: Result<(Channel, seq<ModePost>)>)
    ensures r.Raised? <==> ch.sink == ClientSink && |Letters(modes)| > 0
    ensures r.Ok? ==> r.value.0 == ParseModes(ch, modes, params).ch && |r.value.1| == |Letters(modes)|
    ensures r.Ok? ==> PostNames(r.value.1) == LetterNames(modes)
  {
    var sc := ParseModes(ch, modes, params);
    ScannedPosts(Scan(ch, NoSign, params, []), modes);
    if ch.sink == ClientSink && |Letters(modes)| > 0 then Raised("undefined method `post'")
    else Ok((sc.ch, sc.posts))
  }

  /** As constructed by the stateful client, a channel cannot read any mode
      letter: `MODE #c +o nick` raises. */
  lemma ClientSinkRaises(name: string)
    ensures Deliver(NewChannel(name, ClientSink), "+o", ["nick"]).Raised?
  {
    assert Letters("+o") == "o" by {
      assert "+o"[1..] == "o" && "o"[1..] == "";
    }
  }

  /** With the queue as the sink, `+o nick` posts `mode_oper` under `:add`
      with the nick as its parameter and leaves the channel's modes alone. */
  lemma QueueSinkPosts(name: string)
    ensures var r := Deliver(NewChannel(name, QueueSink), "+o", ["nick"]);
            r.Ok? && r.value.1 == [ModePost("mode_oper", Add, Some("nick"))]
            && r.value.0 == NewChannel(name, QueueSink)
  {
    var ch := NewChannel(name, QueueSink);
    assert "+o"[1..] == "o" && "o"[1..] == "";
    var s1 := Step(Scan(ch, NoSign, ["nick"], []), '+');
    assert s1 == Scan(ch, Add, ["nick"], []);
    var s2 := Step(s1, 'o');
    assert StepParam(s1, 'o') == Some("nick");
    assert EventName('o') == "mode_" + "oper" == "mode_oper";
    assert Shift(["nick"]).1 == [];
    assert s2 == Scan(ch, Add, [], [ModePost("mode_oper", Add, Some("nick"))]);
    assert ParseModes(ch, "+o", ["nick"]) == s2;
  }
}
