/**
 * `IRC::StatefulClient` of lib/rhuidean/stateful_client.rb: a client that
 * keeps registries of the channels it is on and the users it has seen, and
 * reads the server's `RPL_ISUPPORT` tokens.
 *
 * Users live in an arena indexed by `UserId`; the users registry and each
 * channel's member list hold ids, so one user object can be reached from
 * several places as in the source.  A handler that raises ends the event
 * thread: it returns `Raised` and no later handler runs.
 */
module Stateful {
  import opened Text
  import opened Events
  import opened Messages
  import opened Casemap
  import opened Isupport
  import opened Parser
  import Users
  import Channels
  import Client
  import Commands
  import Framing

  type UserId = Channels.UserId

  // ---------------------------------------------------------------------
  // The numerics the client names

  const RplWelcome: string := "001"
  const RplBounce: string := "005"
  const ErrNicknameInUse: string := "433"
  const RplChannelModeIs: string := "324"
  const RplNameReply: string := "353"

  /** The constants of `IRC::Numeric` this client refers to, by name
      (lib/rhuidean/numeric.rb:17, 21, 42, 87 and 95).  The module defines
      no `RPL_ISUPPORT`: `005` is called `RPL_BOUNCE` there. */
  function Numeric(name: string): Option<string> {
    if name == "RPL_WELCOME" then Some(RplWelcome)
    else if name == "RPL_BOUNCE" then Some(RplBounce)
    else if name == "ERR_NICKNAMEINUSE" then Some(ErrNicknameInUse)
    else if name == "RPL_CHANNELMODEIS" then Some(RplChannelModeIs)
    else if name == "RPL_NAMEREPLY" then Some(RplNameReply)
    else None
  }

  // ---------------------------------------------------------------------
  // State

  /** `sink` is what each new channel posts its mode events to. */
  datatype State = State(client: Client.Client, casemapping: Casemapping,
                         channels: IrcHash<Channels.Channel>, users: IrcHash<UserId>,
                         arena: map<UserId, Users.User>, nextId: UserId,
                         channelTypes: seq<string>, channelModes: ChanModes,
                         statusModes: StatusModes, sink: Channels.Sink)

  /** A channel as the registry keeps it: its members are known users and
      it posts where the client's channels post. */
  predicate Fits(ch: Channels.Channel, arena: map<UserId, Users.User>, sink: Channels.Sink) {
    ch.sink == sink && forall i :: 0 <= i < |ch.members| ==> ch.members[i] in arena
  }

  /** What every handler keeps: the receive queue is framed, both
      registries hold folded keys only, every id they mention is a user,
      ids are allocated in order, and no user has a channel filed, because
      nothing in the client calls `join_channel`. */
  predicate Valid(s: State) {
    Framing.Framed(s.client.recvq)
    && Normal(s.channels) && Normal(s.users)
    && (forall k :: k in s.users.entries ==> s.users.entries[k] in s.arena)
    && (forall id :: id in s.arena ==> id < s.nextId && s.arena[id].channels.entries == map[])
    && (forall k :: k in s.channels.entries ==> Fits(s.channels.entries[k], s.arena, s.sink))
  }

  predicate IsSelf(s: State, nick: Option<string>) {
    nick == s.client.attrs.nickname
  }

  // ---------------------------------------------------------------------
  // Construction and handler registration

  /** The handlers the constructor registers, one per `on` block. */
  datatype Handler =
    | DoRead | DoWrite | DoParse | DoDead | DoExit | DoPing
    | DoClear | DoIsupport | DoJoin | DoPart | DoNick | DoKick | DoQuit
    | DoMode | DoChannelModeIs | DoNames
    | DoNickInUse | DoWelcome | DoTrackNick | DoCtcp

  /** The handler table the constructor leaves behind, each list in the
      order of the `on` calls: the client's core handlers
      (lib/rhuidean/client.rb:86-97), then the stateful
      `set_default_handlers` (lines 90-116), whose closing `super` adds the
      client's own defaults (client.rb:122-131), then the CTCP replies
      (client.rb:142).  So on `:dead` the client's handler runs before the
      registries are cleared, and on `NICK` the registry is rekeyed before
      the client tracks its own nickname. */
  function Wiring(): map<string, seq<Handler>> {
    map["read_ready" := [DoRead], "write_ready" := [DoWrite], "recvq_ready" := [DoParse],
        "dead" := [DoDead, DoClear], "exit" := [DoExit], "PING" := [DoPing],
        RplBounce := [DoIsupport], "JOIN" := [DoJoin], "PART" := [DoPart],
        "NICK" := [DoNick, DoTrackNick], "KICK" := [DoKick], "QUIT" := [DoQuit],
        "MODE" := [DoMode], RplChannelModeIs := [DoChannelModeIs], RplNameReply := [DoNames],
        ErrNicknameInUse := [DoNickInUse], RplWelcome := [DoWelcome], "PRIVMSG" := [DoCtcp]]
  }

  /** The handlers registered for an event name, in order. */
  function HandlersFor(name: string): seq<Handler> {
    var eq: EventQueue<Handler, Client.Arg> := EventQueue([], Wiring());
    HandlersOf(eq, name)
  }

  /** `StatefulClient.new` as written (lines 29-46 with 90-96): the block
      sets the attributes, and registering under `Numeric::RPL_ISUPPORT`
      raises `NameError`, so no client is ever built. */
  function NewStatefulAsWritten(a: Client.Attributes): (r: Result<State>)
    ensures r.Raised? <==> Numeric("RPL_ISUPPORT").None?
  {
    match Numeric("RPL_ISUPPORT")
    case None => Raised("uninitialized constant IRC::Numeric::RPL_ISUPPORT")
    case Some(_) => Ok(NewStateful(a))
  }

  lemma ConstructorRaises(a: Client.Attributes)
    ensures NewStatefulAsWritten(a).Raised?
    ensures Numeric("RPL_BOUNCE") == Some(RplBounce)
  {
  }

  /** `StatefulClient.new` with the `005` handler registered under
      `RPL_BOUNCE`, and the client's event queue as the channels' sink:
      both registries fold by RFC 1459 while the casemapping itself is nil,
      the channel types are `#` and `&`, and nothing else is known. */
  function NewStateful(a: Client.Attributes): (s: State)
    ensures Valid(s)
    ensures s.client == Client.NewClient(a) && s.casemapping == Unset
    ensures s.channels == NewHash(Rfc) && s.users == NewHash(Rfc) && s.arena == map[]
    ensures s.channelTypes == ["#", "&"] && s.statusModes == [] && s.sink == Channels.QueueSink
  {
    State(Client.NewClient(a), Unset, NewHash(Rfc), NewHash(Rfc), map[], 0,
          ["#", "&"], NoChanModes, [], Channels.QueueSink)
  }

  // ---------------------------------------------------------------------
  // The users registry

  /** `@users[nick] || StatefulUser.new(nick, self)` followed by
      `@users[user.nickname] ||= user` (lines 178-179, 280-283): a known
      user is reused, otherwise a new one is made with the client's
      casemapping; either way the nickname then finds it. */
  function Known(s: State, nick: string): (r: (State, UserId))
    requires Valid(s)
    ensures Valid(r.0) && r.1 in r.0.arena
    ensures Get(r.0.users, nick) == Some(r.1)
    ensures Get(s.users, nick).Some? ==> r.1 == Get(s.users, nick).value && r.0.arena == s.arena
    ensures Get(s.users, nick).None? ==>
              r.1 == s.nextId && r.1 !in s.arena && r.0.arena == s.arena[r.1 := Users.NewUser(nick, s.casemapping)]
    ensures forall n :: Get(s.users, n).Some? ==> Get(r.0.users, n) == Get(s.users, n)
    ensures r.0.users.cm == s.users.cm
    ensures r.0 == s.(users := r.0.users, arena := r.0.arena, nextId := r.0.nextId)
  {
    match Get(s.users, nick)
    case Some(id) =>
      (s.(users := SetIfAbsent(s.users, s.arena[id].nickname, id)), id)
    case None =>
      var id := s.nextId;
      var s1 := s.(arena := s.arena[id := Users.NewUser(nick, s.casemapping)], nextId := id + 1);
      assert forall k :: k in s1.channels.entries ==> Fits(s1.channels.entries[k], s1.arena, s1.sink);
      (s1.(users := SetIfAbsent(s1.users, nick, id)), id)
  }

  /** `add_user` (lines 58-62): the user is filed under its nickname. */
  function AddUser(s: State, id: UserId): (r: State)
    requires Valid(s) && id in s.arena
    ensures Valid(r)
    ensures Get(r.users, s.arena[id].nickname) == Some(id)
    ensures forall n :: Key(s.users, n) != Key(s.users, s.arena[id].nickname) ==> Get(r.users, n) == Get(s.users, n)
  {
    s.(users := Set(s.users, s.arena[id].nickname, id))
  }

  /** The argument of `delete_user`: a nickname, a user, or anything else. */
  datatype Doomed = ByNick(nick: string) | ByUser(id: UserId) | Neither

  /** `delete_user` (lines 71-81): a nickname or a user's nickname is
      deleted as given, without folding; anything else returns nil and
      changes nothing. */
  function DeleteUser(s: State, d: Doomed): (r: Option<State>)
    requires Valid(s) && (d.ByUser? ==> d.id in s.arena)
    ensures r.None? <==> d.Neither?
    ensures r.Some? ==> Valid(r.value) && r.value.channels == s.channels && r.value.arena == s.arena
    ensures d.ByNick? ==> r.value.users.entries.Keys == s.users.entries.Keys - {d.nick}
    ensures d.ByUser? ==> r.value.users.entries.Keys == s.users.entries.Keys - {s.arena[d.id].nickname}
    ensures r.Some? ==> forall k :: k in r.value.users.entries ==> r.value.users.entries[k] == s.users.entries[k]
  {
    match d
    case ByNick(n) => Some(s.(users := Delete(s.users, n)))
    case ByUser(id) => Some(s.(users := Delete(s.users, s.arena[id].nickname)))
    case Neither => None
  }

  /** Deleting a user just added by its own object works only when its
      nickname is already folded; otherwise the registry still finds it. */
  lemma AddThenDeleteUser(s: State, id: UserId)
    requires Valid(s) && id in s.arena
    ensures var n := s.arena[id].nickname;
            var r := DeleteUser(AddUser(s, id), ByUser(id)).value;
            (Key(s.users, n) == n ==> Get(r.users, n).None?)
            && (Key(s.users, n) != n ==> Get(r.users, n) == Some(id))
  {
    var a := AddUser(s, id);
    DeleteMissesUnfolded(a.users, s.arena[id].nickname);
  }

  // ---------------------------------------------------------------------
  // The channels registry

  /** `@channels[key] = ch`, for a channel that fits. */
  function PutChannel(s: State, key: string, ch: Channels.Channel): (r: State)
    requires Valid(s) && Fits(ch, s.arena, s.sink)
    ensures Valid(r) && r == s.(channels := Set(s.channels, key, ch))
  {
    s.(channels := Set(s.channels, key, ch))
  }

  /** The channel under `key` fits the registry. */
  lemma Stored(s: State, key: string)
    requires Valid(s) && Get(s.channels, key).Some?
    ensures Fits(Get(s.channels, key).value, s.arena, s.sink)
  {
  }

  // ---------------------------------------------------------------------
  // JOIN, PART, KICK, NICK, QUIT

  /** `do_join` (lines 171-184).  Our own JOIN files a fresh channel and
      asks for its modes; anyone else's registers the user if needed and
      appends it to the channel, which must already be known. */
  function OnJoin(s: State, m: Message): (r: Result<State>)
    requires Valid(s)
    ensures r.Ok? ==> Valid(r.value)
    ensures IsSelf(s, OriginNick(m)) ==>
              r.Ok? && Get(r.value.channels, m.target) == Some(Channels.NewChannel(m.target, s.sink))
              && r.value.client.sendq == s.client.sendq + ["MODE " + m.target + " "]
              && r.value.users == s.users && r.value.arena == s.arena
    ensures !IsSelf(s, OriginNick(m)) ==> (r.Raised? <==> OriginNick(m).None? || Get(s.channels, m.target).None?)
    ensures !IsSelf(s, OriginNick(m)) && r.Ok? ==>
              var n := OriginNick(m).value;
              Get(r.value.users, n).Some?
              && Get(r.value.channels, m.target).Some?
              && Get(r.value.channels, m.target).value.members
                 == Get(s.channels, m.target).value.members + [Get(r.value.users, n).value]
              && (Get(s.users, n).None? ==> Get(r.value.users, n) == Some(s.nextId))
  {
    if IsSelf(s, OriginNick(m)) then
      var ch := Channels.NewChannel(m.target, s.sink);
      var sendq := Commands.Send(s.client.sendq, Commands.ModeDefault(m.target), s.client.attrs.nickname).value;
      assert sendq == s.client.sendq + ["MODE " + m.target + " "] by {
        assert sendq == sendq[..|s.client.sendq|] + [Last(sendq)];
        assert "MODE " + m.target + " " + "" == "MODE " + m.target + " ";
      }
      var s1 := PutChannel(s, m.target, ch);
      Ok(s1.(client := s1.client.(sendq := sendq)))
    else
      match OriginNick(m)
      case None => Raised("undefined method `downcase' for nil:NilClass")
      case Some(n) =>
        match Get(s.channels, m.target)
        case None => Raised("undefined method `add_user' for nil:NilClass")
        case Some(ch) =>
          var (s1, id) := Known(s, n);
          Stored(s, m.target);
          Ok(PutChannel(s1, m.target, Channels.AddUser(ch, id)))
  }

  /** Another user leaving a channel (lines 200-207, 242-249): the user is
      taken off the channel's member list and, having no channel filed,
      deleted from the registry by its nickname as given.  A nil nick, an
      unknown channel or an unknown user raises. */
  function Depart(s: State, target: string, nick: Option<string>): (r: Result<State>)
    requires Valid(s)
    ensures r.Ok? ==> Valid(r.value)
    ensures r.Raised? <==> nick.None? || Get(s.channels, target).None? || Get(s.users, nick.value).None?
    ensures r.Ok? ==>
              var id := Get(s.users, nick.value).value;
              Get(r.value.channels, target).Some?
              && Get(r.value.channels, target).value.members == Remove(Get(s.channels, target).value.members, id)
              && r.value.users == Delete(s.users, s.arena[id].nickname)
              && r.value.arena == s.arena
    ensures r.Ok? ==> forall k :: Key(s.channels, k) != Key(s.channels, target) ==> Get(r.value.channels, k) == Get(s.channels, k)
  {
    match nick
    case None => Raised("undefined method `downcase' for nil:NilClass")
    case Some(n) =>
      match Get(s.channels, target)
      case None => Raised("undefined method `delete_user' for nil:NilClass")
      case Some(ch) =>
        match Get(s.users, n)
        case None => Raised("undefined method `nickname' for nil:NilClass")
        case Some(id) =>
          var ch1 := Channels.DeleteUser(ch, Channels.AUser(id)).value;
          Stored(s, target);
          assert Fits(ch1, s.arena, s.sink) by {
            forall i | 0 <= i < |ch1.members| ensures ch1.members[i] in s.arena {
              assert ch1.members[i] in ch.members;
            }
          }
          var s1 := PutChannel(s, target, ch1);
          if s.arena[id].channels.entries == map[] then Ok(DeleteUser(s1, ByUser(id)).value)
          else Ok(s1)
  }

  /** `do_part` (lines 186-208): parting ourselves asks the channel for its
      `users`, which `StatefulChannel` does not have, so it raises. */
  function OnPart(s: State, m: Message): (r: Result<State>)
    requires Valid(s)
    ensures r.Ok? ==> Valid(r.value)
    ensures IsSelf(s, OriginNick(m)) ==> r.Raised?
    ensures !IsSelf(s, OriginNick(m)) ==> r == Depart(s, m.target, OriginNick(m))
  {
    if IsSelf(s, OriginNick(m)) then Raised("undefined method `users'")
    else Depart(s, m.target, OriginNick(m))
  }

  /** `do_kick` (lines 228-250): the victim is the first parameter; our
      own kick raises as our own part does. */
  function OnKick(s: State, m: Message): (r: Result<State>)
    requires Valid(s)
    ensures r.Ok? ==> Valid(r.value)
    ensures m.params.None? ==> r.Raised?
    ensures m.params.Some? && IsSelf(s, At(m.params.value, 0)) ==> r.Raised?
    ensures m.params.Some? && !IsSelf(s, At(m.params.value, 0)) ==> r == Depart(s, m.target, At(m.params.value, 0))
  {
    match m.params
    case None => Raised("undefined method `[]' for nil:NilClass")
    case Some(ps) =>
      if IsSelf(s, At(ps, 0)) then Raised("undefined method `users'")
      else Depart(s, m.target, At(ps, 0))
  }

  /** `do_nick` (lines 210-226): the user is renamed, filed under the new
      nickname, and the old nickname is deleted as given.  When the old
      nickname is the folded form of the new one, that delete takes the
      entry just made and the user is forgotten. */
  function OnNick(s: State, m: Message): (r: Result<State>)
    requires Valid(s)
    ensures r.Ok? ==> Valid(r.value)
    ensures r.Raised? <==> OriginNick(m).None? || Get(s.users, OriginNick(m).value).None?
    ensures r.Ok? ==>
              var was := OriginNick(m).value;
              var id := Get(s.users, was).value;
              id in r.value.arena && r.value.arena[id].nickname == m.target
              && r.value.users.entries.Keys == (s.users.entries.Keys + {Key(s.users, m.target)}) - {was}
              && (Key(s.users, m.target) != was ==> Get(r.value.users, m.target) == Some(id))
              && (Key(s.users, m.target) == was ==> Get(r.value.users, m.target).None?)
              && r.value.channels == s.channels
  {
    match OriginNick(m)
    case None => Raised("undefined method `downcase' for nil:NilClass")
    case Some(was) =>
      match Get(s.users, was)
      case None => Raised("undefined method `nickname=' for nil:NilClass")
      case Some(id) =>
        var u := s.arena[id].(nickname := m.target);
        var s1 := s.(arena := s.arena[id := u]);
        assert forall k :: k in s1.channels.entries ==> Fits(s1.channels.entries[k], s1.arena, s1.sink);
        var users := Set(s1.users, m.target, id);
        FoldIdempotent(s.users.cm, m.target);
        Ok(s1.(users := Delete(users, was)))
  }

  /** `do_quit` (lines 252-263): our own QUIT posts `:dead`; anyone else's
      deletes the user by its nickname, while the member lists, reached
      only through the user's empty channel map, keep its id. */
  function OnQuit(s: State, m: Message): (r: Result<State>)
    requires Valid(s)
    ensures r.Ok? ==> Valid(r.value)
    ensures IsSelf(s, OriginNick(m)) ==>
              r.Ok? && Queued(r.value.client.queue, Client.DeadName)
              && s.client.queue <= r.value.client.queue
              && r.value == s.(client := r.value.client)
    ensures !IsSelf(s, OriginNick(m)) ==> (r.Raised? <==> OriginNick(m).None? || Get(s.users, OriginNick(m).value).None?)
    ensures !IsSelf(s, OriginNick(m)) && r.Ok? ==>
              var id := Get(s.users, OriginNick(m).value).value;
              r.value.users == Delete(s.users, s.arena[id].nickname)
              && r.value.channels == s.channels && r.value.arena == s.arena
  {
    if IsSelf(s, OriginNick(m)) then
      var q := Post(s.client.queue, Client.DeadName, Client.NoArgs);
      assert s.client.queue <= q;
      Ok(s.(client := s.client.(queue := q)))
    else
      match OriginNick(m)
      case None => Raised("undefined method `downcase' for nil:NilClass")
      case Some(n) =>
        match Get(s.users, n)
        case None => Raised("undefined method `channels' for nil:NilClass")
        case Some(id) => Ok(DeleteUser(s, ByUser(id)).value)
  }

  /** After another user's QUIT the user is gone from the registry only if
      its nickname was stored folded, and every channel still lists it. */
  lemma QuitLeavesMembers(s: State, m: Message, c: string)
    requires Valid(s) && !IsSelf(s, OriginNick(m)) && OnQuit(s, m).Ok?
    requires Get(s.channels, c).Some?
    ensures var id := Get(s.users, OriginNick(m).value).value;
            id in Get(s.channels, c).value.members ==>
              id in Get(OnQuit(s, m).value.channels, c).value.members
  {
  }

  /** Changing only the case of an all-lowercase nickname under `:rfc`
      loses the user: `bob` becoming `Bob` files it under `bob` and then
      deletes `bob`. */
  lemma NickCaseChangeForgets(s: State, m: Message)
    requires Valid(s) && s.users.cm == Rfc
    requires OriginNick(m) == Some("bob") && m.target == "Bob" && Get(s.users, "bob").Some?
    ensures OnNick(s, m).Ok? && Get(OnNick(s, m).value.users, "Bob").None?
    ensures Get(OnNick(s, m).value.users, "bob").None?
  {
    assert Key(s.users, "Bob") == "bob" by {
      var f := IrcDowncase(Rfc, "Bob");
      assert f[0] == 'b' && f[1] == 'o' && f[2] == 'b';
    }
    assert Key(s.users, "bob") == "bob" by {
      var f := IrcDowncase(Rfc, "bob");
      assert f[0] == 'b' && f[1] == 'o' && f[2] == 'b';
    }
  }

  // ---------------------------------------------------------------------
  // MODE and RPL_CHANNELMODEIS

  /** The event each post becomes: the message, the sign and the parameter. */
  function ModeEvents(m: Message, posts: seq<Channels.ModePost>): (r: seq<Event<Client.Arg>>)
    ensures |r| == |posts|
    ensures forall i :: 0 <= i < |posts| ==>
              r[i] == Event(posts[i].name, Client.ModeChange(m, posts[i].sign, posts[i].param))
  {
    seq(|posts|, i requires 0 <= i < |posts| => Event(posts[i].name, Client.ModeChange(m, posts[i].sign, posts[i].param)))
  }

  /** `parse_modes(m, modes, params)` on a registered channel: the channel
      takes the scanned state and every letter's event is queued, unless
      the sink cannot post. */
  function ApplyModes(s: State, m: Message, key: string, ch: Channels.Channel, modes: string, params: seq<string>): (r: Result<State>)
    requires Valid(s) && Get(s.channels, key) == Some(ch)
    ensures r.Raised? <==> s.sink == Channels.ClientSink && |Channels.Letters(modes)| > 0
    ensures r.Ok? ==> Valid(r.value)
    ensures r.Ok? ==> Get(r.value.channels, key) == Some(Channels.ParseModes(ch, modes, params).ch)
    ensures r.Ok? ==> s.client.queue <= r.value.client.queue
    ensures r.Ok? ==> forall i :: 0 <= i < |Channels.LetterNames(modes)| ==>
                        Queued(r.value.client.queue, Channels.LetterNames(modes)[i])
    ensures r.Ok? ==> r.value.users == s.users && r.value.arena == s.arena
  {
    Stored(s, key);
    match Channels.Deliver(ch, modes, params)
    case Raised(e) => Raised(e)
    case Ok((ch1, posts)) =>
      ScannedFits(Channels.Scan(ch, Channels.NoSign, params, []), modes);
      var r := PostModes(s, m, key, ch1, posts);
      assert forall i :: 0 <= i < |posts| ==> Channels.LetterNames(modes)[i] == posts[i].name;
      Ok(r)
  }

  /** The scanned channel filed under `key`, and one event per post queued. */
  function PostModes(s: State, m: Message, key: string, ch1: Channels.Channel, posts: seq<Channels.ModePost>): (r: State)
    requires Valid(s) && Fits(ch1, s.arena, s.sink)
    ensures Valid(r) && Get(r.channels, key) == Some(ch1)
    ensures s.client.queue <= r.client.queue
    ensures forall i :: 0 <= i < |posts| ==> Queued(r.client.queue, posts[i].name)
    ensures r.users == s.users && r.arena == s.arena
  {
    var evs := ModeEvents(m, posts);
    var s1 := PutChannel(s, key, ch1);
    var q := PostAll(s.client.queue, evs);
    assert forall i :: 0 <= i < |posts| ==> evs[i].name == posts[i].name;
    s1.(client := s1.client.(queue := q))
  }

  /** Scanning a mode string keeps the channel's name, members and sink. */
  lemma {:induction false} ScannedFits(st: Channels.Scan, modes: string)
    ensures var r := Channels.Scanned(st, modes).ch;
            r.name == st.ch.name && r.members == st.ch.members && r.sink == st.ch.sink
    decreases |modes|
  {
    if |modes| > 0 {
      var s1 := Channels.Step(st, modes[0]);
      assert s1.ch.name == st.ch.name && s1.ch.members == st.ch.members && s1.ch.sink == st.ch.sink;
      ScannedFits(s1, modes[1..]);
    }
  }

  /** Whether a target names a channel: its first character is a known
      channel type. */
  predicate ChannelTarget(s: State, target: string) {
    |target| > 0 && [target[0]] in s.channelTypes
  }

  /** The `MODE` handler (lines 105-108): a target that is not a channel is
      skipped; otherwise the channel's modes are parsed from the first
      parameter with the rest as their parameters. */
  function OnMode(s: State, m: Message): (r: Result<State>)
    requires Valid(s)
    ensures r.Ok? ==> Valid(r.value)
    ensures !ChannelTarget(s, m.target) ==> r == Ok(s)
    ensures ChannelTarget(s, m.target) ==>
              (r.Raised? <==> Get(s.channels, m.target).None? || m.params.None? || |m.params.value| == 0
                              || (s.sink == Channels.ClientSink && |Channels.Letters(m.params.value[0])| > 0))
    ensures ChannelTarget(s, m.target) && r.Ok? ==>
              var ps := m.params.value;
              Get(r.value.channels, m.target)
                == Some(Channels.ParseModes(Get(s.channels, m.target).value, ps[0], ps[1..]).ch)
              && forall i :: 0 <= i < |Channels.LetterNames(ps[0])| ==>
                   Queued(r.value.client.queue, Channels.LetterNames(ps[0])[i])
  {
    if !ChannelTarget(s, m.target) then Ok(s)
    else
      match Get(s.channels, m.target)
      case None => Raised("undefined method `parse_modes' for nil:NilClass")
      case Some(ch) =>
        match m.params
        case None => Raised("undefined method `[]' for nil:NilClass")
        case Some(ps) =>
          if |ps| == 0 then Raised("undefined method `each_char' for nil:NilClass")
          else ApplyModes(s, m, m.target, ch, ps[0], ps[1..])
  }

  /** The `RPL_CHANNELMODEIS` handler (lines 111-113): the channel is the
      first parameter and its modes the second. */
  function OnChannelModeIs(s: State, m: Message): (r: Result<State>)
    requires Valid(s)
    ensures r.Ok? ==> Valid(r.value)
    ensures r.Raised? <==> m.params.None? || |m.params.value| < 2 || Get(s.channels, m.params.value[0]).None?
                           || (s.sink == Channels.ClientSink && |Channels.Letters(m.params.value[1])| > 0)
    ensures r.Ok? ==>
              var ps := m.params.value;
              Get(r.value.channels, ps[0])
                == Some(Channels.ParseModes(Get(s.channels, ps[0]).value, ps[1], ps[2..]).ch)
  {
    match m.params
    case None => Raised("undefined method `[]' for nil:NilClass")
    case Some(ps) =>
      if |ps| < 2 then Raised("undefined method `parse_modes' for nil:NilClass")
      else
        match Get(s.channels, ps[0])
        case None => Raised("undefined method `parse_modes' for nil:NilClass")
        case Some(ch) => ApplyModes(s, m, ps[0], ch, ps[1], ps[2..])
  }

  /** As constructed, the channel posts to the client, so a mode change
      with any letter ends the thread; with the event queue as the sink the
      same change is applied and its event queued. */
  lemma ModeSink(s: State, m: Message)
    requires Valid(s) && ChannelTarget(s, m.target) && Get(s.channels, m.target).Some?
    requires m.params == Some(["+o", "nick"])
    ensures s.sink == Channels.ClientSink ==> OnMode(s, m).Raised?
    ensures s.sink == Channels.QueueSink ==>
              OnMode(s, m).Ok? && Queued(OnMode(s, m).value.client.queue, "mode_oper")
  {
    var ch := Get(s.channels, m.target).value;
    assert Channels.Letters("+o") == "o" by {
      assert "+o"[1..] == "o" && "o"[1..] == "";
    }
    assert Channels.LetterNames("+o") == ["mode_oper"] by {
      assert "+o"[1..] == "o" && "o"[1..] == "";
      assert Channels.EventName('o') == "mode_" + "oper" == "mode_oper";
    }
  }

  /** The `MODE` handler classifies letters by its fixed tables alone: the
      `CHANMODES` and `PREFIX` values read from `RPL_ISUPPORT` change
      nothing it does. */
  lemma ModeIgnoresIsupport(s: State, m: Message, cm: ChanModes, sm: StatusModes)
    requires Valid(s)
    ensures var t := s.(channelModes := cm, statusModes := sm);
            Valid(t)
            && (OnMode(t, m).Ok? <==> OnMode(s, m).Ok?)
            && (OnMode(t, m).Ok? ==> OnMode(t, m).value == OnMode(s, m).value.(channelModes := cm, statusModes := sm))
  {
  }

  // ---------------------------------------------------------------------
  // RPL_NAMEREPLY

  /** `@status_modes.values.join('')`: nil values add nothing. */
  function Symbols(sm: StatusModes): string
    decreases |sm|
  {
    if |sm| == 0 then ""
    else (match sm[0].1 case None => "" case Some(v) => v) + Symbols(sm[1..])
  }

  /** The number of leading characters of `name` that are symbols. */
  function PrefixRun(symbols: string, name: string): (n: nat)
    ensures n <= |name| && forall i :: 0 <= i < n ==> name[i] in symbols
    ensures n < |name| ==> name[n] !in symbols
    decreases |name|
  {
    if |name| == 0 || name[0] !in symbols then 0
    else
      var n := 1 + PrefixRun(symbols, name[1..]);
      assert forall i :: 1 <= i < n ==> name[i] == name[1..][i - 1];
      n
  }

  /** `name_re = /^([symbols])*(.+)/` on one name: the group repeats as
      often as it can while leaving `(.+)` a character, so the nick is
      everything after the longest run of symbols short of the whole name,
      and the prefix is the last symbol of that run (nil when there is
      none).  An empty name does not match. */
  function NameMatch(symbols: string, name: string): (r: Option<(Option<char>, string)>)
    ensures r.None? <==> |name| == 0
    ensures r.Some? ==>
              var k := |name| - |r.value.1|;
              0 < |r.value.1| && 0 <= k && name[k..] == r.value.1
              && (forall i :: 0 <= i < k ==> name[i] in symbols)
              && (k < |name| - 1 ==> name[k] !in symbols)
              && r.value.0 == (if k == 0 then None else Some(name[k - 1]))
  {
    if |name| == 0 then None
    else
      var run := PrefixRun(symbols, name);
      var k := if run < |name| then run else |name| - 1;
      Some((if k == 0 then None else Some(name[k - 1]), name[k..]))
  }

  /** The first status mode whose symbol is `symbol`; nil matches nil. */
  function IndexOfSymbol(sm: StatusModes, symbol: Option<string>): (r: Option<nat>)
    ensures r.Some? ==> r.value < |sm| && sm[r.value].1 == symbol
                        && forall j :: 0 <= j < r.value ==> sm[j].1 != symbol
    ensures r.None? ==> forall j :: 0 <= j < |sm| ==> sm[j].1 != symbol
    decreases |sm|
  {
    if |sm| == 0 then None
    else if sm[0].1 == symbol then Some(0)
    else match IndexOfSymbol(sm[1..], symbol)
      case None => None
      case Some(i) => Some(i + 1)
  }

  /** The flag a NAMES prefix stands for (lines 285-294): `@` is `:oper`,
      `+` is `:voice`, and anything else, nil included, is the letter of
      the first status mode shown that way. */
  function StatusFlagOf(sm: StatusModes, prefix: Option<char>): (r: Option<Users.StatusFlag>)
    ensures prefix == Some('@') ==> r == Some("oper")
    ensures prefix == Some('+') ==> r == Some("voice")
    ensures prefix != Some('@') && prefix != Some('+') ==>
              var symbol := if prefix.None? then None else Some([prefix.value]);
              (r.None? <==> forall j :: 0 <= j < |sm| ==> sm[j].1 != symbol)
              && (r.Some? ==> exists j :: 0 <= j < |sm| && sm[j].1 == symbol && r.value == sm[j].0
                                          && forall i :: 0 <= i < j ==> sm[i].1 != symbol)
  {
    if prefix == Some('@') then Some("oper")
    else if prefix == Some('+') then Some("voice")
    else
      var symbol := if prefix.None? then None else Some([prefix.value]);
      match IndexOfSymbol(sm, symbol)
      case None => None
      case Some(j) => Some(sm[j].0)
  }

  /** A plain nick, with no prefix at all, is given the letter of a status
      mode whose symbol is nil, which a `PREFIX` with more letters than
      symbols produces. */
  lemma PlainNickFlag(sm: StatusModes, j: nat)
    requires j < |sm| && sm[j].1.None? && forall i :: 0 <= i < j ==> sm[i].1.Some?
    ensures StatusFlagOf(sm, None) == Some(sm[j].0)
  {
    var r := StatusFlagOf(sm, None);
    var k :| 0 <= k < |sm| && sm[k].1 == None && r.value == sm[k].0 && forall i :: 0 <= i < k ==> sm[i].1 != None;
  }

  /** The nick a NAMES entry names. */
  function NickOf(symbols: string, name: string): string {
    if |name| == 0 then "" else NameMatch(symbols, name).value.1
  }

  /** The flag a NAMES entry carries, if any. */
  function FlagOf(sm: StatusModes, name: string): Option<Users.StatusFlag> {
    if |name| == 0 then None else StatusFlagOf(sm, NameMatch(Symbols(sm), name).value.0)
  }

  function FlagSeq(f: Option<Users.StatusFlag>): seq<Users.StatusFlag> {
    if f.None? then [] else [f.value]
  }

  /** User `id` given `flag`, if any, on the channel named `name`; nothing
      else changes. */
  function Flagged(s: State, id: UserId, name: string, flag: Option<Users.StatusFlag>): (r: State)
    requires Valid(s) && id in s.arena
    ensures Valid(r) && r == s.(arena := r.arena) && r.arena.Keys == s.arena.Keys
    ensures Users.FlagsOn(r.arena[id], name) == Users.FlagsOn(s.arena[id], name) + FlagSeq(flag)
  {
    var u := if flag.Some? then Users.AddStatusMode(s.arena[id], flag.value, Users.Chan(name)) else s.arena[id];
    var r := s.(arena := s.arena[id := u]);
    assert forall k :: k in r.channels.entries ==> Fits(r.channels.entries[k], r.arena, r.sink) by {
      forall k | k in r.channels.entries ensures Fits(r.channels.entries[k], r.arena, r.sink) {
        assert Fits(s.channels.entries[k], s.arena, s.sink);
      }
    }
    r
  }

  /** A NAMES entry's user, found or made under `nick`, flagged and
      appended to the channel under `key`. */
  function NamesJoin(s: State, key: string, nick: string, flag: Option<Users.StatusFlag>): (r: State)
    requires Valid(s) && Get(s.channels, key).Some?
    ensures Valid(r) && Get(r.channels, key).Some?
    ensures var ch := Get(s.channels, key).value;
            Get(r.users, nick).Some?
            && var id := Get(r.users, nick).value;
               id in r.arena
               && Get(r.channels, key).value.members == ch.members + [id]
               && Users.FlagsOn(r.arena[id], ch.name)
                  == (if id in s.arena then Users.FlagsOn(s.arena[id], ch.name) else []) + FlagSeq(flag)
    ensures forall n :: Get(s.users, n).Some? ==> Get(r.users, n) == Get(s.users, n)
    ensures r.statusModes == s.statusModes && r.channels.cm == s.channels.cm
  {
    var ch := Get(s.channels, key).value;
    var (s1, id) := Known(s, nick);
    var s2 := Flagged(s1, id, ch.name, flag);
    Stored(s, key);
    assert Fits(Channels.AddUser(ch, id), s2.arena, s2.sink);
    PutChannel(s2, key, Channels.AddUser(ch, id))
  }

  /** One NAMES entry (lines 279-297): the user is found or made, given
      the flag its prefix stands for on the channel, and appended to the
      channel's members. */
  function NamesStep(s: State, key: string, name: string): (r: Result<State>)
    requires Valid(s) && Get(s.channels, key).Some?
    ensures r.Raised? <==> |name| == 0
    ensures r.Ok? ==> Valid(r.value) && Get(r.value.channels, key).Some?
    ensures r.Ok? ==>
              var nick := NickOf(Symbols(s.statusModes), name);
              var ch := Get(s.channels, key).value;
              Get(r.value.users, nick).Some?
              && var id := Get(r.value.users, nick).value;
                 id in r.value.arena
                 && Get(r.value.channels, key).value.members == ch.members + [id]
                 && Users.FlagsOn(r.value.arena[id], ch.name)
                    == (if id in s.arena then Users.FlagsOn(s.arena[id], ch.name) else []) + FlagSeq(FlagOf(s.statusModes, name))
    ensures r.Ok? ==> forall n :: Get(s.users, n).Some? ==> Get(r.value.users, n) == Get(s.users, n)
    ensures r.Ok? ==> r.value.statusModes == s.statusModes && r.value.channels.cm == s.channels.cm
  {
    match NameMatch(Symbols(s.statusModes), name)
    case None => Raised("undefined method `[]' for nil:NilClass")
    case Some((prefix, nick)) =>
      Ok(NamesJoin(s, key, nick, StatusFlagOf(s.statusModes, prefix)))
  }

  /** The NAMES entries in order, on the channel under `key`. */
  function NamesFrom(s: State, key: string, names: seq<string>): (r: Result<State>)
    requires Valid(s) && Get(s.channels, key).Some?
    ensures r.Raised? <==> "" in names
    ensures r.Ok? ==> Valid(r.value) && Get(r.value.channels, key).Some?
    ensures r.Ok? ==> forall n :: Get(s.users, n).Some? ==> Get(r.value.users, n) == Get(s.users, n)
    ensures r.Ok? ==> r.value.statusModes == s.statusModes && r.value.channels.cm == s.channels.cm
    decreases |names|
  {
    if |names| == 0 then Ok(s)
    else
      match NamesStep(s, key, names[0])
      case Raised(e) => Raised(e)
      case Ok(s1) =>
        assert "" in names <==> names[0] == "" || "" in names[1..] by {
          if "" in names {
            var i :| 0 <= i < |names| && names[i] == "";
            if i > 0 { assert names[1..][i - 1] == ""; }
          }
        }
        NamesFrom(s1, key, names[1..])
  }

  /** From `s` to `r`, the channel under `key` gained one member per
      entry, in order, and each entry's nick finds its member. */
  predicate Appended(s: State, r: State, key: string, names: seq<string>) {
    Get(s.channels, key).Some? && Get(r.channels, key).Some?
    && var before := Get(s.channels, key).value.members;
       var after := Get(r.channels, key).value.members;
       |after| == |before| + |names| && after[..|before|] == before
       && forall i :: 0 <= i < |names| ==>
            Get(r.users, NickOf(Symbols(s.statusModes), names[i])) == Some(after[|before| + i])
  }

  /** Each entry appends one id to the channel, in order, and the entry's
      nick finds that id in the registry afterwards. */
  lemma {:induction false} NamesAppend(s: State, key: string, names: seq<string>)
    requires Valid(s) && Get(s.channels, key).Some? && NamesFrom(s, key, names).Ok?
    ensures Appended(s, NamesFrom(s, key, names).value, key, names)
    decreases |names|
  {
    if |names| > 0 {
      var s1 := NamesStep(s, key, names[0]).value;
      var r := NamesFrom(s1, key, names[1..]).value;
      assert NamesFrom(s, key, names).value == r;
      NamesAppend(s1, key, names[1..]);
      var x := Get(s1.users, NickOf(Symbols(s.statusModes), names[0])).value;
      NamesFromOk(s, s1, r, key, names, x);
    }
  }

  /** The entries after the first extend what the first appended. */
  lemma NamesFromOk(s: State, s1: State, r: State, key: string, names: seq<string>, x: UserId)
    requires |names| > 0 && Get(s.channels, key).Some? && Get(s1.channels, key).Some? && Get(r.channels, key).Some?
    requires Get(s1.channels, key).value.members == Get(s.channels, key).value.members + [x]
    requires Get(s1.users, NickOf(Symbols(s.statusModes), names[0])) == Some(x)
    requires var mid := Get(s1.channels, key).value.members;
             var after := Get(r.channels, key).value.members;
             |after| == |mid| + |names| - 1 && after[..|mid|] == mid
             && forall i :: 0 <= i < |names| - 1 ==>
                  Get(r.users, NickOf(Symbols(s.statusModes), names[1..][i])) == Some(after[|mid| + i])
    requires forall n :: Get(s1.users, n).Some? ==> Get(r.users, n) == Get(s1.users, n)
    ensures Appended(s, r, key, names)
  {
    var before := Get(s.channels, key).value.members;
    var mid := Get(s1.channels, key).value.members;
    var after := Get(r.channels, key).value.members;
    var sym := Symbols(s.statusModes);
    assert after[..|before|] == mid[..|before|] == before;
    assert after[|before|] == mid[|before|] == x;
    forall i | 1 <= i < |names|
      ensures Get(r.users, NickOf(sym, names[i])) == Some(after[|before| + i])
    {
      assert names[i] == names[1..][i - 1];
    }
  }

  /** `names[0][1..-1]`: drop the leading `:`; an empty string stays empty. */
  function DropColon(x: string): string {
    if |x| == 0 then "" else x[1..]
  }

  /** The names of a NAMES reply: the third parameter without its first
      character, then the rest. */
  function NamesOf(ps: seq<string>): seq<string>
    requires |ps| >= 3
  {
    [DropColon(ps[2])] + ps[3..]
  }

  /** `do_rpl_namereply` (lines 270-299): the channel is the second
      parameter.  With no status symbol known the name pattern has an
      empty character class and raises; an unknown channel raises at its
      first entry, and so does an entry the pattern cannot match. */
  function OnNames(s: State, m: Message): (r: Result<State>)
    requires Valid(s)
    ensures r.Ok? ==> Valid(r.value)
    ensures r.Raised? <==>
              m.params.None? || |m.params.value| < 3 || Symbols(s.statusModes) == ""
              || Get(s.channels, m.params.value[1]).None? || "" in NamesOf(m.params.value)
    ensures r.Ok? ==> Appended(s, r.value, m.params.value[1], NamesOf(m.params.value))
  {
    match m.params
    case None => Raised("undefined method `[]' for nil:NilClass")
    case Some(ps) =>
      if |ps| < 3 then Raised("undefined method `[]' for nil:NilClass")
      else if Symbols(s.statusModes) == "" then Raised("empty char-class")
      else if Get(s.channels, ps[1]).None? then Raised("undefined method `add_user' for nil:NilClass")
      else
        var r := NamesFrom(s, ps[1], NamesOf(ps));
        if r.Ok? then NamesAppend(s, ps[1], NamesOf(ps)); r else r
  }

  /** Before any `PREFIX` token the client knows no status symbol, so every
      NAMES reply raises. */
  lemma NamesNeedPrefix(s: State, m: Message)
    requires Valid(s) && s.statusModes == []
    ensures OnNames(s, m).Raised?
  {
  }

  // ---------------------------------------------------------------------
  // RPL_ISUPPORT

  /** One `KEY=VALUE` token of `do_rpl_isupport` (lines 127-168). */
  function ApplyToken(s: State, token: string): (r: Result<State>)
    requires Valid(s)
    ensures r.Ok? ==> Valid(r.value)
    ensures r.Ok? ==> r.value.client == s.client && r.value.arena == s.arena && r.value.sink == s.sink
    ensures var (name, value) := Token(token);
            name == Some("CASEMAPPING") ==>
              r.Ok?
              && (value == Some("rfc1459") || value == Some("ascii") ==>
                    var cm := if value == Some("rfc1459") then Rfc else Ascii;
                    r.value.casemapping == cm && r.value.channels == NewHash(cm) && r.value.users == NewHash(cm)
                    && r.value.statusModes == s.statusModes && r.value.channelTypes == s.channelTypes)
              && (value != Some("rfc1459") && value != Some("ascii") ==> r.value == s)
    ensures var (name, value) := Token(token);
            name == Some("CHANMODES") ==>
              (r.Raised? <==> ChanModesOf(value).Raised?)
              && (r.Ok? ==> r.value == s.(channelModes := ChanModesOf(value).value))
    ensures var (name, value) := Token(token);
            name == Some("CHANTYPES") ==>
              (r.Raised? <==> value.None?)
              && (r.Ok? ==> r.value == s.(channelTypes := Chars(value.value)))
    ensures var (name, value) := Token(token);
            name == Some("PREFIX") ==>
              (r.Raised? <==> value.None? || MatchPrefix(value.value).None?)
              && (r.Ok? ==> var p := MatchPrefix(value.value).value;
                            r.value == s.(statusModes := StoreAll(s.statusModes, PrefixPairs(p.0, p.1))))
    ensures var name := Token(token).0;
            (name != Some("CASEMAPPING") && name != Some("CHANMODES") && name != Some("CHANTYPES")
             && name != Some("PREFIX")) ==> r == Ok(s)
  {
    var (name, value) := Token(token);
    if name == Some("CASEMAPPING") then
      if value == Some("rfc1459") then Ok(s.(casemapping := Rfc, channels := NewHash(Rfc), users := NewHash(Rfc)))
      else if value == Some("ascii") then Ok(s.(casemapping := Ascii, channels := NewHash(Ascii), users := NewHash(Ascii)))
      else Ok(s)
    else if name == Some("CHANMODES") then
      match ChanModesOf(value)
      case Raised(e) => Raised(e)
      case Ok(cm) => Ok(s.(channelModes := cm))
    else if name == Some("CHANTYPES") then
      match ChanTypesOf(value)
      case Raised(e) => Raised(e)
      case Ok(ts) => Ok(s.(channelTypes := ts))
    else if name == Some("PREFIX") then
      if value.None? then Raised("undefined method `[]' for nil:NilClass")
      else
        match MatchPrefix(value.value)
        case None => Raised("undefined method `[]' for nil:NilClass")
        case Some((letters, symbols)) => Ok(s.(statusModes := StoreAll(s.statusModes, PrefixPairs(letters, symbols))))
    else Ok(s)
  }

  /** The tokens in order; the first that raises ends the handler. */
  function ApplyTokens(s: State, tokens: seq<string>): (r: Result<State>)
    requires Valid(s)
    ensures r.Ok? ==> Valid(r.value) && r.value.client == s.client && r.value.arena == s.arena
    ensures r.Raised? <==> exists i :: 0 <= i < |tokens| && TokenRaises(tokens[i])
    decreases |tokens|
  {
    if |tokens| == 0 then Ok(s)
    else
      assert forall i :: 1 <= i < |tokens| ==> tokens[i] == tokens[1..][i - 1];
      match ApplyToken(s, tokens[0])
      case Raised(e) => TokenRaisesAlone(s, tokens[0]); Raised(e)
      case Ok(s1) => TokenRaisesAlone(s, tokens[0]); ApplyTokens(s1, tokens[1..])
  }

  /** Whether a token raises depends on the token alone: a nil or short
      `CHANMODES` value, a nil `CHANTYPES` value, or a `PREFIX` value that
      does not match. */
  predicate TokenRaises(token: string) {
    var (name, value) := Token(token);
    (name == Some("CHANMODES") && ChanModesOf(value).Raised?)
    || (name == Some("CHANTYPES") && value.None?)
    || (name == Some("PREFIX") && (value.None? || MatchPrefix(value.value).None?))
  }

  lemma TokenRaisesAlone(s: State, token: string)
    requires Valid(s)
    ensures ApplyToken(s, token).Raised? <==> TokenRaises(token)
  {
  }

  /** `do_rpl_isupport` (lines 122-169). */
  function OnIsupport(s: State, m: Message): (r: Result<State>)
    requires Valid(s)
    ensures r.Ok? ==> Valid(r.value) && r.value.client == s.client
    ensures r.Raised? <==> m.params.None? || exists i :: 0 <= i < |m.params.value| && TokenRaises(m.params.value[i])
  {
    match m.params
    case None => Raised("undefined method `each' for nil:NilClass")
    case Some(ps) => ApplyTokens(s, ps)
  }

  /** After `PREFIX=(letters)symbols` with distinct letters, each letter
      reads its own symbol, nil past the last symbol. */
  lemma PrefixReadsBack(s: State, letters: string, symbols: string, i: nat)
    requires Valid(s) && Word(letters) && NoNewline(symbols) && '=' !in symbols && i < |letters|
    requires forall a, b :: 0 <= a < b < |letters| ==> letters[a] != letters[b]
    ensures var r := ApplyToken(s, "PREFIX=(" + letters + ")" + symbols);
            r.Ok? && Lookup(r.value.statusModes, [letters[i]])
                     == Some(if i < |symbols| then Some([symbols[i]]) else None)
  {
    var v := "(" + letters + ")" + symbols;
    PrefixTokenReads(letters, symbols);
    var pairs := PrefixPairs(letters, symbols);
    assert DistinctKeys(pairs) by {
      forall a, b | 0 <= a < b < |pairs| ensures pairs[a].0 != pairs[b].0 {
        assert pairs[a].0 == [letters[a]] && pairs[b].0 == [letters[b]];
      }
    }
    var r := ApplyToken(s, "PREFIX=(" + letters + ")" + symbols);
    assert r.Ok? && r.value.statusModes == StoreAll(s.statusModes, pairs);
    StoreAllReads(s.statusModes, pairs, [letters[i]]);
    assert pairs[i] == ([letters[i]], if i < |symbols| then Some([symbols[i]]) else None);
  }

  /** A `PREFIX=(letters)symbols` token names `PREFIX` and matches with
      those letters and symbols. */
  lemma PrefixTokenReads(letters: string, symbols: string)
    requires Word(letters) && NoNewline(symbols) && '=' !in symbols
    ensures var t := Token("PREFIX=(" + letters + ")" + symbols);
            t.0 == Some("PREFIX") && t.1.Some?
            && MatchPrefix(t.1.value) == Some((letters, symbols))
  {
    var v := "(" + letters + ")" + symbols;
    assert "PREFIX=(" + letters + ")" + symbols == "PREFIX" + "=" + v;
    assert '=' !in letters by {
      assert forall j :: 0 <= j < |letters| ==> IsWord(letters[j]);
    }
    assert '=' !in v by {
      assert v == "(" + letters + (")" + symbols);
    }
    TokenReads("PREFIX", v);
    MatchPrefixReads(letters, symbols);
  }

  // ---------------------------------------------------------------------
  // Dispatch

  /** The handlers this model leaves out: the socket reads and writes,
      `Thread.exit`, and the random suffix for a nickname in use. */
  predicate Modelled(h: Handler) {
    !(h.DoRead? || h.DoWrite? || h.DoExit? || h.DoNickInUse?)
  }

  /** The events whose handlers are left out. */
  const Unmodelled: set<string> := {Client.ReadReadyName, Client.WriteReadyName, ExitName, ErrNicknameInUse}

  /** The message a handler's block parameter receives: the first argument
      posted, nil when there is none. */
  function MessageOf(arg: Client.Arg): Option<Message> {
    match arg
    case NoArgs => None
    case Msg(m) => Some(m)
    case ModeChange(m, _, _) => Some(m)
  }

  /** One handler on one event's arguments.  `version` is the library's
      `VERSION` constant. */
  function Apply(s: State, h: Handler, arg: Client.Arg, version: string): (r: Result<State>)
    requires Valid(s) && Modelled(h)
    ensures r.Ok? ==> Valid(r.value)
  {
    match h
    case DoParse =>
      (match Client.Parse(s.client)
       case Raised(e) => Raised(e)
       case Ok(c) => Ok(s.(client := c)))
    case DoDead => Ok(s.(client := Client.SetDead(s.client, true)))
    case DoClear => Ok(s.(channels := Clear(s.channels), users := Clear(s.users)))
    case DoWelcome => Ok(s)
    case DoPing => OnMessage(s, h, arg, version)
    case DoIsupport => OnMessage(s, h, arg, version)
    case DoJoin => OnMessage(s, h, arg, version)
    case DoPart => OnMessage(s, h, arg, version)
    case DoNick => OnMessage(s, h, arg, version)
    case DoKick => OnMessage(s, h, arg, version)
    case DoQuit => OnMessage(s, h, arg, version)
    case DoMode => OnMessage(s, h, arg, version)
    case DoChannelModeIs => OnMessage(s, h, arg, version)
    case DoNames => OnMessage(s, h, arg, version)
    case DoTrackNick => OnMessage(s, h, arg, version)
    case DoCtcp => OnMessage(s, h, arg, version)
  }

  /** The handlers whose block reads a message. */
  predicate ReadsMessage(h: Handler) {
    h.DoPing? || h.DoIsupport? || h.DoJoin? || h.DoPart? || h.DoNick? || h.DoKick? || h.DoQuit?
    || h.DoMode? || h.DoChannelModeIs? || h.DoNames? || h.DoTrackNick? || h.DoCtcp?
  }

  /** A handler that reads a message raises when the event carries none. */
  function OnMessage(s: State, h: Handler, arg: Client.Arg, version: string): (r: Result<State>)
    requires Valid(s) && ReadsMessage(h)
    ensures r.Ok? ==> Valid(r.value)
    ensures MessageOf(arg).None? ==> r.Raised?
    ensures MessageOf(arg).Some? ==> r == HandleMessage(s, h, MessageOf(arg).value, version)
  {
    match MessageOf(arg)
    case None => Raised("undefined method for nil:NilClass")
    case Some(m) => HandleMessage(s, h, m, version)
  }

  /** The block of a handler that reads a message, given one. */
  function HandleMessage(s: State, h: Handler, m: Message, version: string): (r: Result<State>)
    requires Valid(s) && ReadsMessage(h)
    ensures r.Ok? ==> Valid(r.value)
  {
    match h
    case DoPing =>
      var sendq := Commands.Send(s.client.sendq, Client.PingReply(m), s.client.attrs.nickname).value;
      Ok(s.(client := s.client.(sendq := sendq)))
    case DoIsupport => OnIsupport(s, m)
    case DoJoin => OnJoin(s, m)
    case DoPart => OnPart(s, m)
    case DoNick => OnNick(s, m)
    case DoKick => OnKick(s, m)
    case DoQuit => OnQuit(s, m)
    case DoMode => OnMode(s, m)
    case DoChannelModeIs => OnChannelModeIs(s, m)
    case DoNames => OnNames(s, m)
    case DoTrackNick =>
      var attrs := s.client.attrs.(nickname := Client.TrackNick(s.client.attrs.nickname, m));
      Ok(s.(client := s.client.(attrs := attrs)))
    case DoCtcp =>
      match Client.CtcpReply(m, version)
      case None => Ok(s)
      case Some(c) =>
        var sendq := Commands.Send(s.client.sendq, c, s.client.attrs.nickname).value;
        Ok(s.(client := s.client.(sendq := sendq)))
  }

  /** The handlers of one event, in order, until one raises. */
  function RunHandlers(s: State, hs: seq<Handler>, arg: Client.Arg, version: string): (r: Result<State>)
    requires Valid(s) && forall i :: 0 <= i < |hs| ==> Modelled(hs[i])
    ensures r.Ok? ==> Valid(r.value)
    ensures |hs| > 0 && Apply(s, hs[0], arg, version).Raised? ==> r.Raised?
    decreases |hs|
  {
    if |hs| == 0 then Ok(s)
    else
      match Apply(s, hs[0], arg, version)
      case Raised(e) => Raised(e)
      case Ok(s1) => RunHandlers(s1, hs[1..], arg, version)
  }

  lemma WiringModelled(name: string)
    requires name !in Unmodelled
    ensures forall i :: 0 <= i < |HandlersFor(name)| ==>
              Modelled(HandlersFor(name)[i])
  {
  }

  /** One dequeued event, run through the handlers the constructor
      registered for its name. */
  function Dispatch(s: State, e: Event<Client.Arg>, version: string): (r: Result<State>)
    requires Valid(s) && e.name !in Unmodelled
    ensures r.Ok? ==> Valid(r.value)
  {
    WiringModelled(e.name);
    RunHandlers(s, HandlersFor(e.name), e.args, version)
  }

  /** `:dead` marks the client dead and then empties both registries. */
  lemma DeadClears(s: State)
    requires Valid(s)
    ensures var r := Dispatch(s, Event(Client.DeadName, Client.NoArgs), "");
            r.Ok? && r.value.client.dead && !r.value.client.connected
            && r.value.channels.entries == map[] && r.value.users.entries == map[]
  {
    assert HandlersFor(Client.DeadName) == [DoDead, DoClear];
  }

  /** Our own NICK is tracked only if the registry knows us, which nothing
      but another client's NAMES entry arranges: otherwise the stateful
      handler raises first and the nickname stays as it was. */
  lemma OwnNickNeedsRegistry(s: State, m: Message)
    requires Valid(s) && OriginNick(m).Some? && IsSelf(s, OriginNick(m))
    ensures var r := Dispatch(s, Event("NICK", Client.Msg(m)), "");
            (r.Raised? <==> Get(s.users, OriginNick(m).value).None?)
            && (r.Ok? ==> r.value.client.attrs.nickname == Some(m.target))
  {
    DispatchNick(s, m);
    var a := OnNick(s, m);
    if a.Ok? {
      assert a.value.client == s.client;
    }
  }

  /** `NICK` runs the registry's handler and then, when that returns, the
      client's own nickname tracking. */
  lemma DispatchNick(s: State, m: Message)
    requires Valid(s)
    ensures Dispatch(s, Event("NICK", Client.Msg(m)), "") == RunHandlers(s, [DoNick, DoTrackNick], Client.Msg(m), "")
    ensures OnNick(s, m).Raised? ==> Dispatch(s, Event("NICK", Client.Msg(m)), "").Raised?
    ensures OnNick(s, m).Ok? ==> Dispatch(s, Event("NICK", Client.Msg(m)), "") == Ok(Tracked(OnNick(s, m).value, m))
  {
    NickHandlers();
    RunNick(s, m);
  }

  /** The two `NICK` handlers in order: the registry's, then the client's. */
  lemma RunNick(s: State, m: Message)
    requires Valid(s)
    ensures OnNick(s, m).Raised? ==> RunHandlers(s, [DoNick, DoTrackNick], Client.Msg(m), "").Raised?
    ensures OnNick(s, m).Ok? ==> RunHandlers(s, [DoNick, DoTrackNick], Client.Msg(m), "") == Ok(Tracked(OnNick(s, m).value, m))
  {
    assert Apply(s, DoNick, Client.Msg(m), "") == OnNick(s, m);
    assert [DoNick, DoTrackNick][1..] == [DoTrackNick];
    assert [DoTrackNick][1..] == [];
    if OnNick(s, m).Ok? {
      TrackNickStep(OnNick(s, m).value, m);
    }
  }

  /** The constructor leaves `NICK` with the registry's handler first. */
  lemma NickHandlers()
    ensures HandlersFor("NICK") == [DoNick, DoTrackNick]
  {
  }

  /** The client with its nickname tracked through `m`; nothing else changes. */
  function Tracked(s: State, m: Message): (r: State)
    ensures r.client.attrs.nickname == Client.TrackNick(s.client.attrs.nickname, m)
    ensures r == s.(client := r.client) && r.client == s.client.(attrs := r.client.attrs)
    ensures r.client.attrs == s.client.attrs.(nickname := r.client.attrs.nickname)
  {
    s.(client := s.client.(attrs := s.client.attrs.(nickname := Client.TrackNick(s.client.attrs.nickname, m))))
  }

  lemma TrackNickStep(s: State, m: Message)
    requires Valid(s)
    ensures Apply(s, DoTrackNick, Client.Msg(m), "") == Ok(Tracked(s, m))
  {
  }
}
