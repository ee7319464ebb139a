/**
 * `StatefulUser` (lib/rhuidean/stateful_user.rb): a nickname, the channels
 * the user is on (an `IRCHash` built with the client's casemapping at the
 * time), and the status flags held on each channel, keyed by channel name.
 */
module Users {
  import opened Text
  import opened Casemap

  /** A status flag: `:oper`, `:voice`, or a PREFIX letter as a symbol. */
  type StatusFlag = string

  /** `add_status_mode` and `delete_status_mode` accept a `StatefulChannel`
      or a channel name; a channel stands for its name. */
  datatype ChannelRef = Chan(name: string) | Named(name: string)

  /** The channels map holds channel names here, as the stateful client
      keeps the channels themselves. */
  datatype User = User(nickname: string, channels: IrcHash<string>, modes: map<string, seq<StatusFlag>>)

  /** `StatefulUser.new(nickname, client)` (lines 32-44). */
  function NewUser(nickname: string, cm: Casemapping): (u: User)
    ensures u.nickname == nickname && u.channels == NewHash(cm) && u.modes == map[]
  {
    User(nickname, NewHash(cm), map[])
  }

  /** The flags held on a channel, `[]` when there is no entry. */
  function FlagsOn(u: User, channel: string): seq<StatusFlag> {
    if channel in u.modes then u.modes[channel] else []
  }

  /** `join_channel` (lines 65-69): the channel is filed under its name. */
  function JoinChannel(u: User, channel: string): (r: User)
    ensures Get(r.channels, channel) == Some(channel)
    ensures forall n :: Key(u.channels, n) != Key(u.channels, channel) ==> Get(r.channels, n) == Get(u.channels, n)
    ensures r.nickname == u.nickname && r.modes == u.modes && r.channels.cm == u.channels.cm
  {
    u.(channels := Set(u.channels, channel, channel))
  }

  /** `part_channel` (lines 78-83): the flags on the channel go, and so does
      the channel, but `IRCHash#delete` does not fold the name. */
  function PartChannel(u: User, channel: string): (r: User)
    ensures channel !in r.modes && r.channels.entries.Keys == u.channels.entries.Keys - {channel}
    ensures forall n :: n != channel ==> FlagsOn(r, n) == FlagsOn(u, n)
    ensures r.nickname == u.nickname
  {
    u.(modes := u.modes - {channel}, channels := Delete(u.channels, channel))
  }

  /** `add_status_mode` (lines 92-97): the flag is appended, even when the
      user already holds it there. */
  function AddStatusMode(u: User, flag: StatusFlag, ch: ChannelRef): (r: User)
    ensures FlagsOn(r, ch.name) == FlagsOn(u, ch.name) + [flag]
    ensures forall n :: n != ch.name ==> FlagsOn(r, n) == FlagsOn(u, n)
    ensures r.modes.Keys == u.modes.Keys + {ch.name}
    ensures r.nickname == u.nickname && r.channels == u.channels
  {
    u.(modes := u.modes[ch.name := FlagsOn(u, ch.name) + [flag]])
  }

  /** `delete_status_mode` (lines 106-113): nothing happens when the user
      has no entry for the channel; otherwise every copy of the flag goes. */
  function DeleteStatusMode(u: User, flag: StatusFlag, ch: ChannelRef): (r: User)
    ensures ch.name !in u.modes ==> r == u
    ensures ch.name in u.modes ==> ch.name in r.modes && flag !in r.modes[ch.name]
    ensures forall f :: f != flag ==> (f in FlagsOn(r, ch.name) <==> f in FlagsOn(u, ch.name))
    ensures forall n :: n != ch.name ==> FlagsOn(r, n) == FlagsOn(u, n)
    ensures r.nickname == u.nickname && r.channels == u.channels
  {
    if ch.name !in u.modes then u
    else
      var r := u.(modes := u.modes[ch.name := Remove(u.modes[ch.name], flag)]);
      assert forall f :: f != flag && f in FlagsOn(u, ch.name) ==> f in FlagsOn(r, ch.name) by {
        forall f | f != flag && f in FlagsOn(u, ch.name) ensures f in FlagsOn(r, ch.name) {
          var i :| 0 <= i < |u.modes[ch.name]| && u.modes[ch.name][i] == f;
        }
      }
      assert forall f :: f in FlagsOn(r, ch.name) ==> f in FlagsOn(u, ch.name) by {
        forall f | f in FlagsOn(r, ch.name) ensures f in FlagsOn(u, ch.name) {
          var i :| 0 <= i < |r.modes[ch.name]| && r.modes[ch.name][i] == f;
        }
      }
      r
  }

  /** Taking a flag away undoes giving it: whatever else the user held on
      the channel stays, and no copy of the flag is left. */
  lemma AddThenDelete(u: User, flag: StatusFlag, ch: ChannelRef)
    ensures var r := DeleteStatusMode(AddStatusMode(u, flag, ch), flag, ch);
            flag !in FlagsOn(r, ch.name)
            && (forall f :: f != flag ==> (f in FlagsOn(r, ch.name) <==> f in FlagsOn(u, ch.name)))
            && (forall n :: n != ch.name ==> FlagsOn(r, n) == FlagsOn(u, n))
  {
    var a := AddStatusMode(u, flag, ch);
    forall f | f != flag
      ensures f in FlagsOn(a, ch.name) <==> f in FlagsOn(u, ch.name)
    {
      assert FlagsOn(a, ch.name) == FlagsOn(u, ch.name) + [flag];
    }
  }

  /** Joining and parting by the same name leaves no trace when the name
      is already folded; under `:rfc` an unfolded name stays filed. */
  lemma PartAfterJoin(u: User, channel: string)
    requires Normal(u.channels)
    ensures Key(u.channels, channel) == channel ==>
              Get(PartChannel(JoinChannel(u, channel), channel).channels, channel).None?
    ensures Key(u.channels, channel) != channel ==>
              Get(PartChannel(JoinChannel(u, channel), channel).channels, channel) == Some(channel)
  {
    var j := JoinChannel(u, channel);
    assert Normal(j.channels);
    if Key(u.channels, channel) != channel {
      DeleteMissesUnfolded(j.channels, channel);
    }
  }
}
