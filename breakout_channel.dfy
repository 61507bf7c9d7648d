/**
 * The live state of a breakout room and the process-wide registry of rooms.
 * A room's broadcast sender is modelled as the append-only log of what it
 * has sent; a rendered voter list is modelled as the sorted roster it is
 * rendered from.
 */
module Breakout {
  import opened Wrappers
  import opened Users
  import opened VoterOrder
  import opened Roster
  import opened EventFrame

  /** What a room broadcasts: a lifecycle event frame, or the voter list. */
  datatype Message =
    | Event(frame: string)
    | Voters(view: seq<User>, showVotes: bool)

  /** The event that starts a new round (votes cleared). */
  function RestartEvent(): Message {
    Event(Frame("enable_voting", "start voting"))
  }

  /** The event that reveals the votes of a round. */
  function RevealEvent(): Message {
    Event(Frame("disable_voting", "votes are in"))
  }

  /** The page tells the two lifecycle events apart by name. */
  lemma LifecycleEventNames()
    ensures ClientEventName(RestartEvent().frame) == Some("enable_voting")
    ensures ClientEventName(RevealEvent().frame) == Some("disable_voting")
  {
    EventNameRoundTrip("enable_voting", "start voting");
    EventNameRoundTrip("disable_voting", "votes are in");
  }

  class Channel {
    const lookupId: string
    var users: seq<User>
    var showVotes: bool
    /** Every message handed to the broadcast sender, oldest first. */
    var log: seq<Message>

    /** Identities in the roster are unique. */
    ghost predicate Valid()
      reads this
    {
      UniqueIds(users)
    }

    /** The channel `find_or_create` makes for an unknown id. */
    constructor (lookupId: string)
      ensures this.lookupId == lookupId
      ensures users == [] && !showVotes && log == []
      ensures Valid()
    {
      this.lookupId := lookupId;
      users := [];
      showVotes := false;
      log := [];
    }

    /** `is_empty`: no user remains. */
    predicate IsEmpty()
      reads this
      ensures IsEmpty() <==> |users| == 0
    {
      users == []
    }

    /** `voters_html`: the voter list, sorted by case-insensitive name. */
    method VotersHtml() returns (m: Message)
      ensures m == Voters(SortByName(users), showVotes)
    {
      var s := users;
      var a := new User[|s|](i requires 0 <= i < |s| => s[i]);
      assert a[..] == s;
      SortVoters(a);
      m := Voters(a[..], showVotes);
    }

    /**
     * `toggle_votes`: flips the reveal flag. A new round (flag now false)
     * clears every vote and announces itself; a reveal leaves the votes.
     * Either way the voter list follows the event.
     */
    method ToggleVotes()
      modifies this
      ensures showVotes == !old(showVotes)
      ensures users == if showVotes then old(users) else ClearVotes(old(users))
      ensures log == old(log) + [if showVotes then RevealEvent() else RestartEvent(),
                                 Voters(SortByName(users), showVotes)]
      ensures old(Valid()) ==> Valid()
    {
      ghost var wasValid := Valid();
      showVotes := !showVotes;
      if !showVotes {
        var i := 0;
        while i < |users|
          invariant 0 <= i <= |users| == |old(users)|
          invariant forall k :: 0 <= k < i ==> users[k] == old(users)[k].(vote := None)
          invariant forall k :: i <= k < |users| ==> users[k] == old(users)[k]
          invariant showVotes == !old(showVotes) && log == old(log)
        {
          users := users[i := users[i].(vote := None)];
          i := i + 1;
        }
        assert users == ClearVotes(old(users));
        if wasValid {
          ClearVotesUnique(old(users));
        }
        log := log + [RestartEvent()];
      } else {
        log := log + [RevealEvent()];
      }
      var m := VotersHtml();
      log := log + [m];
    }

    /**
     * `vote`: the first user with `user`'s identity withdraws a vote equal to
     * `value` or takes `value`; an absent user changes nothing.
     */
    method Vote(user: User, value: Option<int>)
      modifies this
      ensures users == CastVote(old(users), user.lookupId, value)
      ensures showVotes == old(showVotes)
      ensures log == old(log) + [Voters(SortByName(users), showVotes)]
      ensures old(Valid()) ==> Valid()
    {
      var i := 0;
      while i < |users| && users[i].lookupId != user.lookupId
        invariant 0 <= i <= |users|
        invariant forall k :: 0 <= k < i ==> users[k].lookupId != user.lookupId
      {
        i := i + 1;
      }
      if i < |users| {
        var u := users[i];
        if u.vote == value {
          users := users[i := u.(vote := None)];
        } else {
          users := users[i := u.(vote := value)];
        }
      }
      assert LookupIds(users) == LookupIds(old(users));
      var m := VotersHtml();
      log := log + [m];
    }

    /** `add_user`: appends `user` unless its identity is already present. */
    method AddUser(user: User)
      modifies this
      ensures users == Added(old(users), user)
      ensures showVotes == old(showVotes)
      ensures log == old(log) + [Voters(SortByName(users), showVotes)]
      ensures old(Valid()) ==> Valid()
    {
      ghost var wasValid := Valid();
      var present := false;
      var i := 0;
      while i < |users| && !present
        invariant 0 <= i <= |users|
        invariant present <==> exists k :: 0 <= k < i && users[k].lookupId == user.lookupId
      {
        present := users[i].lookupId == user.lookupId;
        i := i + 1;
      }
      assert present <==> HasId(users, user.lookupId);
      if wasValid {
        AddedUnique(users, user);
      }
      if !present {
        users := users + [user];
      }
      var m := VotersHtml();
      log := log + [m];
    }

    /** `remove_user`: drops every user with that identity, keeping the order of the rest. */
    method RemoveUser(id: string)
      modifies this
      ensures users == Without(old(users), id)
      ensures showVotes == old(showVotes)
      ensures log == old(log) + [Voters(SortByName(users), showVotes)]
      ensures old(Valid()) ==> Valid()
    {
      var kept: seq<User> := [];
      var i := 0;
      while i < |users|
        invariant 0 <= i <= |users|
        invariant kept == Without(users[..i], id)
      {
        assert users[..i + 1][..i] == users[..i];
        if users[i].lookupId != id {
          kept := kept + [users[i]];
        }
        i := i + 1;
      }
      assert users[..|users|] == users;
      if Valid() {
        WithoutUnique(users, id);
      }
      users := kept;
      var m := VotersHtml();
      log := log + [m];
    }

    /**
     * `user_changed_name`: removes the user's old entry, adds `user` as given,
     * and broadcasts once more: three voter lists in all.
     */
    method UserChangedName(user: User)
      modifies this
      ensures users == Renamed(old(users), user)
      ensures showVotes == old(showVotes)
      ensures log == old(log) + [Voters(SortByName(Without(old(users), user.lookupId)), showVotes),
                                 Voters(SortByName(users), showVotes),
                                 Voters(SortByName(users), showVotes)]
      ensures old(Valid()) ==> Valid()
    {
      ghost var log0 := log;
      RemoveUser(user.lookupId);
      ghost var log1 := log;
      AddUser(user);
      ghost var log2 := log;
      var m := VotersHtml();
      log := log + [m];
      assert log == log0 + [log1[|log1| - 1], log2[|log2| - 1], m];
    }
  }

  /** The map from room id to live room, shared by every request. */
  class Registry {
    var channels: map<string, Channel>

    /** Every room is filed under its own id, so no two ids share a room. */
    ghost predicate Valid()
      reads this
    {
      forall id :: id in channels ==> channels[id].lookupId == id
    }

    constructor ()
      ensures channels == map[] && Valid()
    {
      channels := map[];
    }

    /**
     * `find_or_create`: the room filed under `id`, made fresh and empty and
     * filed there when there is none; no other entry changes.
     */
    method FindOrCreate(id: string) returns (c: Channel)
      requires Valid()
      modifies this
      ensures Valid()
      ensures id in channels && c == channels[id] && c.lookupId == id
      ensures id in old(channels) ==> channels == old(channels) && c == old(channels)[id]
      ensures id !in old(channels) ==>
                && fresh(c) && channels == old(channels)[id := c]
                && c.users == [] && !c.showVotes && c.log == [] && c.Valid()
    {
      if id in channels {
        c := channels[id];
      } else {
        c := new Channel(id);
        channels := channels[id := c];
      }
    }
  }

  /** Two ids of a valid registry never share a room. */
  lemma RegistryNoAliasing(r: Registry, a: string, b: string)
    requires r.Valid() && a in r.channels && b in r.channels && a != b
    ensures r.channels[a] != r.channels[b]
  {
  }

  /**
   * A round in room "abc": two users join, one votes, the votes are revealed
   * and a new round starts; a second lookup finds the same room.
   */
  method RoundScenario() {
    var registry := new Registry();
    var room := registry.FindOrCreate("abc");
    var alice := User(1, "u1", "Alice", None);
    var bob := User(2, "u2", "bob", None);
    room.AddUser(bob);
    assert !HasId([bob], "u1");
    room.AddUser(alice);
    assert room.users == [bob, alice];
    assert Key(alice)[0] == 'a' && Key(bob)[0] == 'b' && !NameLe(bob, alice);
    assert [bob, alice][..1] == [bob] && SortByName([bob]) == [bob];
    assert Insert([bob], alice) == Insert([], alice) + [bob];
    assert SortByName([bob, alice]) == Insert(SortByName([bob]), alice);
    assert SortByName([bob, alice]) == [alice, bob];
    assert room.log == [Voters([bob], false), Voters([alice, bob], false)];
    room.Vote(alice, Some(5));
    assert room.users == [bob, alice.(vote := Some(5))];
    room.ToggleVotes();
    assert room.showVotes && room.users[1].vote == Some(5);
    room.ToggleVotes();
    assert !room.showVotes && room.users[1].vote == None;
    var again := registry.FindOrCreate("abc");
    assert again == room;
  }
}
