/**
 * The server's `games` dictionary: game id to room record. The create and
 * join routes add rooms and players; every socket handler first looks its
 * room up by id (Find) and then runs the room's own handler; a disconnect
 * visits every room.
 */
module Registry {
  import opened Rules
  import opened Rooms

  /** The reply of create_game: back to the index page when no user name was
      given, otherwise on to the page of the new game. */
  datatype CreateReply = BackToIndex | ToGame(gameId: string)

  /** A form field or payload value that is absent or empty; the routes treat
      both as missing (Python truthiness). */
  predicate Blank(field: Option<string>) {
    field.None? || field.value == ""
  }

  /** The ids, in order, whose roster (in `rosters`) holds `username`: the
      rooms handle_disconnect notifies. */
  function Holding(username: string, ids: seq<string>, rosters: map<string, seq<string>>): seq<string> {
    if ids == [] then []
    else
      var last := ids[|ids| - 1];
      Holding(username, ids[..|ids| - 1], rosters) + (if last in rosters && username in rosters[last] then [last] else [])
  }

  /** handle_disconnect notifies exactly the rooms that hold the player, each
      once, in the order the rooms were created. */
  lemma {:induction false} HoldingSpec(username: string, ids: seq<string>, rosters: map<string, seq<string>>)
    requires NoDuplicates(ids)
    ensures var r := Holding(username, ids, rosters);
      && NoDuplicates(r)
      && forall id :: id in r <==> id in ids && id in rosters && username in rosters[id]
  {
    if ids != [] {
      var init, last := ids[..|ids| - 1], ids[|ids| - 1];
      var held := Holding(username, init, rosters);
      HoldingSpec(username, init, rosters);
      assert forall id :: id in ids <==> id in init || id == last;
      if last in rosters && username in rosters[last] {
        NoDuplicatesAppend(held, last);
      } else {
        assert held + [] == held;
      }
    }
  }

  /** The rooms, in order, that hold the player. */
  method Holders(username: string, ids: seq<string>, rosters: map<string, seq<string>>) returns (notified: seq<string>)
    ensures notified == Holding(username, ids, rosters)
  {
    notified := [];
    for i := 0 to |ids|
      invariant notified == Holding(username, ids[..i], rosters)
    {
      assert ids[..i + 1][..i] == ids[..i];
      if ids[i] in rosters && username in rosters[ids[i]] {
        notified := notified + [ids[i]];
      }
    }
    assert ids[..|ids|] == ids;
  }

  class Games {
    var rooms: map<string, Room>
    /** The keys of `rooms` in insertion order, the order in which a Python
        dict is iterated; replacing a room keeps its key's place. */
    var ids: seq<string>

    ghost predicate Valid()
      reads this, rooms.Values
    {
      IdsValid() && RoomsValid()
    }

    /** `ids` lists every key of `rooms` once. */
    ghost predicate IdsValid()
      reads this
    {
      NoDuplicates(ids) && Elements(ids) == rooms.Keys
    }

    /** Every stored room is a consistent room record. */
    ghost predicate RoomsValid()
      reads this, rooms.Values
    {
      forall r :: r in rooms.Values ==> r.Valid()
    }

    /** The players of every room. */
    function Rosters(): (r: map<string, seq<string>>)
      reads this, rooms.Values
      ensures r.Keys == rooms.Keys
      ensures forall id :: id in rooms ==> r[id] == rooms[id].players
    {
      map id | id in rooms :: rooms[id].players
    }

    /** The server starts with no games. */
    constructor ()
      ensures Valid() && rooms == map[] && ids == []
    {
      rooms := map[];
      ids := [];
    }

    /**
     * The game-id check every socket handler starts with: the room stored
     * under the payload's game id, if any.
     */
    method Find(gameId: Option<string>) returns (room: Option<Room>)
      ensures room.Some? <==> gameId.Some? && gameId.value in rooms
      ensures room.Some? ==> room.value == rooms[gameId.value]
    {
      if gameId.Some? && gameId.value in rooms {
        return Some(rooms[gameId.value]);
      }
      return None;
    }

    /**
     * create_game: without a user name the request goes back to the index
     * page. Otherwise a new waiting room hosted by the user is stored under
     * `gameId`, replacing any room that already had that id.
     */
    method CreateGame(username: Option<string>, gameId: string) returns (reply: CreateReply)
      requires Valid()
      modifies this
      ensures Valid()
      ensures Blank(username) ==> reply == BackToIndex && rooms == old(rooms) && ids == old(ids)
      ensures !Blank(username) ==>
        && reply == ToGame(gameId)
        && gameId in rooms && rooms == old(rooms)[gameId := rooms[gameId]]
        && fresh(rooms[gameId]) && rooms[gameId].IsNew(username.value)
        && ids == if gameId in old(rooms) then old(ids) else old(ids) + [gameId]
    {
      if Blank(username) {
        return BackToIndex;
      }
      var room := new Room(username.value);
      Install(gameId, room);
      return ToGame(gameId);
    }

    /** Stores a new room under `gameId`: a new key goes to the end of the
        iteration order, an existing one keeps its place. */
    method Install(gameId: string, room: Room)
      requires Valid() && room.Valid() && room !in rooms.Values
      modifies this
      ensures Valid()
      ensures rooms == old(rooms)[gameId := room]
      ensures ids == if gameId in old(rooms) then old(ids) else old(ids) + [gameId]
    {
      InElements(ids, gameId);
      if gameId !in rooms {
        ElementsAppend(ids, gameId);
        NoDuplicatesAppend(ids, gameId);
        ids := ids + [gameId];
      }
      rooms := rooms[gameId := room];
    }

    /**
     * join_game: a missing user name or game id sends the request back to
     * the index page and an unknown id is answered with 404; otherwise the
     * room decides (Room.Join).
     */
    method JoinGame(username: Option<string>, gameId: Option<string>) returns (reply: JoinReply)
      requires Valid()
      modifies rooms.Values`players, rooms.Values`scores
      ensures Valid()
      ensures Blank(username) || Blank(gameId) ==> reply == RedirectToIndex
      ensures !Blank(username) && !Blank(gameId) && gameId.value !in rooms ==> reply == NotFound
      ensures forall r :: r in rooms.Values && r.players != old(r.players) ==>
        !Blank(username) && !Blank(gameId) && gameId.value in rooms && r == rooms[gameId.value]
      ensures forall r :: r in rooms.Values && r.scores != old(r.scores) ==>
        !Blank(username) && !Blank(gameId) && gameId.value in rooms && r == rooms[gameId.value]
      ensures !Blank(username) && !Blank(gameId) && gameId.value in rooms ==>
        var room, name := rooms[gameId.value], username.value;
        && reply == (if old(room.status) != Waiting then AlreadyInProgress
                     else if |old(room.players)| >= MaxPlayers then Full
                     else Joined)
        && room.players == (if reply == Joined && name !in old(room.players) then old(room.players) + [name]
                            else old(room.players))
        && room.scores == (if reply == Joined && name !in old(room.players) then old(room.scores)[name := 0]
                           else old(room.scores))
    {
      if Blank(username) || Blank(gameId) {
        return RedirectToIndex;
      }
      if gameId.value !in rooms {
        return NotFound;
      }
      reply := rooms[gameId.value].Join(username.value);
    }

    /**
     * handle_disconnect: every room whose roster holds the session's user
     * marks the user disconnected and is sent `player_disconnected`, in the
     * order the rooms were created; each event is paired with the id of the
     * room it goes to. No player is removed anywhere. Without a user in the
     * session nothing happens.
     */
    method Disconnect(username: Option<string>) returns (events: seq<(string, Event)>)
      requires Valid()
      modifies rooms.Values`disconnected
      ensures Valid()
      ensures username.None? ==> events == []
      ensures username.Some? ==>
        var held := Holding(username.value, ids, old(Rosters()));
        && |events| == |held|
        && forall i :: 0 <= i < |events| ==> events[i] == (held[i], PlayerDisconnected(username.value))
      ensures forall r :: r in rooms.Values ==>
        r.disconnected == old(r.disconnected) + if username.Some? && username.value in r.players then {username.value} else {}
    {
      if username.None? {
        return [];
      }
      var name := username.value;
      var held := Holders(name, ids, Rosters());
      events := seq(|held|, i requires 0 <= i < |held| => (held[i], PlayerDisconnected(name)));
      MarkEverywhere(name);
    }

    /** Every room that holds the player marks the player disconnected. */
    method MarkEverywhere(name: string)
      requires RoomsValid()
      modifies rooms.Values`disconnected
      ensures RoomsValid()
      ensures forall r :: r in rooms.Values ==>
        r.disconnected == old(r.disconnected) + if name in r.players then {name} else {}
    {
      forall r | r in rooms.Values
        ensures name in r.players ==> name in Elements(r.players)
      {
        InElements(r.players, name);
      }
      forall r | r in rooms.Values && name in r.players {
        r.disconnected := r.disconnected + {name};
      }
    }
  }
}
