/**
 * The connection handler: the registry of rooms (one map behind one lock), the per-connection
 * session with its bound room and name, and one method per incoming WebSocket message.
 * Every handler is proved to act on the registry exactly as the value-level transitions of
 * module RoomSpec say, and to keep every room's invariant.
 */
module Server {
  import opened Bytes
  import Utf8
  import opened Game
  import opened Protocol
  import opened RoomSpec

  /** A session's binding: the room its forwarder listens to ("" until a Join binds it), and its name. */
  datatype Binding = Binding(room: string, name: Option<string>)

  /** What the socket yields: a binary frame, a close frame, anything else (ignored), or `Gone`:
      the stream ended or a read failed, which ends the receive loop without the Close cleanup. */
  datatype WsMessage = Binary(data: seq<byte>) | Close | Other | Gone

  /** How the handler reads a binary frame: a client message, an unknown tag, or a frame so short
      that the handler's unchecked indexing panics. */
  datatype Inbound = Decoded(msg: ClientMsg) | UnknownTag | Malformed

  function ParseFrame(buf: seq<byte>): Inbound
  {
    if |buf| == 0 then Malformed
    else if buf[0] == 0 then
      match DecodeJoin(buf[1..])
      case None => Malformed
      case Some(m) => Decoded(m)
    else if buf[0] == 1 then
      match DecodeKeystroke(buf[1..])
      case None => Malformed
      case Some(m) => Decoded(m)
    else UnknownTag
  }

  // ---------------------------------------------------------------- Transitions on values

  /** A Join: the room is created if absent, then changed as `JoinState` says; the session is bound
      when the Join is a reconnect of a present name or admits a new one. */
  ghost predicate JoinDone(rooms: map<string, RoomState>, b: Binding, room: string, name: string,
                           reconnect: bool, now: nat,
                           rooms': map<string, RoomState>, b': Binding, out: seq<Effect>)
    requires AllValid(rooms)
  {
    var g := RoomBefore(rooms, room);
    && rooms' == rooms[room := JoinState(g, name)]
    && b' == (if JoinBinds(g, name, reconnect) then Binding(room, Some(name)) else b)
    && JoinEffects(out, room, g, name, reconnect, now)
  }

  /** A Keystroke acts only for a bound session whose room exists. */
  ghost predicate KeyDone(rooms: map<string, RoomState>, b: Binding, ch: string, now: nat,
                          rooms': map<string, RoomState>, out: seq<Effect>)
  {
    if b.name.Some? && b.room in rooms then
      && rooms' == rooms[b.room := KeyStep(rooms[b.room], b.name.value, ch, now)]
      && out == KeyEffects(rooms[b.room], b.room, b.name.value, ch, now)
    else
      rooms' == rooms && out == []
  }

  /** A Close always unbinds the name (the room is kept); a bound player leaves the lobby and the
      new roster is published, while after the start nothing changes. */
  ghost predicate CloseDone(rooms: map<string, RoomState>, b: Binding,
                            rooms': map<string, RoomState>, b': Binding, out: seq<Effect>)
  {
    && b' == b.(name := None)
    && if b.name.Some? && b.room in rooms then
         var g := rooms[b.room];
         && rooms' == rooms[b.room := Leave(g, b.name.value)]
         && if g.Started() then out == []
            else exists xs :: Enumerates(xs, Leave(g, b.name.value).players)
                              && out == [Broadcast(b.room, LobbyUpdate(xs))]
       else
         rooms' == rooms && out == []
  }

  /** One iteration of the handler's receive loop. */
  ghost predicate StepDone(rooms: map<string, RoomState>, b: Binding, msg: WsMessage, now: nat,
                           rooms': map<string, RoomState>, b': Binding, open': bool, out: seq<Effect>)
    requires AllValid(rooms)
  {
    match msg
    case Binary(buf) =>
      (match ParseFrame(buf)
       case Malformed => rooms' == rooms && b' == b && !open' && out == []
       case UnknownTag =>
         rooms' == rooms && b' == b && open' && out == [Broadcast(b.room, Error("Invalid message"))]
       case Decoded(Join(room, name, reconnect)) =>
         open' && JoinDone(rooms, b, room, name, reconnect, now, rooms', b', out)
       case Decoded(Keystroke(ch)) =>
         open' && b' == b && KeyDone(rooms, b, ch, now, rooms', out))
    case Close => !open' && CloseDone(rooms, b, rooms', b', out)
    case Other => rooms' == rooms && b' == b && open' && out == []
    case Gone => rooms' == rooms && b' == b && !open' && out == []
  }

  // ---------------------------------------------------------------- Helpers of the handler

  /** Lists a hash set in its (unspecified) iteration order. */
  method Enumerate(s: set<string>) returns (xs: seq<string>)
    ensures Enumerates(xs, s)
  {
    xs := [];
    var rest := s;
    while rest != {}
      invariant rest <= s
      invariant forall i, j :: 0 <= i < j < |xs| ==> xs[i] != xs[j]
      invariant forall x :: x in xs <==> x in s && x !in rest
      decreases |rest|
    {
      var x :| x in rest;
      xs := xs + [x];
      rest := rest - {x};
    }
  }

  /** The two length bytes read as `u16::from_be_bytes`. */
  lemma TwoBytes(data: seq<byte>, off: nat)
    requires off + 2 <= |data|
    ensures FromBigEndian(data[off..off + 2]) == data[off] as int * 256 + data[off + 1]
  {
    var two := data[off..off + 2];
    assert two[..1][..0] == [];
    assert two[..1] == [data[off]];
  }

  /** The handler's own step-by-step read of one length-prefixed string at `off`: the two
      `u16::from_be_bytes` bytes, then the lossy UTF-8 slice (ws.rs:77-83, 211-213). It is the
      executable counterpart of the specification function `ReadStr`, proved equal to it;
      None where the source's indexing panics. */
  method ReadField(data: seq<byte>, off: nat) returns (r: Option<(string, nat)>)
    ensures r == ReadStr(data, off)
  {
    if off + 2 > |data| {
      return None;
    }
    TwoBytes(data, off);
    var len := data[off] as int * 256 + data[off + 1];
    var start := off + 2;
    if start + len > |data| {
      return None;
    }
    var s := Utf8.DecodeLossy(data[start..start + len]);
    return Some((s, start + len));
  }

  /** The feedback replay loop: one correct Feedback per character before the cursor. */
  method ReplayFeedback(room: string, text: string, pos: nat) returns (evs: seq<Effect>)
    requires pos <= |text|
    ensures evs == FeedbackReplay(room, text, pos)
  {
    evs := [];
    for i := 0 to pos
      invariant evs == FeedbackReplay(room, text, i)
    {
      var e := FeedbackEvent(room, [text[i]], i);
      evs := evs + [e];
    }
  }

  /** The progress replay loop: one ProgressUpdate per entry of the cursor map, in its order. */
  method ReplayProgress(room: string, order: seq<string>, positions: map<string, nat>) returns (evs: seq<Effect>)
    requires forall n :: n in order ==> n in positions
    ensures evs == ProgressReplay(room, order, positions)
  {
    evs := [];
    for j := 0 to |order|
      invariant evs == ProgressReplay(room, order[..j], positions)
    {
      var e := ProgressEvent(room, order[j], positions[order[j]]);
      evs := evs + [e];
    }
    assert order[..|order|] == order;
  }

  /** The reconnect branch: publishes the replay and changes nothing. */
  method Replay(game: Room, room: string, name: string, now: nat) returns (out: seq<Effect>)
    requires game.State().Valid() && name in game.players
    ensures exists xs, ys :: Enumerates(xs, game.players) && Enumerates(ys, game.positions.Keys)
                             && out == ReplayEffects(game.State(), room, name, now, xs, ys)
  {
    var players := Enumerate(game.players);
    var lobby := LobbyEvent(room, players);
    var others := Enumerate(game.positions.Keys);
    var rest := RaceReplayEvents(game, room, name, now, others);
    out := [lobby] + rest;
    assert Enumerates(players, game.players) && Enumerates(others, game.positions.Keys)
           && out == ReplayEffects(game.State(), room, name, now, players, others);
  }

  /** The replay events that follow the roster once the race start is recorded. */
  method RaceReplayEvents(game: Room, room: string, name: string, now: nat, others: seq<string>)
    returns (evs: seq<Effect>)
    requires game.State().Valid() && name in game.players
    requires forall n :: n in others ==> n in game.positions
    ensures evs == RaceReplay(game.State(), room, name, now, others)
  {
    evs := [];
    if game.raceStart.Some? {
      var elapsed := Elapsed(game.raceStart.value, now) / 1000;
      var remaining: byte := if elapsed < 3 then 3 - elapsed else 0;
      var cd := CountdownEvent(room, remaining);
      var sr := StartRaceEvent(room, game.text);
      var fbs := ReplayFeedback(room, game.text, game.positions[name]);
      var pus := ReplayProgress(room, others, game.positions);
      var rr := [];
      if |game.finishes| == |game.players| {
        var e := RaceResultEvent(room, game.finishes);
        rr := [e];
      }
      evs := [cd, sr] + fbs + pus + rr;
    }
  }

  // ---------------------------------------------------------------- The registry

  /** The countdown loop: one Countdown per second left, from 3 down to 1. */
  method CountdownTicks(room: string) returns (ticks: seq<Effect>)
    ensures |ticks| == 3
    ensures forall k :: 0 <= k < 3 ==> ticks[k] == Broadcast(room, Countdown(3 - k))
  {
    ticks := [];
    var sec: byte := 3;
    while sec >= 1
      invariant sec <= 3 && |ticks| == 3 - sec
      invariant forall k :: 0 <= k < |ticks| ==> ticks[k] == Broadcast(room, Countdown(3 - k))
    {
      var e := CountdownEvent(room, sec);
      ticks := ticks + [e];
      sec := sec - 1;
    }
  }

  /** The three ticks the countdown loop publishes, followed by StartRace, are the countdown's effects. */
  lemma CountdownOrder(ticks: seq<Effect>, room: string, text: string)
    requires |ticks| == 3
    requires forall k :: 0 <= k < 3 ==> ticks[k] == Broadcast(room, Countdown(3 - k))
    ensures ticks + [Broadcast(room, StartRace(text))] == CountdownEffects(room, text)
  {
  }

  lemma UpdateTwice(m: map<string, RoomState>, k: string, a: RoomState, b: RoomState)
    ensures m[k := a][k := b] == m[k := b]
  {
  }

  /** After `Entry`, the registry holds the room's prior value (created if absent) at `room`. */
  lemma EntryState(before: map<string, RoomState>, mid: map<string, RoomState>, room: string)
    requires room in before ==> mid == before
    requires room !in before ==> mid == before[room := NewRoomState()]
    ensures mid == before[room := RoomBefore(before, room)]
  {
    if room in before {
      assert before[room := before[room]] == before;
    }
  }

  /** All rooms, keyed by name. Rooms are created on first Join and never removed.
      `states` is the registry seen as values: the state of every room object. */
  class Registry {
    var rooms: map<string, Room>
    ghost var states: map<string, RoomState>

    /** Every room object holds its value in `states`, that value keeps the room invariant, and no
        two names share a room object. */
    ghost predicate Valid()
      reads this, rooms.Values
    {
      && (forall k :: k in states <==> k in rooms)
      && (forall k :: k in rooms ==> rooms[k].State() == states[k] && states[k].Valid())
      && (forall k, k' :: k in rooms && k' in rooms && k != k' ==> rooms[k] != rooms[k'])
    }

    constructor ()
      ensures Valid() && states == map[]
    {
      rooms := map[];
      states := map[];
    }

    /** Valid for every room but `room`, whose object is left out of the frame: changing that
        object keeps this predicate. */
    ghost predicate ValidExcept(room: string)
      reads this, rooms.Values - (if room in rooms then {rooms[room]} else {})
    {
      && (forall k :: k in states <==> k in rooms)
      && (forall k, k' :: k in rooms && k' in rooms && k != k' ==> rooms[k] != rooms[k'])
      && (forall k :: k in rooms && k != room ==> rooms[k].State() == states[k] && states[k].Valid())
    }

    /** Before one room is changed in place: the others stay valid whatever happens to it. */
    lemma Release(room: string)
      requires Valid() && room in rooms
      ensures ValidExcept(room) && rooms[room].State() == states[room]
    {
    }

    /** After one room was changed in place: record its new value. */
    ghost method Commit(room: string)
      requires room in rooms && ValidExcept(room) && rooms[room].State().Valid()
      modifies this
      ensures Valid() && rooms == old(rooms)
      ensures states == old(states)[room := rooms[room].State()]
    {
      states := states[room := rooms[room].State()];
    }

    /** `entry(room).or_insert_with(..)`: the existing room, or a new one inserted. */
    method Entry(room: string) returns (game: Room)
      requires Valid()
      modifies this
      ensures Valid() && room in rooms && rooms[room] == game
      ensures room in old(rooms) ==> rooms == old(rooms) && states == old(states)
      ensures room !in old(rooms) ==>
        && fresh(game) && rooms == old(rooms)[room := game]
        && states == old(states)[room := NewRoomState()]
    {
      if room in rooms {
        game := rooms[room];
      } else {
        game := new Room();
        rooms := rooms[room := game];
        states := states[room := game.State()];
      }
    }

    /** Join under the registry lock: create the room if needed, then reconnect (replay), reject
        the name, or admit it. `binds` says whether the session is bound to (room, name). */
    method Join(room: string, name: string, reconnect: bool, now: nat) returns (out: seq<Effect>, binds: bool)
      requires Valid()
      modifies this, rooms.Values
      ensures Valid()
      ensures var g := RoomBefore(old(states), room);
        && states == old(states)[room := JoinState(g, name)]
        && binds == JoinBinds(g, name, reconnect)
        && JoinEffects(out, room, g, name, reconnect, now)
    {
      ghost var before := states;
      var game := Entry(room);
      ghost var g := game.State();
      EntryState(before, states, room);
      assert g == RoomBefore(before, room);
      if reconnect && name in game.players {
        out := Replay(game, room, name, now);
        binds := true;
      } else if name in game.players {
        var e := NameConflictFrame();
        out := [e];
        binds := false;
      } else {
        AdmitKeepsValid(g, name);
        Release(room);
        out := AdmitPlayer(game, room, name);
        Commit(room);
        UpdateTwice(before, room, g, Admit(g, name));
        binds := true;
      }
    }

    /** The countdown task: Countdown 3, 2, 1, then the start time is recorded, then StartRace. */
    method RunCountdown(room: string, now: nat) returns (out: seq<Effect>)
      requires Valid() && room in rooms
      modifies this, rooms[room]
      ensures Valid() && rooms == old(rooms)
      ensures states == old(states)[room := StartAt(old(states)[room], now)]
      ensures out == CountdownEffects(room, old(states)[room].text)
    {
      out := CountdownTicks(room);
      var game := rooms[room];
      ghost var g := game.State();
      StartKeepsValid(g, now);
      Release(room);
      var text := game.text;
      game.raceStart := Some(now);
      assert game.State() == StartAt(g, now);
      Commit(room);
      var sr := StartRaceEvent(room, text);
      CountdownOrder(out, room, text);
      out := out + [sr];
    }
  }

  // ---------------------------------------------------------------- Changes to one room

  /** The keystroke logic on the locked room: the room changes as `KeyStep` says and the effects
      are those of `KeyEffects`. */
  method TypeKey(game: Room, room: string, name: string, ch: string, now: nat) returns (out: seq<Effect>)
    modifies game
    ensures game.State() == KeyStep(old(game.State()), name, ch, now)
    ensures out == KeyEffects(old(game.State()), room, name, ch, now)
  {
    ghost var g := game.State();
    out := [];
    if name in game.positions {
      var pos := game.positions[name];
      var correct := pos < |game.text| && ch == [game.text[pos]];
      assert correct == IsCorrect(g.text, pos, ch);
      if correct {
        game.positions := game.positions[name := pos + 1];
      }
      ghost var g1 := game.State();
      var fb := FeedbackFrame(ch, correct, pos);
      var newPos := game.positions[name];
      var pu := ProgressEvent(room, name, newPos);
      var tail := [];
      if correct && newPos >= |Utf8.Encode(game.text)| {
        if game.raceStart.Some? {
          var elapsed := Elapsed(game.raceStart.value, now);
          game.finishes := game.finishes + [(name, elapsed)];
          assert game.State() == g1.(finishes := g.finishes + [(name, elapsed)]);
          var fin := FinishEvent(room, name, elapsed);
          var rr := [];
          if |game.finishes| == |game.players| {
            var e := RaceResultEvent(room, game.finishes);
            rr := [e];
          }
          tail := [fin] + rr;
        }
      }
      assert game.State() == KeyStep(g, name, ch, now);
      out := [fb, pu] + tail;
    }
  }

  /** Admitting a new name to the locked room: roster and cursor updated, roster published, and a
      countdown spawned when 3 or more players are in. */
  method AdmitPlayer(game: Room, room: string, name: string) returns (out: seq<Effect>)
    requires name !in game.players
    modifies game
    ensures game.State() == Admit(old(game.State()), name)
    ensures exists xs :: Enumerates(xs, game.players) && out == AdmitEffects(game.State(), room, xs)
  {
    game.players := game.players + {name};
    game.positions := game.positions[name := 0];
    var players := Enumerate(game.players);
    var lobby := LobbyEvent(room, players);
    out := [lobby];
    if |game.players| >= 3 {
      out := out + [SpawnCountdown(room)];
    }
    assert Enumerates(players, game.players) && out == AdmitEffects(game.State(), room, players);
  }

  /** A departing player on the locked room: dropped, with the roster republished, only before the start. */
  method LeavePlayer(game: Room, room: string, name: string) returns (out: seq<Effect>)
    modifies game
    ensures game.State() == Leave(old(game.State()), name)
    ensures old(game.State()).Started() ==> out == []
    ensures !old(game.State()).Started() ==>
      exists xs :: Enumerates(xs, game.players) && out == [Broadcast(room, LobbyUpdate(xs))]
  {
    out := [];
    if game.raceStart.None? {
      game.players := game.players - {name};
      game.positions := game.positions - {name};
      var players := Enumerate(game.players);
      var lobby := LobbyEvent(room, players);
      out := [lobby];
      assert Enumerates(players, game.players) && out == [Broadcast(room, LobbyUpdate(players))];
    }
  }

  // ---------------------------------------------------------------- The connection handler

  /** The binding of a new connection: no room (the empty name) and no player. */
  const Unbound := Binding("", None)

  /** Join: the registry part, then the session is bound when the Join binds it. */
  method HandleJoin(reg: Registry, b: Binding, room: string, name: string, reconnect: bool, now: nat)
    returns (b': Binding, out: seq<Effect>)
    requires reg.Valid()
    modifies reg, reg.rooms.Values
    ensures reg.Valid()
    ensures JoinDone(old(reg.states), b, room, name, reconnect, now, reg.states, b', out)
  {
    var binds;
    out, binds := reg.Join(room, name, reconnect, now);
    b' := if binds then Binding(room, Some(name)) else b;
  }

  /** Keystroke: for a bound session whose room exists, the keystroke logic on that room. */
  method HandleKeystroke(reg: Registry, b: Binding, ch: string, now: nat) returns (out: seq<Effect>)
    requires reg.Valid()
    modifies reg, reg.rooms.Values
    ensures reg.Valid() && reg.rooms == old(reg.rooms)
    ensures KeyDone(old(reg.states), b, ch, now, reg.states, out)
  {
    out := [];
    if b.name.None? || b.room !in reg.rooms {
      return;
    }
    var game := reg.rooms[b.room];
    KeyStepKeepsValid(game.State(), b.name.value, ch, now);
    reg.Release(b.room);
    out := TypeKey(game, b.room, b.name.value, ch, now);
    reg.Commit(b.room);
  }

  /** Close: take the name; a player still in the lobby leaves it and the roster is republished. */
  method HandleClose(reg: Registry, b: Binding) returns (b': Binding, out: seq<Effect>)
    requires reg.Valid()
    modifies reg, reg.rooms.Values
    ensures reg.Valid() && reg.rooms == old(reg.rooms)
    ensures CloseDone(old(reg.states), b, reg.states, b', out)
  {
    b' := b.(name := None);
    out := [];
    if b.name.Some? && b.room in reg.rooms {
      var game := reg.rooms[b.room];
      LeaveKeepsValid(game.State(), b.name.value);
      reg.Release(b.room);
      out := LeavePlayer(game, b.room, b.name.value);
      reg.Commit(b.room);
    }
  }

  /** One message of the receive loop: dispatch on the tag after parsing with a moving offset.
      `open` is false when the loop ends, by a Close or by a panic on a short frame. */
  method Step(reg: Registry, b: Binding, msg: WsMessage, now: nat) returns (b': Binding, open: bool, out: seq<Effect>)
    requires reg.Valid()
    modifies reg, reg.rooms.Values
    ensures reg.Valid()
    ensures StepDone(old(reg.states), b, msg, now, reg.states, b', open, out)
  {
    b', open, out := b, true, [];
    match msg {
      case Binary(buf) =>
        if |buf| == 0 {
          return b, false, [];
        }
        var tag := buf[0];
        var data := buf[1..];
        if tag == 0 {
          var roomField := ReadField(data, 0);
          if roomField.None? {
            return b, false, [];
          }
          var (room, off) := roomField.value;
          var nameField := ReadField(data, off);
          if nameField.None? {
            return b, false, [];
          }
          var (name, off') := nameField.value;
          if off' >= |data| {
            return b, false, [];
          }
          var reconnect := data[off'] != 0;
          b', out := HandleJoin(reg, b, room, name, reconnect, now);
        } else if tag == 1 {
          var chField := ReadField(data, 0);
          if chField.None? {
            return b, false, [];
          }
          out := HandleKeystroke(reg, b, chField.value.0, now);
        } else {
          var e := ErrorEvent(b.room, "Invalid message");
          out := [e];
        }
      case Close =>
        b', out := HandleClose(reg, b);
        open := false;
      case Other =>
      case Gone =>
        open := false;
    }
  }
}
