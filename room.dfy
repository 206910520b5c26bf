/**
 * The room transitions of the connection handler, stated on `RoomState` values: what a Join,
 * a Keystroke, a Close and the countdown task do to one room, and which effects they produce.
 * The handler methods in module Server are proved to act exactly as these functions say.
 */
module RoomSpec {
  import opened Bytes
  import Utf8
  import opened Game
  import opened Protocol

  /** Milliseconds since `start` by a monotonic clock: never negative. */
  function Elapsed(start: nat, now: nat): nat
  {
    if now >= start then now - start else 0
  }

  /** The room a Join acts on: the existing one, or a fresh one created on first use. */
  function RoomBefore(rooms: map<string, RoomState>, room: string): RoomState
  {
    if room in rooms then rooms[room] else NewRoomState()
  }

  /** Every room of the registry keeps the room invariant. */
  predicate AllValid(rooms: map<string, RoomState>)
  {
    forall k :: k in rooms ==> rooms[k].Valid()
  }

  /** xs lists every element of s exactly once, in some order (a hash set's iteration). */
  ghost predicate Enumerates(xs: seq<string>, s: set<string>)
  {
    && (forall i, j :: 0 <= i < j < |xs| ==> xs[i] != xs[j])
    && (forall x :: x in xs <==> x in s)
  }

  // ---------------------------------------------------------------- Join

  /** A new name enters the roster with its cursor at 0. */
  function Admit(g: RoomState, name: string): RoomState
  {
    g.(players := g.players + {name}, positions := g.positions[name := 0])
  }

  /** A Join changes the room only when the name is not present yet. */
  function JoinState(g: RoomState, name: string): RoomState
  {
    if name in g.players then g else Admit(g, name)
  }

  /** Whether a Join binds the session: a reconnect of a present name, or an admitted new name. */
  predicate JoinBinds(g: RoomState, name: string, reconnect: bool)
  {
    reconnect || name !in g.players
  }

  /** Admit publishes the roster, and spawns a countdown whenever 3 or more players remain. */
  function AdmitEffects(g': RoomState, room: string, order: seq<string>): seq<Effect>
  {
    [Broadcast(room, LobbyUpdate(order))] + (if |g'.players| >= 3 then [SpawnCountdown(room)] else [])
  }

  /** Seconds of countdown left, as the replay reports it: 3 minus whole seconds elapsed, at least 0. */
  function SecondsLeft(start: nat, now: nat): byte
  {
    var e := Elapsed(start, now) / 1000;
    if e < 3 then 3 - e else 0
  }

  /** One correct Feedback per character already typed. */
  function FeedbackReplay(room: string, text: string, pos: nat): (r: seq<Effect>)
    requires pos <= |text|
    ensures |r| == pos
  {
    seq(pos, i requires 0 <= i < pos => Broadcast(room, Feedback([text[i]], true, i)))
  }

  /** One ProgressUpdate per listed player, with that player's cursor. */
  function ProgressReplay(room: string, order: seq<string>, positions: map<string, nat>): (r: seq<Effect>)
    requires forall n :: n in order ==> n in positions
    ensures |r| == |order|
  {
    seq(|order|, i requires 0 <= i < |order| => Broadcast(room, ProgressUpdate(order[i], positions[order[i]])))
  }

  /** The events a reconnect publishes to bring the returning client up to date. */
  function ReplayEffects(g: RoomState, room: string, name: string, now: nat,
                         lobbyOrder: seq<string>, progressOrder: seq<string>): seq<Effect>
    requires g.Valid()
    requires forall n :: n in progressOrder ==> n in g.positions
  {
    [Broadcast(room, LobbyUpdate(lobbyOrder))] + RaceReplay(g, room, name, now, progressOrder)
  }

  /** The part of the replay sent once a start time is recorded: the countdown value, the text,
      the returning player's correct keys, every cursor, and the results if all have finished. */
  function RaceReplay(g: RoomState, room: string, name: string, now: nat,
                      progressOrder: seq<string>): seq<Effect>
    requires g.Valid()
    requires forall n :: n in progressOrder ==> n in g.positions
  {
    if !g.Started() then [] else
      [Broadcast(room, Countdown(SecondsLeft(g.raceStart.value, now))), Broadcast(room, StartRace(g.text))]
      + (if name in g.positions then FeedbackReplay(room, g.text, g.positions[name]) else [])
      + ProgressReplay(room, progressOrder, g.positions)
      + (if g.AllFinished() then [Broadcast(room, RaceResult(g.finishes))] else [])
  }

  /** The three outcomes of a Join and what each emits. */
  ghost predicate JoinEffects(out: seq<Effect>, room: string, g: RoomState, name: string, reconnect: bool, now: nat)
    requires g.Valid()
  {
    if reconnect && name in g.players then
      exists xs, ys :: Enumerates(xs, g.players) && Enumerates(ys, g.positions.Keys)
                       && out == ReplayEffects(g, room, name, now, xs, ys)
    else if name in g.players then
      out == [Direct(NameConflict)]
    else
      exists xs :: Enumerates(xs, g.players + {name}) && out == AdmitEffects(Admit(g, name), room, xs)
  }

  // ---------------------------------------------------------------- Keystroke

  /** A key is correct iff it is exactly the one character under the cursor. */
  predicate IsCorrect(text: string, pos: nat, ch: string)
  {
    pos < |text| && ch == [text[pos]]
  }

  /** The Keystroke transition: advance on a correct key; record a finish when the cursor reaches
      the text's byte length in a started race. */
  function KeyStep(g: RoomState, name: string, ch: string, now: nat): RoomState
  {
    if name !in g.positions then g
    else
      var pos := g.positions[name];
      if !IsCorrect(g.text, pos, ch) then g
      else
        var g1 := g.(positions := g.positions[name := pos + 1]);
        if pos + 1 >= g.ByteLength() && g.Started() then
          g1.(finishes := g.finishes + [(name, Elapsed(g.raceStart.value, now))])
        else g1
  }

  /** Feedback to the sender, ProgressUpdate to the room (even for a wrong key), then Finish and
      RaceResult when they apply. */
  function KeyEffects(g: RoomState, room: string, name: string, ch: string, now: nat): seq<Effect>
  {
    if name !in g.positions then []
    else
      var pos := g.positions[name];
      var correct := IsCorrect(g.text, pos, ch);
      var g' := KeyStep(g, name, ch, now);
      var newPos := g'.positions[name];
      [Direct(Feedback(ch, correct, pos)), Broadcast(room, ProgressUpdate(name, newPos))]
      + if correct && newPos >= g.ByteLength() && g.Started() then
          [Broadcast(room, Finish(name, Elapsed(g.raceStart.value, now)))]
          + (if g'.AllFinished() then [Broadcast(room, RaceResult(g'.finishes))] else [])
        else []
  }

  // ---------------------------------------------------------------- Close and countdown

  /** A departing player is dropped only while no race has started. */
  function Leave(g: RoomState, name: string): RoomState
  {
    if g.Started() then g else g.(players := g.players - {name}, positions := g.positions - {name})
  }

  /** The countdown task: Countdown 3, 2, 1, then (after recording the start) StartRace. */
  function CountdownEffects(room: string, text: string): seq<Effect>
  {
    [Broadcast(room, Countdown(3)), Broadcast(room, Countdown(2)), Broadcast(room, Countdown(1)),
     Broadcast(room, StartRace(text))]
  }

  function StartAt(g: RoomState, now: nat): RoomState
  {
    g.(raceStart := Some(now))
  }

  // ---------------------------------------------------------------- Properties

  function FinishedNames(fs: seq<(string, nat)>): set<string>
  {
    set i | 0 <= i < |fs| :: fs[i].0
  }

  /** The fixed text is ASCII, so the finish test's byte length equals its character count. */
  lemma DefaultTextLength()
    ensures NewRoomState().ByteLength() == |DEFAULT_TEXT| == 19
  {
    assert Utf8.IsAscii(DEFAULT_TEXT) by {
      forall i | 0 <= i < |DEFAULT_TEXT| ensures DEFAULT_TEXT[i] as int < 0x80 {
      }
    }
    Utf8.EncodeLength(DEFAULT_TEXT);
  }

  /** Admitting a new name keeps the invariant; the newcomer sits at cursor 0. */
  lemma AdmitKeepsValid(g: RoomState, name: string)
    requires g.Valid() && name !in g.players
    ensures Admit(g, name).Valid()
    ensures Admit(g, name).positions[name] == 0
    ensures Admit(g, name).finishes == g.finishes && Admit(g, name).raceStart == g.raceStart
  {
    var g' := Admit(g, name);
    forall i | 0 <= i < |g'.finishes|
      ensures g'.finishes[i].0 in g'.players && g'.positions[g'.finishes[i].0] == |g'.text|
    {
      assert g.finishes[i].0 != name;
    }
  }

  /** The cursor advances by exactly one iff the key is the character under it; other cursors, the
      roster, the text and the recorded start never change. */
  lemma KeyStepCursor(g: RoomState, name: string, ch: string, now: nat)
    requires g.Valid() && name in g.players
    ensures var g' := KeyStep(g, name, ch, now);
      && g'.players == g.players && g'.positions.Keys == g.positions.Keys
      && g'.positions[name] == g.positions[name] + (if IsCorrect(g.text, g.positions[name], ch) then 1 else 0)
      && g'.positions[name] <= |g.text|
      && (forall n :: n in g.positions && n != name ==> g'.positions[n] == g.positions[n])
      && g'.text == g.text && g'.raceStart == g.raceStart
  {
  }

  /** Finishes are only appended, once, on the correct key that reaches the end of a started race. */
  lemma KeyStepFinish(g: RoomState, name: string, ch: string, now: nat)
    requires g.Valid() && name in g.players
    ensures var g' := KeyStep(g, name, ch, now);
      var pos := g.positions[name];
      if IsCorrect(g.text, pos, ch) && pos + 1 >= g.ByteLength() && g.Started()
      then g'.finishes == g.finishes + [(name, Elapsed(g.raceStart.value, now))]
      else g'.finishes == g.finishes
  {
  }

  /** A keystroke keeps the room invariant; in particular no name is recorded as finished twice. */
  lemma KeyStepKeepsValid(g: RoomState, name: string, ch: string, now: nat)
    requires g.Valid()
    ensures KeyStep(g, name, ch, now).Valid()
  {
    var g' := KeyStep(g, name, ch, now);
    if name in g.positions && IsCorrect(g.text, g.positions[name], ch) {
      var pos := g.positions[name];
      Utf8.EncodeLength(g.text);
      forall i | 0 <= i < |g.finishes|
        ensures g.finishes[i].0 != name
      {
        assert g.positions[g.finishes[i].0] == |g.text| > pos;
      }
      forall i | 0 <= i < |g'.finishes|
        ensures g'.finishes[i].0 in g'.players && g'.positions[g'.finishes[i].0] == |g'.text|
      {
        if i < |g.finishes| {
          assert g'.finishes[i] == g.finishes[i];
        }
      }
    }
  }

  /** Once a player's cursor is at the end of the text, further keys change nothing in the room. */
  lemma KeyStepAtEnd(g: RoomState, room: string, name: string, ch: string, now: nat)
    requires g.Valid() && name in g.players && g.positions[name] == |g.text|
    ensures KeyStep(g, name, ch, now) == g
    ensures KeyEffects(g, room, name, ch, now)
         == [Direct(Feedback(ch, false, |g.text|)), Broadcast(room, ProgressUpdate(name, |g.text|))]
  {
  }

  /** Leaving before the start removes the name from roster and cursors, and nothing else changes;
      after the start nothing changes at all. */
  lemma LeaveKeepsValid(g: RoomState, name: string)
    requires g.Valid()
    ensures Leave(g, name).Valid()
    ensures !g.Started() ==>
      var g' := Leave(g, name);
      && g'.players == g.players - {name} && g'.positions.Keys == g.positions.Keys - {name}
      && (forall n :: n in g'.positions ==> g'.positions[n] == g.positions[n])
      && g'.finishes == g.finishes && g'.text == g.text && g'.raceStart == g.raceStart
    ensures g.Started() ==> Leave(g, name) == g
  {
  }

  /** Recording the start keeps the invariant, sets the start to `now` and changes nothing else.
      No other room update clears it: `AdmitKeepsValid`, `KeyStepCursor` and `LeaveKeepsValid`
      each keep `raceStart`. */
  lemma StartKeepsValid(g: RoomState, now: nat)
    requires g.Valid()
    ensures StartAt(g, now).Valid() && StartAt(g, now).Started()
    ensures StartAt(g, now).raceStart == Some(now)
      && StartAt(g, now).players == g.players && StartAt(g, now).positions == g.positions
      && StartAt(g, now).finishes == g.finishes && StartAt(g, now).text == g.text
  {
  }

  lemma {:induction false} FinishedNamesCount(fs: seq<(string, nat)>)
    requires forall i, j :: 0 <= i < j < |fs| ==> fs[i].0 != fs[j].0
    ensures |FinishedNames(fs)| == |fs|
  {
    if fs != [] {
      var init := fs[..|fs| - 1];
      var last := fs[|fs| - 1];
      FinishedNamesCount(init);
      assert FinishedNames(fs) == FinishedNames(init) + {last.0} by {
        forall n | n in FinishedNames(fs) ensures n in FinishedNames(init) + {last.0} {
          var i :| 0 <= i < |fs| && fs[i].0 == n;
          if i < |fs| - 1 {
            assert init[i] == fs[i];
          }
        }
        forall n | n in FinishedNames(init) ensures n in FinishedNames(fs) {
          var i :| 0 <= i < |init| && init[i].0 == n;
          assert fs[i] == init[i];
        }
      }
      assert last.0 !in FinishedNames(init) by {
        forall i | 0 <= i < |init| ensures init[i].0 != last.0 {
          assert init[i] == fs[i];
        }
      }
    }
  }

  /** The server's "all finished" test (equal counts) means exactly that every player has finished. */
  lemma AllFinishedMeansEveryone(g: RoomState)
    requires g.Valid()
    ensures g.AllFinished() <==> g.players <= FinishedNames(g.finishes)
  {
    var done := FinishedNames(g.finishes);
    FinishedNamesCount(g.finishes);
    assert done <= g.players;
    if g.players <= done {
      assert done == g.players;
    }
    if g.AllFinished() {
      assert |g.players - done| == |g.players| - |done| == 0;
    }
  }
}
