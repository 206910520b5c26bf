/**
 * The game's data: the two message sets and the per-room state.
 * The room state is a record updated in place by the connection handler; here it is the
 * class `Room`, whose fields are the record's fields, with `RoomState` as its value snapshot.
 */
module Game {
  import opened Bytes
  import Utf8

  /** What a client may send. */
  datatype ClientMsg =
    | Join(room: string, name: string, reconnect: bool)
    | Keystroke(ch: string)

  /** What the server may send: nine kinds. Times are milliseconds. */
  datatype ServerMsg =
    | LobbyUpdate(players: seq<string>)
    | NameConflict
    | Countdown(secondsLeft: byte)
    | StartRace(text: string)
    | Feedback(ch: string, correct: bool, position: nat)
    | ProgressUpdate(name: string, position: nat)
    | Finish(name: string, timeMs: nat)
    | RaceResult(results: seq<(string, nat)>)
    | Error(message: string)

  /** The text every room races on. */
  const DEFAULT_TEXT: string := "The quick brown fox"

  /** A value snapshot of one room. `raceStart` is a millisecond timestamp of a monotonic clock. */
  datatype RoomState = RoomState(
    players: set<string>,
    positions: map<string, nat>,
    finishes: seq<(string, nat)>,
    text: string,
    raceStart: Option<nat>)
  {
    /** A race has started iff its start time is recorded. */
    predicate Started()
    {
      raceStart.Some?
    }

    /** The server's test for "everyone finished": as many finishes as players. */
    predicate AllFinished()
    {
      |finishes| == |players|
    }

    /** The finish test compares the cursor with the text's length in bytes. */
    function ByteLength(): nat
    {
      |Utf8.Encode(text)|
    }

    /** The invariant every reachable room keeps. */
    predicate Valid()
    {
      && positions.Keys == players
      && (forall n :: n in positions ==> positions[n] <= |text|)
      && (!Started() ==> finishes == [])
      && (forall i :: 0 <= i < |finishes| ==>
            finishes[i].0 in players && positions[finishes[i].0] == |text|)
      && (forall i, j :: 0 <= i < j < |finishes| ==> finishes[i].0 != finishes[j].0)
    }
  }

  /** The state a room is created with on its first Join. */
  function NewRoomState(): RoomState
  {
    RoomState({}, map[], [], DEFAULT_TEXT, None)
  }

  /** The room record the handler mutates in place. */
  class Room {
    var players: set<string>
    var positions: map<string, nat>
    var finishes: seq<(string, nat)>
    var text: string
    var raceStart: Option<nat>

    function State(): RoomState
      reads this
    {
      RoomState(players, positions, finishes, text, raceStart)
    }

    /** A room as the registry creates it: empty, not started, with the fixed text. */
    constructor ()
      ensures State() == NewRoomState()
      ensures State().Valid()
    {
      players := {};
      positions := map[];
      finishes := [];
      text := DEFAULT_TEXT;
      raceStart := None;
    }
  }
}
