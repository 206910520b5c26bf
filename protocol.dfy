/**
 * The server's half of the binary protocol: `encode_str`, the payload layouts of the nine
 * server messages, the bus event triple, the forwarder's filter and the inline parsers of
 * the two client frames.
 */
module Protocol {
  import opened Bytes
  import Utf8
  import opened Game

  /** `encode_str`: the UTF-8 length cut to a u16, big-endian, then the UTF-8 bytes. */
  function EncodeStr(s: string): (r: seq<byte>)
    ensures |r| == 2 + |Utf8.Encode(s)|
  {
    U16(|Utf8.Encode(s)|) + Utf8.Encode(s)
  }

  /** Strings whose encoding fits the u16 length prefix. */
  predicate Fits(s: string)
  {
    Utf8.EncodedLength(s) < U16_LIMIT
  }

  /** The names of a LobbyUpdate, each as `encode_str`, back to back. */
  function EncodeNames(ps: seq<string>): seq<byte>
  {
    if ps == [] then [] else EncodeStr(ps[0]) + EncodeNames(ps[1..])
  }

  /** One RaceResult entry: the name, then the time cut to a u64. */
  function EncodeResult(r: (string, nat)): seq<byte>
  {
    EncodeStr(r.0) + U64(r.1)
  }

  function EncodeResults(rs: seq<(string, nat)>): seq<byte>
  {
    if rs == [] then [] else EncodeResult(rs[0]) + EncodeResults(rs[1..])
  }

  /** The tag byte of each server message kind. */
  function Tag(m: ServerMsg): byte
  {
    match m
    case LobbyUpdate(_) => 2
    case NameConflict => 3
    case Countdown(_) => 4
    case StartRace(_) => 5
    case Feedback(_, _, _) => 6
    case ProgressUpdate(_, _) => 7
    case Finish(_, _) => 8
    case RaceResult(_) => 9
    case Error(_) => 255
  }

  /** The bytes after the tag. Counts, cursors and times are cut to their wire width. */
  function Payload(m: ServerMsg): seq<byte>
  {
    match m
    case LobbyUpdate(ps) => U16(|ps|) + EncodeNames(ps)
    case NameConflict => []
    case Countdown(s) => [s]
    case StartRace(t) => EncodeStr(t)
    case Feedback(ch, correct, pos) => U16(pos) + [if correct then 1 else 0] + EncodeStr(ch)
    case ProgressUpdate(n, pos) => EncodeStr(n) + U16(pos)
    case Finish(n, t) => EncodeStr(n) + U128(t)
    case RaceResult(rs) => U16(|rs|) + EncodeResults(rs)
    case Error(msg) => EncodeStr(msg)
  }

  /** The frame a client receives: the tag byte, then the payload. */
  function Frame(m: ServerMsg): seq<byte>
  {
    [Tag(m)] + Payload(m)
  }

  /** What travels on the process-wide broadcast channel: (room, tag, payload). */
  datatype BusEvent = BusEvent(room: string, tag: byte, payload: seq<byte>)

  /** What one step of the server does to the outside world, in order. */
  datatype Effect =
    | Publish(event: BusEvent)      // sent on the broadcast channel
    | Send(frame: seq<byte>)        // written directly to this connection's socket
    | SpawnCountdown(room: string)  // a countdown task started for the room

  function Broadcast(room: string, m: ServerMsg): Effect
  {
    Publish(BusEvent(room, Tag(m), Payload(m)))
  }

  function Direct(m: ServerMsg): Effect
  {
    Send(Frame(m))
  }

  /**
   * The forwarder of one connection: drops every tag-6 event, drops events for other rooms,
   * and turns the rest into a frame.
   */
  function Forward(ev: BusEvent, boundRoom: string): (frame: Option<seq<byte>>)
    ensures frame.Some? <==> ev.tag != 6 && ev.room == boundRoom
    ensures frame.Some? ==> frame.value == [ev.tag] + ev.payload
  {
    if ev.tag == 6 then None
    else if ev.room == boundRoom then Some([ev.tag] + ev.payload)
    else None
  }

  /** A message published for a room reaches that room's clients as its frame, except Feedback, which reaches nobody. */
  lemma ForwardBroadcast(room: string, m: ServerMsg, boundRoom: string)
    ensures var f := Forward(Broadcast(room, m).event, boundRoom);
      if m.Feedback? || room != boundRoom then f == None else f == Some(Frame(m))
  {
  }

  /** The server's inline string read: u16 length at off, then that many bytes, decoded lossily. */
  function ReadStr(data: seq<byte>, off: nat): (r: Option<(string, nat)>)
    ensures r.Some? ==> off + 2 <= r.value.1 <= |data|
  {
    if off + 2 <= |data| then
      var len := FromBigEndian(data[off..off + 2]);
      if off + 2 + len <= |data| then
        Some((Utf8.DecodeLossy(data[off + 2..off + 2 + len]), off + 2 + len))
      else None
    else None
  }

  /** The Join parser on the bytes after the tag; None where the source indexes out of bounds. */
  function DecodeJoin(data: seq<byte>): Option<ClientMsg>
  {
    match ReadStr(data, 0)
    case None => None
    case Some((room, off)) =>
      match ReadStr(data, off)
      case None => None
      case Some((name, off')) =>
        if off' < |data| then Some(Join(room, name, data[off'] != 0)) else None
  }

  /** The Keystroke parser on the bytes after the tag. */
  function DecodeKeystroke(data: seq<byte>): Option<ClientMsg>
  {
    match ReadStr(data, 0)
    case None => None
    case Some((ch, _)) => Some(Keystroke(ch))
  }

  lemma MiddleSlice(a: seq<byte>, b: seq<byte>, c: seq<byte>)
    ensures (a + b + c)[|a|..|a| + |b|] == b
  {
    assert forall i :: 0 <= i < |b| ==> (a + b + c)[|a| + i] == b[i];
  }

  /** Reading an `encode_str` field anywhere in a buffer gives back the string and the offset after it. */
  lemma ReadEncodedStr(pre: seq<byte>, s: string, post: seq<byte>)
    requires Fits(s)
    ensures ReadStr(pre + EncodeStr(s) + post, |pre|) == Some((s, |pre| + |EncodeStr(s)|))
  {
    var e := Utf8.Encode(s);
    Utf8.EncodedLengthIsLength(s);
    var data := pre + EncodeStr(s) + post;
    var off := |pre|;
    assert FromBigEndian(data[off..off + 2]) == |e| by {
      assert data == pre + U16(|e|) + (e + post);
      MiddleSlice(pre, U16(|e|), e + post);
      ReadU16(|e|);
    }
    assert Utf8.DecodeLossy(data[off + 2..off + 2 + |e|]) == s by {
      assert data == (pre + U16(|e|)) + e + post;
      MiddleSlice(pre + U16(|e|), e, post);
      Utf8.DecodeLossyEncode(s);
    }
  }

  lemma {:induction false} EncodeNamesSnoc(ps: seq<string>, p: string)
    ensures EncodeNames(ps + [p]) == EncodeNames(ps) + EncodeStr(p)
  {
    if ps == [] {
      assert ps + [p] == [p];
    } else {
      assert (ps + [p])[1..] == ps[1..] + [p];
      EncodeNamesSnoc(ps[1..], p);
    }
  }

  lemma {:induction false} EncodeResultsSnoc(rs: seq<(string, nat)>, r: (string, nat))
    ensures EncodeResults(rs + [r]) == EncodeResults(rs) + EncodeResult(r)
  {
    if rs == [] {
      assert rs + [r] == [r];
    } else {
      assert (rs + [r])[1..] == rs[1..] + [r];
      EncodeResultsSnoc(rs[1..], r);
    }
  }

  /** One loop step of the RaceResult builder: appending name then time extends the encoding by one entry. */
  lemma AppendResult(head: seq<byte>, done: seq<(string, nat)>, r: (string, nat), before: seq<byte>)
    requires before == head + EncodeResults(done)
    ensures before + EncodeStr(r.0) + U64(r.1) == head + EncodeResults(done + [r])
  {
    EncodeResultsSnoc(done, r);
    Regroup(head, EncodeResults(done), EncodeStr(r.0), U64(r.1));
  }

  lemma Regroup(a: seq<byte>, b: seq<byte>, c: seq<byte>, d: seq<byte>)
    ensures a + b + c + d == a + (b + (c + d))
  {
  }

  /** The LobbyUpdate payload as the handler builds it: the count, then one `extend` per player. */
  method BuildLobbyUpdate(players: seq<string>) returns (payload: seq<byte>)
    ensures payload == Payload(LobbyUpdate(players))
  {
    payload := U16(|players|);
    for i := 0 to |players|
      invariant payload == U16(|players|) + EncodeNames(players[..i])
    {
      EncodeNamesSnoc(players[..i], players[i]);
      assert players[..i + 1] == players[..i] + [players[i]];
      payload := payload + EncodeStr(players[i]);
    }
    assert players[..|players|] == players;
  }

  /** The RaceResult payload as the handler builds it: the count, then name and u64 time per finish. */
  method BuildRaceResult(finishes: seq<(string, nat)>) returns (payload: seq<byte>)
    ensures payload == Payload(RaceResult(finishes))
  {
    payload := U16(|finishes|);
    for i := 0 to |finishes|
      invariant payload == U16(|finishes|) + EncodeResults(finishes[..i])
    {
      AppendResult(U16(|finishes|), finishes[..i], finishes[i], payload);
      assert finishes[..i + 1] == finishes[..i] + [finishes[i]];
      payload := payload + EncodeStr(finishes[i].0);
      payload := payload + U64(finishes[i].1);
    }
    assert finishes[..|finishes|] == finishes;
  }

  // ---------------------------------------------------------------- Events as the handler builds them

  /** Tag 2: the roster count, then each name. */
  method LobbyEvent(room: string, players: seq<string>) returns (e: Effect)
    ensures e == Broadcast(room, LobbyUpdate(players))
  {
    var payload := BuildLobbyUpdate(players);
    e := Publish(BusEvent(room, 2, payload));
  }

  /** Tag 3, written to the requester's socket alone: the tag and nothing else. */
  method NameConflictFrame() returns (e: Effect)
    ensures e == Direct(NameConflict)
  {
    assert Frame(NameConflict) == [3];
    e := Send([3]);
  }

  /** Tag 4: one byte, the seconds left. */
  method CountdownEvent(room: string, secs: byte) returns (e: Effect)
    ensures e == Broadcast(room, Countdown(secs))
  {
    e := Publish(BusEvent(room, 4, [secs]));
  }

  /** Tag 5: the text's byte length cut to a u16, then its UTF-8 bytes. */
  method StartRaceEvent(room: string, text: string) returns (e: Effect)
    ensures e == Broadcast(room, StartRace(text))
  {
    var textBytes := Utf8.Encode(text);
    e := Publish(BusEvent(room, 5, U16(|textBytes|) + textBytes));
  }

  /** Tag 6 as written to the sender's socket: cursor, correctness byte, the key. */
  method FeedbackFrame(ch: string, correct: bool, pos: nat) returns (e: Effect)
    ensures e == Direct(Feedback(ch, correct, pos))
  {
    var fb := U16(pos) + [if correct then 1 else 0] + EncodeStr(ch);
    e := Send([6] + fb);
  }

  /** Tag 6 as published by the reconnect replay: always marked correct. */
  method FeedbackEvent(room: string, ch: string, pos: nat) returns (e: Effect)
    ensures e == Broadcast(room, Feedback(ch, true, pos))
  {
    var fb := U16(pos) + [1] + EncodeStr(ch);
    e := Publish(BusEvent(room, 6, fb));
  }

  /** Tag 7: the name, then its cursor cut to a u16. */
  method ProgressEvent(room: string, name: string, pos: nat) returns (e: Effect)
    ensures e == Broadcast(room, ProgressUpdate(name, pos))
  {
    e := Publish(BusEvent(room, 7, EncodeStr(name) + U16(pos)));
  }

  /** Tag 8: the name, then the elapsed milliseconds as a u128. */
  method FinishEvent(room: string, name: string, ms: nat) returns (e: Effect)
    ensures e == Broadcast(room, Finish(name, ms))
  {
    e := Publish(BusEvent(room, 8, EncodeStr(name) + U128(ms)));
  }

  /** Tag 9: the count of finishes, then name and u64 time per finish. */
  method RaceResultEvent(room: string, finishes: seq<(string, nat)>) returns (e: Effect)
    ensures e == Broadcast(room, RaceResult(finishes))
  {
    var rr := BuildRaceResult(finishes);
    e := Publish(BusEvent(room, 9, rr));
  }

  /** Tag 255: the message as `encode_str`. */
  method ErrorEvent(room: string, message: string) returns (e: Effect)
    ensures e == Broadcast(room, Error(message))
  {
    e := Publish(BusEvent(room, 255, EncodeStr(message)));
  }
}
