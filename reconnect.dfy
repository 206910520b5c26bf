/**
 * What a returning player's browser shows after a reconnect. The reconnect branch of the Join
 * handler publishes its replay on the room's bus: the returning socket gets it through its own
 * forwarder, which drops every Feedback, and every other socket of the room gets it as well.
 * `DirectReplay` is the same replay written to the returning socket alone.
 */
module Reconnect {
  import opened Bytes
  import opened Game
  import opened Protocol
  import opened RoomSpec
  import Client
  import Interop

  // ---------------------------------------------------------------- What one browser receives

  /** The frames one effect puts on the socket of a session bound to `room`: a published event as
      its forwarder lets it through, and a direct frame only when that session is the one acting. */
  function Delivered(e: Effect, room: string, acting: bool): (frames: seq<seq<byte>>)
    ensures |frames| <= 1
    ensures e.SpawnCountdown? ==> frames == []
    ensures e.Send? ==> (frames == if acting then [e.frame] else [])
  {
    match e
    case Publish(ev) => (match Forward(ev, room) case Some(f) => [f] case None => [])
    case Send(f) => if acting then [f] else []
    case SpawnCountdown(_) => []
  }

  /** The frames a session bound to `room` receives from the effects of one handler step, in order. */
  function Received(out: seq<Effect>, room: string, acting: bool): (frames: seq<seq<byte>>)
    ensures |frames| <= |out|
    decreases |out|
  {
    if out == [] then [] else Delivered(out[0], room, acting) + Received(out[1..], room, acting)
  }

  /** `handleServer` on each frame in turn. */
  function ReduceAll(v: Client.View, frames: seq<seq<byte>>): Client.View
    decreases |frames|, 1
  {
    if frames == [] then v else ReduceFirst(v, frames)
  }

  function ReduceFirst(v: Client.View, frames: seq<seq<byte>>): Client.View
    requires frames != []
    decreases |frames|, 0
  {
    ReduceAll(Client.Reduce(v, frames[0]), frames[1..])
  }

  lemma {:induction false} ReceivedAppend(a: seq<Effect>, b: seq<Effect>, room: string, acting: bool)
    ensures Received(a + b, room, acting) == Received(a, room, acting) + Received(b, room, acting)
    decreases |a|
  {
    if a != [] {
      assert (a + b)[1..] == a[1..] + b;
      ReceivedAppend(a[1..], b, room, acting);
    } else {
      assert a + b == b;
    }
  }

  lemma {:induction false} ReduceAllAppend(v: Client.View, f: seq<seq<byte>>, g: seq<seq<byte>>)
    ensures ReduceAll(v, f + g) == ReduceAll(ReduceAll(v, f), g)
    decreases |f|
  {
    if f != [] {
      assert (f + g)[1..] == f[1..] + g;
      assert ReduceAll(v, f + g) == ReduceFirst(v, f + g) == ReduceAll(Client.Reduce(v, f[0]), f[1..] + g);
      assert ReduceAll(v, f) == ReduceFirst(v, f);
      ReduceAllAppend(Client.Reduce(v, f[0]), f[1..], g);
    } else {
      assert f + g == g;
    }
  }

  lemma ReduceAllOne(v: Client.View, x: seq<byte>)
    ensures ReduceAll(v, [x]) == Client.Reduce(v, x)
  {
    assert ReduceAll(v, [x]) == ReduceFirst(v, [x]);
    assert [x][1..] == [];
  }

  /** The last frame is reduced last. */
  lemma ReduceAllSnoc(v: Client.View, f: seq<seq<byte>>, x: seq<byte>)
    ensures ReduceAll(v, f + [x]) == Client.Reduce(ReduceAll(v, f), x)
  {
    ReduceAllAppend(v, f, [x]);
    var u := ReduceAll(v, f);
    assert ReduceAll(u, [x]) == ReduceFirst(u, [x]) == ReduceAll(Client.Reduce(u, x), []);
  }

  // ---------------------------------------------------------------- Messages and how they travel

  function Published(room: string, ms: seq<ServerMsg>): seq<Effect>
  {
    seq(|ms|, i requires 0 <= i < |ms| => Broadcast(room, ms[i]))
  }

  function Directed(ms: seq<ServerMsg>): seq<Effect>
  {
    seq(|ms|, i requires 0 <= i < |ms| => Direct(ms[i]))
  }

  function Frames(ms: seq<ServerMsg>): seq<seq<byte>>
  {
    seq(|ms|, i requires 0 <= i < |ms| => Frame(ms[i]))
  }

  lemma PublishedAppend(room: string, a: seq<ServerMsg>, b: seq<ServerMsg>)
    ensures Published(room, a + b) == Published(room, a) + Published(room, b)
  {
  }

  lemma DirectedAppend(a: seq<ServerMsg>, b: seq<ServerMsg>)
    ensures Directed(a + b) == Directed(a) + Directed(b)
  {
  }

  lemma FramesAppend(a: seq<ServerMsg>, b: seq<ServerMsg>)
    ensures Frames(a + b) == Frames(a) + Frames(b)
  {
  }

  /** Effects that each put exactly one frame on the socket deliver those frames, in order. */
  lemma {:induction false} ReceivedSingles(out: seq<Effect>, room: string, acting: bool, fs: seq<seq<byte>>)
    requires |out| == |fs| && forall i :: 0 <= i < |out| ==> Delivered(out[i], room, acting) == [fs[i]]
    ensures Received(out, room, acting) == fs
    decreases |out|
  {
    if out != [] {
      ReceivedSingles(out[1..], room, acting, fs[1..]);
      assert [fs[0]] + fs[1..] == fs;
    }
  }

  /** Effects that put nothing on the socket deliver nothing. */
  lemma {:induction false} ReceivedNone(out: seq<Effect>, room: string, acting: bool)
    requires forall i :: 0 <= i < |out| ==> Delivered(out[i], room, acting) == []
    ensures Received(out, room, acting) == []
    decreases |out|
  {
    if out != [] {
      ReceivedNone(out[1..], room, acting);
    }
  }

  /** A message published for the room reaches a socket bound to it as its frame, unless it is a Feedback. */
  lemma DeliveredBroadcast(room: string, m: ServerMsg, acting: bool)
    ensures Delivered(Broadcast(room, m), room, acting) == if m.Feedback? then [] else [Frame(m)]
  {
    ForwardBroadcast(room, m, room);
  }

  /** A published list without Feedbacks reaches every socket of the room whole, in order. */
  lemma PublishedFrames(room: string, ms: seq<ServerMsg>, acting: bool)
    requires forall i :: 0 <= i < |ms| ==> !ms[i].Feedback?
    ensures Received(Published(room, ms), room, acting) == Frames(ms)
  {
    forall i | 0 <= i < |ms|
      ensures Delivered(Published(room, ms)[i], room, acting) == [Frames(ms)[i]]
    {
      DeliveredBroadcast(room, ms[i], acting);
    }
    ReceivedSingles(Published(room, ms), room, acting, Frames(ms));
  }

  /** A published list of Feedbacks reaches no socket at all. */
  lemma PublishedFeedback(room: string, ms: seq<ServerMsg>, acting: bool)
    requires forall i :: 0 <= i < |ms| ==> ms[i].Feedback?
    ensures Received(Published(room, ms), room, acting) == []
  {
    forall i | 0 <= i < |ms|
      ensures Delivered(Published(room, ms)[i], room, acting) == []
    {
      DeliveredBroadcast(room, ms[i], acting);
    }
    ReceivedNone(Published(room, ms), room, acting);
  }

  /** The acting socket receives a directed list whole, and no other socket receives any of it. */
  lemma ReceivedDirected(room: string, ms: seq<ServerMsg>)
    ensures Received(Directed(ms), room, true) == Frames(ms)
    ensures Received(Directed(ms), room, false) == []
  {
    ReceivedSingles(Directed(ms), room, true, Frames(ms));
    ReceivedNone(Directed(ms), room, false);
  }

  // ---------------------------------------------------------------- The replay as a message list

  /** One correct Feedback per character before the cursor. */
  function FeedbackMsgs(text: string, pos: nat): seq<ServerMsg>
    requires pos <= |text|
  {
    seq(pos, i requires 0 <= i < pos => Feedback([text[i]], true, i))
  }

  /** One ProgressUpdate per listed player. */
  function ProgressMsgs(order: seq<string>, positions: map<string, nat>): seq<ServerMsg>
    requires forall n :: n in order ==> n in positions
  {
    seq(|order|, i requires 0 <= i < |order| => ProgressUpdate(order[i], positions[order[i]]))
  }

  /** The messages of the reconnect replay, in the order the handler sends them. */
  function ReplayMessages(g: RoomState, name: string, now: nat, lobbyOrder: seq<string>,
                          progressOrder: seq<string>): seq<ServerMsg>
    requires g.Valid()
    requires forall n :: n in progressOrder ==> n in g.positions
  {
    [LobbyUpdate(lobbyOrder)] + RaceMessages(g, name, now, progressOrder)
  }

  function RaceMessages(g: RoomState, name: string, now: nat, progressOrder: seq<string>): seq<ServerMsg>
    requires g.Valid()
    requires forall n :: n in progressOrder ==> n in g.positions
  {
    if !g.Started() then [] else
      [Countdown(SecondsLeft(g.raceStart.value, now)), StartRace(g.text)]
      + (if name in g.positions then FeedbackMsgs(g.text, g.positions[name]) else [])
      + ProgressMsgs(progressOrder, g.positions)
      + (if g.AllFinished() then [RaceResult(g.finishes)] else [])
  }

  /** The replay as evidently intended: the same messages, written to the returning socket alone. */
  function DirectReplay(g: RoomState, name: string, now: nat, lobbyOrder: seq<string>,
                        progressOrder: seq<string>): seq<Effect>
    requires g.Valid()
    requires forall n :: n in progressOrder ==> n in g.positions
  {
    Directed(ReplayMessages(g, name, now, lobbyOrder, progressOrder))
  }

  // ---------------------------------------------------------------- The browser's state after it

  /** `charStates` with the first `p` of `n` cells correct and the rest pending. */
  function Marked(n: nat, p: nat): seq<Client.CharState>
  {
    seq(n, i requires 0 <= i < n => if i < p then Client.Correct else Client.Pending)
  }

  /** The room's strings and counts fit the wire and read back in the browser unchanged. */
  predicate Sendable(g: RoomState, lobbyOrder: seq<string>)
  {
    && Interop.ReadsBack(g.text) && |g.text| < U16_LIMIT
    && |lobbyOrder| < U16_LIMIT && |g.finishes| < U16_LIMIT
    && (forall n :: n in lobbyOrder ==> Interop.ReadsBack(n))
    && (forall n :: n in g.players ==> Interop.ReadsBack(n))
  }

  /** Roster, countdown and text: a race view with every cell pending and the cursor at 0. */
  lemma StartFrames(v: Client.View, order: seq<string>, secs: byte, text: string)
    requires |order| < U16_LIMIT && (forall n :: n in order ==> Interop.ReadsBack(n)) && Interop.ReadsBack(text)
    ensures var w := ReduceAll(v, Frames([LobbyUpdate(order), Countdown(secs), StartRace(text)]));
      && w.phase == Client.Race && w.text == text && w.position == 0
      && w.charStates == Marked(|text|, 0)
  {
    var fs := Frames([LobbyUpdate(order), Countdown(secs), StartRace(text)]);
    assert fs == [Frame(LobbyUpdate(order))] + [Frame(Countdown(secs))] + [Frame(StartRace(text))];
    Interop.ReduceLobbyUpdate(v, order);
    var v1 := Client.Reduce(v, Frame(LobbyUpdate(order)));
    Interop.ReduceCountdown(v1, secs);
    var v2 := Client.Reduce(v1, Frame(Countdown(secs)));
    Interop.ReduceStartRace(v2, text);
    ReduceAllSnoc(v, [Frame(LobbyUpdate(order))] + [Frame(Countdown(secs))], Frame(StartRace(text)));
    ReduceAllSnoc(v, [Frame(LobbyUpdate(order))], Frame(Countdown(secs)));
    ReduceAllOne(v, Frame(LobbyUpdate(order)));
  }

  /** A single character always fits the u16 length prefix. */
  lemma OneCharFits(c: char)
    ensures Fits([c])
  {
    assert [c][1..] == [];
  }

  lemma FeedbackMsgsSnoc(text: string, q: nat)
    requires q < |text|
    ensures Frames(FeedbackMsgs(text, q + 1)) == Frames(FeedbackMsgs(text, q)) + [Frame(Feedback([text[q]], true, q))]
  {
    var m := Feedback([text[q]], true, q);
    assert FeedbackMsgs(text, q + 1) == FeedbackMsgs(text, q) + [m];
    FramesAppend(FeedbackMsgs(text, q), [m]);
    assert Frames([m]) == [Frame(m)];
  }

  /** One replayed Feedback marks its cell correct and puts the cursor after it. */
  lemma FeedbackStep(u: Client.View, text: string, q: nat)
    requires q < |text| < U16_LIMIT && u.charStates == Marked(|text|, q)
    ensures Client.Reduce(u, Frame(Feedback([text[q]], true, q)))
         == u.(charStates := Marked(|text|, q + 1), position := q + 1)
  {
    OneCharFits(text[q]);
    Interop.ReduceFeedback(u, [text[q]], true, q);
    assert Client.SetAt(Marked(|text|, q), q, Client.Correct) == Marked(|text|, q + 1);
  }

  /** Replayed Feedbacks mark the first `p` cells correct and put the cursor after them. */
  lemma {:induction false} FeedbackFrames(w: Client.View, text: string, p: nat)
    requires p <= |text| < U16_LIMIT && w.charStates == Marked(|text|, 0)
    ensures ReduceAll(w, Frames(FeedbackMsgs(text, p)))
         == w.(charStates := Marked(|text|, p), position := if p == 0 then w.position else p)
    decreases p
  {
    if p == 0 {
      assert Frames(FeedbackMsgs(text, 0)) == [];
      assert ReduceAll(w, []) == w;
    } else {
      var q := p - 1;
      FeedbackFrames(w, text, q);
      FeedbackMsgsSnoc(text, q);
      ReduceAllSnoc(w, Frames(FeedbackMsgs(text, q)), Frame(Feedback([text[q]], true, q)));
      FeedbackStep(ReduceAll(w, Frames(FeedbackMsgs(text, q))), text, q);
    }
  }

  /** Replayed ProgressUpdates change only the others' cursors. */
  lemma {:induction false} ProgressFrames(w: Client.View, order: seq<string>, positions: map<string, nat>)
    requires forall n :: n in order ==> n in positions && Interop.ReadsBack(n) && positions[n] < U16_LIMIT
    ensures var u := ReduceAll(w, Frames(ProgressMsgs(order, positions)));
      u == w.(otherProgress := u.otherProgress)
    decreases |order|
  {
    if order == [] {
      assert Frames(ProgressMsgs(order, positions)) == [];
      assert ReduceAll(w, []) == w;
    } else {
      var init, last := order[..|order| - 1], order[|order| - 1];
      var m := ProgressUpdate(last, positions[last]);
      ProgressFrames(w, init, positions);
      assert ProgressMsgs(order, positions) == ProgressMsgs(init, positions) + [m];
      FramesAppend(ProgressMsgs(init, positions), [m]);
      assert Frames([m]) == [Frame(m)];
      ReduceAllSnoc(w, Frames(ProgressMsgs(init, positions)), Frame(m));
      Interop.ReduceProgressUpdate(ReduceAll(w, Frames(ProgressMsgs(init, positions))), last, positions[last]);
    }
  }

  /** The results, when sent, finish the race view and leave cells and cursor alone. */
  lemma ResultFrames(w: Client.View, g: RoomState)
    requires g.Valid() && |g.finishes| < U16_LIMIT && forall n :: n in g.players ==> Interop.ReadsBack(n)
    ensures var u := ReduceAll(w, Frames(if g.AllFinished() then [RaceResult(g.finishes)] else []));
      && u.text == w.text && u.position == w.position && u.charStates == w.charStates
      && u.phase == if g.AllFinished() then Client.Finished else w.phase
  {
    if g.AllFinished() {
      assert Frames([RaceResult(g.finishes)]) == [Frame(RaceResult(g.finishes))];
      ReduceAllOne(w, Frame(RaceResult(g.finishes)));
      Interop.ReduceRaceResult(w, g.finishes);
    } else {
      assert Frames([]) == [];
      assert ReduceAll(w, []) == w;
    }
  }

  /** Cursors are at most the text's length, so they fit a u16 when the text does. */
  lemma CursorsFit(g: RoomState, order: seq<string>)
    requires g.Valid() && |g.text| < U16_LIMIT && forall n :: n in g.players ==> Interop.ReadsBack(n)
    requires forall n :: n in order ==> n in g.positions
    ensures forall n :: n in order ==> n in g.positions && Interop.ReadsBack(n) && g.positions[n] < U16_LIMIT
  {
  }

  /** Roster, countdown value and text: what every replay starts with. */
  function ReplayHead(g: RoomState, now: nat, lobbyOrder: seq<string>): seq<ServerMsg>
    requires g.Started()
  {
    [LobbyUpdate(lobbyOrder), Countdown(SecondsLeft(g.raceStart.value, now)), StartRace(g.text)]
  }

  function ResultMsgs(g: RoomState): seq<ServerMsg>
  {
    if g.AllFinished() then [RaceResult(g.finishes)] else []
  }

  /** Once the race has started, the replay is its head, the Feedbacks, the cursors and the results. */
  lemma ReplayParts(g: RoomState, name: string, now: nat, lobbyOrder: seq<string>, progressOrder: seq<string>)
    requires g.Valid() && g.Started() && name in g.players
    requires forall n :: n in progressOrder ==> n in g.positions
    ensures ReplayMessages(g, name, now, lobbyOrder, progressOrder)
         == ReplayHead(g, now, lobbyOrder) + FeedbackMsgs(g.text, g.positions[name])
            + ProgressMsgs(progressOrder, g.positions) + ResultMsgs(g)
  {
  }

  lemma FeedbackPublished(room: string, text: string, p: nat)
    requires p <= |text|
    ensures FeedbackReplay(room, text, p) == Published(room, FeedbackMsgs(text, p))
  {
  }

  lemma ProgressPublished(room: string, order: seq<string>, positions: map<string, nat>)
    requires forall n :: n in order ==> n in positions
    ensures ProgressReplay(room, order, positions) == Published(room, ProgressMsgs(order, positions))
  {
  }

  /** The handler's replay is the message list, every message published on the room's bus. */
  lemma ReplayIsPublished(g: RoomState, room: string, name: string, now: nat,
                          lobbyOrder: seq<string>, progressOrder: seq<string>)
    requires g.Valid() && g.Started() && name in g.players
    requires forall n :: n in progressOrder ==> n in g.positions
    ensures ReplayEffects(g, room, name, now, lobbyOrder, progressOrder)
         == Published(room, ReplayHead(g, now, lobbyOrder)) + Published(room, FeedbackMsgs(g.text, g.positions[name]))
            + Published(room, ProgressMsgs(progressOrder, g.positions)) + Published(room, ResultMsgs(g))
  {
    var p := g.positions[name];
    var fr, pr := FeedbackReplay(room, g.text, p), ProgressReplay(room, progressOrder, g.positions);
    var rr := Published(room, ResultMsgs(g));
    var head := Published(room, ReplayHead(g, now, lobbyOrder));
    HeadPublished(g, room, now, lobbyOrder);
    ResultsPublished(g, room);
    FeedbackPublished(room, g.text, p);
    ProgressPublished(room, progressOrder, g.positions);
    assert RaceReplay(g, room, name, now, progressOrder) == head[1..] + fr + pr + rr;
    assert [head[0]] + (head[1..] + fr + pr + rr) == head + fr + pr + rr;
  }

  lemma HeadPublished(g: RoomState, room: string, now: nat, lobbyOrder: seq<string>)
    requires g.Started()
    ensures Published(room, ReplayHead(g, now, lobbyOrder))
         == [Broadcast(room, LobbyUpdate(lobbyOrder)), Broadcast(room, Countdown(SecondsLeft(g.raceStart.value, now))),
             Broadcast(room, StartRace(g.text))]
  {
  }

  lemma ResultsPublished(g: RoomState, room: string)
    ensures Published(room, ResultMsgs(g)) == if g.AllFinished() then [Broadcast(room, RaceResult(g.finishes))] else []
  {
  }

  /** Through the forwarder, the Feedbacks of the replay are gone. */
  lemma PublishedReplayFrames(g: RoomState, room: string, name: string, now: nat,
                              lobbyOrder: seq<string>, progressOrder: seq<string>, acting: bool)
    requires g.Valid() && g.Started() && name in g.players
    requires forall n :: n in progressOrder ==> n in g.positions
    ensures Received(ReplayEffects(g, room, name, now, lobbyOrder, progressOrder), room, acting)
         == Frames(ReplayHead(g, now, lobbyOrder)) + Frames(ProgressMsgs(progressOrder, g.positions))
            + Frames(ResultMsgs(g))
  {
    var head, fb := Published(room, ReplayHead(g, now, lobbyOrder)), Published(room, FeedbackMsgs(g.text, g.positions[name]));
    var pm, rr := Published(room, ProgressMsgs(progressOrder, g.positions)), Published(room, ResultMsgs(g));
    ReplayIsPublished(g, room, name, now, lobbyOrder, progressOrder);
    ReceivedAppend(head + fb + pm, rr, room, acting);
    ReceivedAppend(head + fb, pm, room, acting);
    ReceivedAppend(head, fb, room, acting);
    PublishedFrames(room, ReplayHead(g, now, lobbyOrder), acting);
    PublishedFeedback(room, FeedbackMsgs(g.text, g.positions[name]), acting);
    PublishedFrames(room, ProgressMsgs(progressOrder, g.positions), acting);
    PublishedFrames(room, ResultMsgs(g), acting);
    var fh := Frames(ReplayHead(g, now, lobbyOrder));
    assert fh + [] == fh;
  }

  /** Written directly, the replay reaches the returning socket whole and no other socket. */
  lemma DirectReplayFrames(g: RoomState, room: string, name: string, now: nat,
                           lobbyOrder: seq<string>, progressOrder: seq<string>)
    requires g.Valid() && g.Started() && name in g.players
    requires forall n :: n in progressOrder ==> n in g.positions
    ensures Received(DirectReplay(g, name, now, lobbyOrder, progressOrder), room, true)
         == Frames(ReplayHead(g, now, lobbyOrder)) + Frames(FeedbackMsgs(g.text, g.positions[name]))
            + Frames(ProgressMsgs(progressOrder, g.positions)) + Frames(ResultMsgs(g))
    ensures Received(DirectReplay(g, name, now, lobbyOrder, progressOrder), room, false) == []
  {
    var head, fb := ReplayHead(g, now, lobbyOrder), FeedbackMsgs(g.text, g.positions[name]);
    var pm, rr := ProgressMsgs(progressOrder, g.positions), ResultMsgs(g);
    ReplayParts(g, name, now, lobbyOrder, progressOrder);
    ReceivedDirected(room, ReplayMessages(g, name, now, lobbyOrder, progressOrder));
    FramesAppend(head + fb + pm, rr);
    FramesAppend(head + fb, pm);
    FramesAppend(head, fb);
  }

  /** The browser's state after the head, then `middle`, then the cursors and the results. */
  lemma AfterReplay(v: Client.View, g: RoomState, now: nat, lobbyOrder: seq<string>,
                    progressOrder: seq<string>, p: nat)
    requires g.Valid() && g.Started() && Sendable(g, lobbyOrder) && p <= |g.text|
    requires forall n :: n in progressOrder ==> n in g.positions
    ensures var v' := ReduceAll(v, Frames(ReplayHead(g, now, lobbyOrder)) + Frames(FeedbackMsgs(g.text, p))
                                   + Frames(ProgressMsgs(progressOrder, g.positions)) + Frames(ResultMsgs(g)));
      && v'.text == g.text && v'.position == p && v'.charStates == Marked(|g.text|, p)
      && v'.phase == if g.AllFinished() then Client.Finished else Client.Race
  {
    var head, fb := Frames(ReplayHead(g, now, lobbyOrder)), Frames(FeedbackMsgs(g.text, p));
    var pm, rr := Frames(ProgressMsgs(progressOrder, g.positions)), Frames(ResultMsgs(g));
    ReduceAllAppend(v, head + fb + pm, rr);
    ReduceAllAppend(v, head + fb, pm);
    ReduceAllAppend(v, head, fb);
    StartFrames(v, lobbyOrder, SecondsLeft(g.raceStart.value, now), g.text);
    var w := ReduceAll(v, head);
    FeedbackFrames(w, g.text, p);
    var u := ReduceAll(w, fb);
    CursorsFit(g, progressOrder);
    ProgressFrames(u, progressOrder, g.positions);
    ResultFrames(ReduceAll(u, pm), g);
  }

  /**
   * As written: the returning player's browser, whatever it showed before, ends on the race with
   * every cell pending and its cursor at 0, while the server keeps the player's cursor. The same
   * holds for every other browser in the room, which receives the same published frames.
   */
  lemma ReplayResetsCursor(v: Client.View, g: RoomState, room: string, name: string, now: nat,
                           lobbyOrder: seq<string>, progressOrder: seq<string>, acting: bool)
    requires g.Valid() && g.Started() && name in g.players && Sendable(g, lobbyOrder)
    requires forall n :: n in progressOrder ==> n in g.positions
    ensures var v' := ReduceAll(v, Received(ReplayEffects(g, room, name, now, lobbyOrder, progressOrder), room, acting));
      && v'.text == g.text && v'.position == 0 && v'.charStates == Marked(|g.text|, 0)
      && v'.phase == (if g.AllFinished() then Client.Finished else Client.Race)
      && (v'.position == g.positions[name] <==> g.positions[name] == 0)
  {
    PublishedReplayFrames(g, room, name, now, lobbyOrder, progressOrder, acting);
    assert Frames(FeedbackMsgs(g.text, 0)) == [];
    var head := Frames(ReplayHead(g, now, lobbyOrder));
    assert head + [] == head;
    AfterReplay(v, g, now, lobbyOrder, progressOrder, 0);
  }

  /**
   * As intended: written to the returning socket, the replay restores the player's cursor and
   * marks every character typed so far correct, and no other browser receives anything.
   */
  lemma DirectReplayRestoresCursor(v: Client.View, g: RoomState, room: string, name: string, now: nat,
                                   lobbyOrder: seq<string>, progressOrder: seq<string>)
    requires g.Valid() && g.Started() && name in g.players && Sendable(g, lobbyOrder)
    requires forall n :: n in progressOrder ==> n in g.positions
    ensures var v' := ReduceAll(v, Received(DirectReplay(g, name, now, lobbyOrder, progressOrder), room, true));
      && v'.text == g.text && v'.position == g.positions[name]
      && v'.charStates == Marked(|g.text|, g.positions[name])
      && v'.phase == if g.AllFinished() then Client.Finished else Client.Race
    ensures Received(DirectReplay(g, name, now, lobbyOrder, progressOrder), room, false) == []
  {
    DirectReplayFrames(g, room, name, now, lobbyOrder, progressOrder);
    AfterReplay(v, g, now, lobbyOrder, progressOrder, g.positions[name]);
  }
}
