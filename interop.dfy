/**
 * The two ends together: the frames the browser builds parse on the server as the message it
 * meant, and each frame the server sends changes the browser's state as that message means.
 */
module Interop {
  import opened Bytes
  import Utf8
  import opened Game
  import opened Protocol
  import Server
  import Client

  /** A string that survives the trip through the client's reader unchanged: it fits the u16
      length prefix and does not start with U+FEFF, which `TextDecoder` would drop. */
  predicate ReadsBack(s: string)
  {
    Fits(s) && (s == [] || s[0] != Client.BOM)
  }

  // ---------------------------------------------------------------- Client to server

  /** The Join parser on any bytes whose two strings read and which hold a byte after them. */
  lemma JoinBranch(data: seq<byte>, room: string, name: string, off: nat, off': nat)
    requires ReadStr(data, 0) == Some((room, off)) && ReadStr(data, off) == Some((name, off'))
    requires off' < |data|
    ensures DecodeJoin(data) == Some(Join(room, name, data[off'] != 0))
  {
  }

  /** A Join frame as `sendJoin` builds it parses on the server as that Join. */
  lemma JoinRoundTrip(room: string, name: string, reconnect: bool)
    requires Fits(room) && Fits(name)
    ensures Server.ParseFrame([0] + EncodeStr(room) + EncodeStr(name) + [if reconnect then 1 else 0])
         == Server.Decoded(Join(room, name, reconnect))
  {
    var flag: byte := if reconnect then 1 else 0;
    var r, n := EncodeStr(room), EncodeStr(name);
    JoinAt(room, name, flag);
    assert [0] + r + n + [flag] == [0] + (r + n + [flag]);
    assert ([0] + (r + n + [flag]))[1..] == r + n + [flag];
  }

  /** The bytes after the tag of a Join frame parse as that Join. */
  lemma JoinAt(room: string, name: string, flag: byte)
    requires Fits(room) && Fits(name)
    ensures DecodeJoin(EncodeStr(room) + EncodeStr(name) + [flag]) == Some(Join(room, name, flag != 0))
  {
    var r, n := EncodeStr(room), EncodeStr(name);
    var data := r + n + [flag];
    assert [] + r + (n + [flag]) == data;
    ReadEncodedStr([], room, n + [flag]);
    ReadEncodedStr(r, name, [flag]);
    JoinBranch(data, room, name, |r|, |r| + |n|);
  }

  /** A Keystroke frame as `sendKeystroke` builds it parses on the server as that key. */
  lemma KeystrokeRoundTrip(ch: string)
    requires Fits(ch)
    ensures Server.ParseFrame([1] + EncodeStr(ch)) == Server.Decoded(Keystroke(ch))
  {
    var buf := [1] + EncodeStr(ch);
    assert buf[1..] == [] + EncodeStr(ch) + [];
    ReadEncodedStr([], ch, []);
  }

  // ---------------------------------------------------------------- Server to client

  lemma U16AtEncoded(pre: seq<byte>, n: nat, post: seq<byte>)
    requires n < U16_LIMIT
    ensures Client.U16At(pre + U16(n) + post, |pre|) == Some(n)
  {
    MiddleSlice(pre, U16(n), post);
    ReadU16(n);
  }

  /** A slice holding a + b holds a, then b. */
  lemma SplitSlice(buf: seq<byte>, off: nat, a: seq<byte>, b: seq<byte>)
    requires off + |a| + |b| <= |buf| && buf[off..off + |a| + |b|] == a + b
    ensures buf[off..off + |a|] == a && buf[off + |a|..off + |a| + |b|] == b
  {
    var w := buf[off..off + |a| + |b|];
    assert buf[off..off + |a|] == w[..|a|];
    assert w[..|a|] == a;
    assert buf[off + |a|..off + |a| + |b|] == w[|a|..];
    assert w[|a|..] == b;
  }

  /** A slice holding a + b + c, of lengths la and lb for the first two, holds each in turn. */
  lemma SplitSlice3(buf: seq<byte>, off: nat, a: seq<byte>, b: seq<byte>, c: seq<byte>, la: nat, lb: nat)
    requires |a| == la && |b| == lb
    requires off + |a + b + c| <= |buf| && buf[off..off + |a + b + c|] == a + b + c
    ensures off + la + lb + |c| == off + |a + b + c| <= |buf|
    ensures buf[off..off + la] == a
    ensures buf[off + la..off + la + lb] == b
    ensures buf[off + la + lb..off + la + lb + |c|] == c
  {
    SplitSlice(buf, off, a + b, c);
    SplitSlice(buf, off, a, b);
  }

  /** `decodeString` succeeds at an offset where `encode_str` wrote any string that fits. */
  lemma DecodeStringSome(buf: seq<byte>, off: nat, s: string)
    requires Fits(s)
    requires off + |EncodeStr(s)| <= |buf| && buf[off..off + |EncodeStr(s)|] == EncodeStr(s)
    ensures Client.DecodeString(buf, off).Some?
  {
    var e := EncodeStr(s);
    assert buf == buf[..off] + e + buf[off + |e|..];
    Client.DecodeStringEncoded(buf[..off], s, buf[off + |e|..]);
  }

  /** `decodeString` at an offset where `encode_str` wrote s. */
  lemma DecodeStringAt(buf: seq<byte>, off: nat, s: string)
    requires ReadsBack(s)
    requires off + |EncodeStr(s)| <= |buf| && buf[off..off + |EncodeStr(s)|] == EncodeStr(s)
    ensures Client.DecodeString(buf, off) == Some((s, |EncodeStr(s)|))
  {
    var e := EncodeStr(s);
    assert buf == buf[..off] + e + buf[off + |e|..];
    Client.DecodeStringEncoded(buf[..off], s, buf[off + |e|..]);
  }

  /** The u16 at an offset where `U16` wrote n. */
  lemma U16AtSlice(buf: seq<byte>, off: nat, n: nat)
    requires n < U16_LIMIT && off + 2 <= |buf| && buf[off..off + 2] == U16(n)
    ensures Client.U16At(buf, off) == Some(n)
  {
    ReadU16(n);
  }

  /** The u64 at an offset where `U64` wrote n. */
  lemma U64At(buf: seq<byte>, at: nat, n: nat)
    requires at + 8 <= |buf| && buf[at..at + 8] == U64(n)
    ensures FromBigEndian(buf[at..at + 8]) == n % U64_LIMIT
  {
    ReadU64(n);
  }

  lemma NamesStep(buf: seq<byte>, off: nat, ps: seq<string>, len: nat, end: nat)
    requires ps != []
    requires Client.DecodeString(buf, off) == Some((ps[0], len))
    requires Client.DecodeNames(buf, off + len, |ps[1..]|) == Some((ps[1..], end))
    ensures Client.DecodeNames(buf, off, |ps|) == Some((ps, end))
  {
    assert [ps[0]] + ps[1..] == ps;
  }

  /** Every string in a list reads back, as a recursion the name-by-name proofs follow. */
  predicate EachReadsBack(ps: seq<string>)
    decreases |ps|
  {
    ps == [] || (ReadsBack(ps[0]) && EachReadsBack(ps[1..]))
  }

  lemma {:induction false} EachReadsBackAll(ps: seq<string>)
    requires forall i :: 0 <= i < |ps| ==> ReadsBack(ps[i])
    ensures EachReadsBack(ps)
    decreases |ps|
  {
    if ps != [] {
      var rest := ps[1..];
      assert forall i :: 0 <= i < |rest| ==> ReadsBack(rest[i]) by {
        forall i | 0 <= i < |rest| ensures ReadsBack(rest[i]) {
          assert rest[i] == ps[i + 1];
        }
      }
      EachReadsBackAll(rest);
    }
  }

  /** Where a roster sits in a buffer name by name, ending at `end`. */
  ghost predicate NamesLaidOut(buf: seq<byte>, off: nat, ps: seq<string>, end: nat)
    decreases |ps|
  {
    if ps == [] then off == end
    else
      var len := |EncodeStr(ps[0])|;
      && off + len <= |buf| && buf[off..off + len] == EncodeStr(ps[0])
      && NamesLaidOut(buf, off + len, ps[1..], end)
  }

  lemma NamesLaidOutStep(buf: seq<byte>, off: nat, ps: seq<string>, len: nat, end: nat)
    requires ps != [] && len == |EncodeStr(ps[0])| && off + len <= |buf|
    requires buf[off..off + len] == EncodeStr(ps[0])
    requires NamesLaidOut(buf, off + len, ps[1..], end)
    ensures NamesLaidOut(buf, off, ps, end)
  {
  }

  lemma {:induction false} NamesLaidOutEncoded(buf: seq<byte>, off: nat, ps: seq<string>)
    requires off + |EncodeNames(ps)| <= |buf| && buf[off..off + |EncodeNames(ps)|] == EncodeNames(ps)
    ensures NamesLaidOut(buf, off, ps, off + |EncodeNames(ps)|)
    decreases |ps|
  {
    if ps != [] {
      var head, tail := EncodeStr(ps[0]), EncodeNames(ps[1..]);
      assert EncodeNames(ps) == head + tail;
      SplitSlice(buf, off, head, tail);
      NamesLaidOutEncoded(buf, off + |head|, ps[1..]);
      NamesLaidOutStep(buf, off, ps, |head|, off + |EncodeNames(ps)|);
    }
  }

  lemma {:induction false} DecodeNamesLaidOut(buf: seq<byte>, off: nat, ps: seq<string>, end: nat)
    requires EachReadsBack(ps) && NamesLaidOut(buf, off, ps, end)
    ensures Client.DecodeNames(buf, off, |ps|) == Some((ps, end))
    decreases |ps|
  {
    if ps != [] {
      var len := |EncodeStr(ps[0])|;
      DecodeStringAt(buf, off, ps[0]);
      DecodeNamesLaidOut(buf, off + len, ps[1..], end);
      NamesStep(buf, off, ps, len, end);
    }
  }

  /** The LobbyUpdate loop reads back every name the server wrote, in order. */
  lemma DecodeNamesEncoded(buf: seq<byte>, off: nat, ps: seq<string>)
    requires forall i :: 0 <= i < |ps| ==> ReadsBack(ps[i])
    requires off + |EncodeNames(ps)| <= |buf| && buf[off..off + |EncodeNames(ps)|] == EncodeNames(ps)
    ensures Client.DecodeNames(buf, off, |ps|) == Some((ps, off + |EncodeNames(ps)|))
  {
    var end := off + |EncodeNames(ps)|;
    EachReadsBackAll(ps);
    NamesLaidOutEncoded(buf, off, ps);
    DecodeNamesLaidOut(buf, off, ps, end);
  }

  /** The results as the client holds them: each time cut to the 64 bits `getBigUint64` reads. */
  function CutTimes(rs: seq<(string, nat)>): (r: seq<(string, nat)>)
    ensures |r| == |rs|
    ensures forall i :: 0 <= i < |rs| ==> r[i] == (rs[i].0, rs[i].1 % U64_LIMIT)
  {
    if rs == [] then [] else [(rs[0].0, rs[0].1 % U64_LIMIT)] + CutTimes(rs[1..])
  }

  /** Every name in a result list reads back, as a recursion the entry-by-entry proof can follow. */
  predicate NamesReadBack(rs: seq<(string, nat)>)
    decreases |rs|
  {
    rs == [] || (ReadsBack(rs[0].0) && NamesReadBack(rs[1..]))
  }

  lemma {:induction false} NamesReadBackAll(rs: seq<(string, nat)>)
    requires forall i :: 0 <= i < |rs| ==> ReadsBack(rs[i].0)
    ensures NamesReadBack(rs)
    decreases |rs|
  {
    if rs != [] {
      var rest := rs[1..];
      assert forall i :: 0 <= i < |rest| ==> ReadsBack(rest[i].0) by {
        forall i | 0 <= i < |rest| ensures ReadsBack(rest[i].0) {
          assert rest[i] == rs[i + 1];
        }
      }
      NamesReadBackAll(rest);
    }
  }

  /** Where a result list sits in a buffer entry by entry: each name, then its 64-bit time, ending at `end`. */
  ghost predicate LaidOut(buf: seq<byte>, off: nat, rs: seq<(string, nat)>, end: nat)
    decreases |rs|
  {
    if rs == [] then off == end
    else
      var len := |EncodeStr(rs[0].0)|;
      && off + len + 8 <= |buf|
      && buf[off..off + len] == EncodeStr(rs[0].0)
      && buf[off + len..off + len + 8] == U64(rs[0].1)
      && LaidOut(buf, off + len + 8, rs[1..], end)
  }

  lemma ResultsStep(buf: seq<byte>, off: nat, rs: seq<(string, nat)>, len: nat, end: nat)
    requires rs != []
    requires Client.DecodeString(buf, off) == Some((rs[0].0, len))
    requires off + len + 8 <= |buf| && FromBigEndian(buf[off + len..off + len + 8]) == rs[0].1 % U64_LIMIT
    requires Client.DecodeResults(buf, off + len + 8, |rs[1..]|) == Some((CutTimes(rs[1..]), end))
    ensures Client.DecodeResults(buf, off, |rs|) == Some((CutTimes(rs), end))
  {
    Client.ResultHead(buf, off, |rs|, rs[0].0, len);
    assert CutTimes(rs) == [(rs[0].0, rs[0].1 % U64_LIMIT)] + CutTimes(rs[1..]);
  }

  lemma {:induction false} DecodeResultsLaidOut(buf: seq<byte>, off: nat, rs: seq<(string, nat)>, end: nat)
    requires NamesReadBack(rs) && LaidOut(buf, off, rs, end)
    ensures Client.DecodeResults(buf, off, |rs|) == Some((CutTimes(rs), end))
    decreases |rs|
  {
    if rs != [] {
      var len := |EncodeStr(rs[0].0)|;
      DecodeStringAt(buf, off, rs[0].0);
      U64At(buf, off + len, rs[0].1);
      DecodeResultsLaidOut(buf, off + len + 8, rs[1..], end);
      ResultsStep(buf, off, rs, len, end);
    }
  }

  lemma LaidOutStep(buf: seq<byte>, off: nat, rs: seq<(string, nat)>, len: nat, end: nat)
    requires rs != [] && len == |EncodeStr(rs[0].0)| && off + len + 8 <= |buf|
    requires buf[off..off + len] == EncodeStr(rs[0].0) && buf[off + len..off + len + 8] == U64(rs[0].1)
    requires LaidOut(buf, off + len + 8, rs[1..], end)
    ensures LaidOut(buf, off, rs, end)
  {
  }

  lemma {:induction false} LaidOutEncoded(buf: seq<byte>, off: nat, rs: seq<(string, nat)>)
    requires off + |EncodeResults(rs)| <= |buf| && buf[off..off + |EncodeResults(rs)|] == EncodeResults(rs)
    ensures LaidOut(buf, off, rs, off + |EncodeResults(rs)|)
    decreases |rs|
  {
    if rs != [] {
      var name, time, tail := EncodeStr(rs[0].0), U64(rs[0].1), EncodeResults(rs[1..]);
      assert EncodeResults(rs) == name + time + tail;
      SplitSlice3(buf, off, name, time, tail, |name|, 8);
      LaidOutEncoded(buf, off + |name| + 8, rs[1..]);
      LaidOutStep(buf, off, rs, |name|, off + |EncodeResults(rs)|);
    }
  }

  /** The RaceResult loop reads back every entry, with each time cut to 64 bits. */
  lemma DecodeResultsEncoded(buf: seq<byte>, off: nat, rs: seq<(string, nat)>)
    requires forall i :: 0 <= i < |rs| ==> ReadsBack(rs[i].0)
    requires off + |EncodeResults(rs)| <= |buf| && buf[off..off + |EncodeResults(rs)|] == EncodeResults(rs)
    ensures Client.DecodeResults(buf, off, |rs|) == Some((CutTimes(rs), off + |EncodeResults(rs)|))
  {
    var end := off + |EncodeResults(rs)|;
    NamesReadBackAll(rs);
    LaidOutEncoded(buf, off, rs);
    DecodeResultsLaidOut(buf, off, rs, end);
  }

  // Each frame below is read in three steps: where the frame puts its fields (a fact about sequences
  // only), what `handleServer` does on any buffer with those fields, and the two put together.

  /** The LobbyUpdate branch of `handleServer` on any buffer whose count and roster read. */
  lemma LobbyBranch(v: Client.View, buf: seq<byte>, count: nat, players: seq<string>, end: nat)
    requires 1 <= |buf| && buf[0] == 2 && Client.U16At(buf, 1) == Some(count)
    requires Client.DecodeNames(buf, 3, count) == Some((players, end))
    ensures Client.Reduce(v, buf) == v.(phase := Client.Lobby, players := players)
  {
  }

  /** A tag byte, a two-byte field and the rest, each where a reader looks for it. */
  lemma Header(tag: byte, field: seq<byte>, rest: seq<byte>)
    requires |field| == 2
    ensures var buf := [tag] + (field + rest);
      |buf| == 3 + |rest| && buf[0] == tag && buf[1..3] == field && buf[3..3 + |rest|] == rest
  {
    var buf := [tag] + (field + rest);
    assert buf[1..3] == field;
    assert buf[3..3 + |rest|] == rest;
  }

  /** The same with a one-byte flag between the field and the rest. */
  lemma FlaggedHeader(tag: byte, field: seq<byte>, flag: byte, rest: seq<byte>)
    requires |field| == 2
    ensures var buf := [tag] + ((field + [flag]) + rest);
      && |buf| == 4 + |rest| && buf[0] == tag && buf[1..3] == field && buf[3] == flag
      && buf[4..4 + |rest|] == rest
  {
    var buf := [tag] + ((field + [flag]) + rest);
    assert buf[1..3] == field;
    assert buf[4..4 + |rest|] == rest;
  }

  lemma LobbyLayout(ps: seq<string>)
    ensures var buf, e := Frame(LobbyUpdate(ps)), EncodeNames(ps);
      |buf| == 3 + |e| && buf[0] == 2 && buf[1..3] == U16(|ps|) && buf[3..3 + |e|] == e
  {
    assert Frame(LobbyUpdate(ps)) == [2] + (U16(|ps|) + EncodeNames(ps));
    Header(2, U16(|ps|), EncodeNames(ps));
  }

  lemma LobbyAt(v: Client.View, buf: seq<byte>, ps: seq<string>)
    requires |ps| < U16_LIMIT && forall i :: 0 <= i < |ps| ==> ReadsBack(ps[i])
    requires |buf| == 3 + |EncodeNames(ps)| && buf[0] == 2 && buf[1..3] == U16(|ps|)
    requires buf[3..3 + |EncodeNames(ps)|] == EncodeNames(ps)
    ensures Client.Reduce(v, buf) == v.(phase := Client.Lobby, players := ps)
  {
    U16AtSlice(buf, 1, |ps|);
    DecodeNamesEncoded(buf, 3, ps);
    LobbyBranch(v, buf, |ps|, ps, 3 + |EncodeNames(ps)|);
  }

  /** LobbyUpdate: back to the lobby, with the roster in the server's order. */
  lemma ReduceLobbyUpdate(v: Client.View, ps: seq<string>)
    requires |ps| < U16_LIMIT && forall i :: 0 <= i < |ps| ==> ReadsBack(ps[i])
    ensures Client.Reduce(v, Frame(LobbyUpdate(ps))) == v.(phase := Client.Lobby, players := ps)
  {
    LobbyLayout(ps);
    LobbyAt(v, Frame(LobbyUpdate(ps)), ps);
  }

  /** Countdown: the countdown phase, showing the seconds sent. */
  lemma ReduceCountdown(v: Client.View, secs: byte)
    ensures Client.Reduce(v, Frame(Countdown(secs))) == v.(phase := Client.Countdown, countdown := Some(secs))
  {
    assert Frame(Countdown(secs)) == [4, secs];
  }

  /** The StartRace branch of `handleServer` on any buffer whose text length reads. */
  lemma StartRaceBranch(v: Client.View, buf: seq<byte>, len: nat)
    requires 1 <= |buf| && buf[0] == 5 && Client.U16At(buf, 1) == Some(len) && 3 + len <= |buf|
    ensures var text := Client.TextDecode(buf[3..3 + len]);
      Client.Reduce(v, buf)
      == v.(phase := Client.Race, text := text, charStates := seq(|text|, _ => Client.Pending),
            position := 0, otherProgress := map[])
  {
  }

  lemma StartRaceLayout(text: string)
    ensures var buf, e := Frame(StartRace(text)), Utf8.Encode(text);
      |buf| == 3 + |e| && buf[0] == 5 && buf[1..3] == U16(|e|) && buf[3..3 + |e|] == e
  {
    var e := Utf8.Encode(text);
    assert Frame(StartRace(text)) == [5] + (U16(|e|) + e);
    Header(5, U16(|e|), e);
  }

  lemma StartRaceAt(v: Client.View, buf: seq<byte>, text: string)
    requires ReadsBack(text)
    requires |buf| == 3 + |Utf8.Encode(text)| && buf[0] == 5 && buf[1..3] == U16(|Utf8.Encode(text)|)
    requires buf[3..3 + |Utf8.Encode(text)|] == Utf8.Encode(text)
    ensures Client.Reduce(v, buf)
         == v.(phase := Client.Race, text := text, charStates := seq(|text|, _ => Client.Pending),
               position := 0, otherProgress := map[])
  {
    var e := Utf8.Encode(text);
    Utf8.EncodedLengthIsLength(text);
    U16AtSlice(buf, 1, |e|);
    Utf8.DecodeLossyEncode(text);
    StartRaceBranch(v, buf, |e|);
  }

  /** StartRace: the race phase on the text sent, every character pending, the cursor at 0 and no
      progress of others; roster, countdown and results are kept. */
  lemma ReduceStartRace(v: Client.View, text: string)
    requires ReadsBack(text)
    ensures Client.Reduce(v, Frame(StartRace(text)))
         == v.(phase := Client.Race, text := text, charStates := seq(|text|, _ => Client.Pending),
               position := 0, otherProgress := map[])
  {
    StartRaceLayout(text);
    StartRaceAt(v, Frame(StartRace(text)), text);
  }

  /** The Feedback branch of `handleServer` on any buffer whose header and key read. */
  lemma FeedbackBranch(v: Client.View, buf: seq<byte>, pos: nat, correct: bool)
    requires 4 <= |buf| && buf[0] == 6 && Client.U16At(buf, 1) == Some(pos)
    requires correct == (buf[3] != 0) && Client.DecodeString(buf, 4).Some?
    ensures Client.Reduce(v, buf)
         == v.(charStates := Client.SetAt(v.charStates, pos, if correct then Client.Correct else Client.Wrong),
               position := if correct then pos + 1 else v.position)
  {
  }

  lemma FeedbackLayout(ch: string, correct: bool, pos: nat)
    ensures var buf, e := Frame(Feedback(ch, correct, pos)), EncodeStr(ch);
      && |buf| == 4 + |e| && buf[0] == 6 && buf[1..3] == U16(pos)
      && buf[3] == (if correct then 1 else 0) && buf[4..4 + |e|] == e
  {
    var flag: byte := if correct then 1 else 0;
    assert Frame(Feedback(ch, correct, pos)) == [6] + ((U16(pos) + [flag]) + EncodeStr(ch));
    FlaggedHeader(6, U16(pos), flag, EncodeStr(ch));
  }

  lemma FeedbackAt(v: Client.View, buf: seq<byte>, ch: string, correct: bool, pos: nat)
    requires Fits(ch) && pos < U16_LIMIT
    requires |buf| == 4 + |EncodeStr(ch)| && buf[0] == 6 && buf[1..3] == U16(pos)
    requires buf[3] == (if correct then 1 else 0) && buf[4..4 + |EncodeStr(ch)|] == EncodeStr(ch)
    ensures Client.Reduce(v, buf)
         == v.(charStates := Client.SetAt(v.charStates, pos, if correct then Client.Correct else Client.Wrong),
               position := if correct then pos + 1 else v.position)
  {
    U16AtSlice(buf, 1, pos);
    DecodeStringSome(buf, 4, ch);
    FeedbackBranch(v, buf, pos, correct);
  }

  /** Feedback: the key's cell marked, and the cursor moved past it only when it was correct. */
  lemma ReduceFeedback(v: Client.View, ch: string, correct: bool, pos: nat)
    requires Fits(ch) && pos < U16_LIMIT
    ensures Client.Reduce(v, Frame(Feedback(ch, correct, pos)))
         == v.(charStates := Client.SetAt(v.charStates, pos, if correct then Client.Correct else Client.Wrong),
               position := if correct then pos + 1 else v.position)
  {
    FeedbackLayout(ch, correct, pos);
    FeedbackAt(v, Frame(Feedback(ch, correct, pos)), ch, correct, pos);
  }

  /** The ProgressUpdate branch of `handleServer` on any buffer whose name and position read. */
  lemma ProgressBranch(v: Client.View, buf: seq<byte>, name: string, len: nat, pos: nat)
    requires 1 <= |buf| && buf[0] == 7 && Client.DecodeString(buf, 1) == Some((name, len))
    requires Client.U16At(buf, 1 + len) == Some(pos)
    ensures Client.Reduce(v, buf)
         == if name == Client.PROTO then v else v.(otherProgress := v.otherProgress[name := pos])
  {
  }

  lemma ProgressLayout(name: string, pos: nat)
    ensures var buf, e := Frame(ProgressUpdate(name, pos)), EncodeStr(name);
      |buf| == 3 + |e| && buf[0] == 7 && buf[1..1 + |e|] == e && buf[1 + |e|..3 + |e|] == U16(pos)
  {
    var buf, e := Frame(ProgressUpdate(name, pos)), EncodeStr(name);
    assert buf == [7] + e + U16(pos);
  }

  lemma ProgressAt(v: Client.View, buf: seq<byte>, name: string, pos: nat)
    requires ReadsBack(name) && pos < U16_LIMIT
    requires |buf| == 3 + |EncodeStr(name)| && buf[0] == 7 && buf[1..1 + |EncodeStr(name)|] == EncodeStr(name)
    requires buf[1 + |EncodeStr(name)|..3 + |EncodeStr(name)|] == U16(pos)
    ensures Client.Reduce(v, buf)
         == if name == Client.PROTO then v else v.(otherProgress := v.otherProgress[name := pos])
  {
    DecodeStringAt(buf, 1, name);
    U16AtSlice(buf, 1 + |EncodeStr(name)|, pos);
    ProgressBranch(v, buf, name, |EncodeStr(name)|, pos);
  }

  /** ProgressUpdate: that player's cursor recorded (except under `__proto__`); nothing else changes. */
  lemma ReduceProgressUpdate(v: Client.View, name: string, pos: nat)
    requires ReadsBack(name) && pos < U16_LIMIT
    ensures Client.Reduce(v, Frame(ProgressUpdate(name, pos)))
         == if name == Client.PROTO then v else v.(otherProgress := v.otherProgress[name := pos])
  {
    ProgressLayout(name, pos);
    ProgressAt(v, Frame(ProgressUpdate(name, pos)), name, pos);
  }

  /** The RaceResult branch of `handleServer` on any buffer whose count and list read. */
  lemma ResultsBranch(v: Client.View, buf: seq<byte>, count: nat, results: seq<(string, nat)>, end: nat)
    requires 1 <= |buf| && buf[0] == 9 && Client.U16At(buf, 1) == Some(count)
    requires Client.DecodeResults(buf, 3, count) == Some((results, end))
    ensures Client.Reduce(v, buf) == v.(phase := Client.Finished, results := results)
  {
  }

  lemma RaceResultLayout(rs: seq<(string, nat)>)
    ensures var buf, e := Frame(RaceResult(rs)), EncodeResults(rs);
      |buf| == 3 + |e| && buf[0] == 9 && buf[1..3] == U16(|rs|) && buf[3..3 + |e|] == e
  {
    assert Frame(RaceResult(rs)) == [9] + (U16(|rs|) + EncodeResults(rs));
    Header(9, U16(|rs|), EncodeResults(rs));
  }

  lemma RaceResultAt(v: Client.View, buf: seq<byte>, rs: seq<(string, nat)>)
    requires |rs| < U16_LIMIT && forall i :: 0 <= i < |rs| ==> ReadsBack(rs[i].0)
    requires |buf| == 3 + |EncodeResults(rs)| && buf[0] == 9 && buf[1..3] == U16(|rs|)
    requires buf[3..3 + |EncodeResults(rs)|] == EncodeResults(rs)
    ensures Client.Reduce(v, buf) == v.(phase := Client.Finished, results := CutTimes(rs))
  {
    U16AtSlice(buf, 1, |rs|);
    DecodeResultsEncoded(buf, 3, rs);
    ResultsBranch(v, buf, |rs|, CutTimes(rs), 3 + |EncodeResults(rs)|);
  }

  /** RaceResult: the finished phase with every result in order, times cut to 64 bits. */
  lemma ReduceRaceResult(v: Client.View, rs: seq<(string, nat)>)
    requires |rs| < U16_LIMIT && forall i :: 0 <= i < |rs| ==> ReadsBack(rs[i].0)
    ensures Client.Reduce(v, Frame(RaceResult(rs)))
         == v.(phase := Client.Finished, results := CutTimes(rs))
  {
    RaceResultLayout(rs);
    RaceResultAt(v, Frame(RaceResult(rs)), rs);
  }

  /** NameConflict, Finish and Error change nothing in the client's state. */
  lemma ReduceIgnored(v: Client.View, m: ServerMsg)
    requires m.NameConflict? || m.Finish? || m.Error?
    ensures Client.Reduce(v, Frame(m)) == v
  {
  }
}
