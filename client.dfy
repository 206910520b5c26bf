/**
 * The browser client: its frame builders, its string reader, the keydown filter, and the
 * reducer `handleServer`, which changes the global `state` object field by field.
 * `Reduce` says on values what one server frame does to that object; the class `ClientState`
 * is the object itself, and its `HandleServer` is proved to act as `Reduce` says.
 *
 * A JavaScript exception (a `RangeError` from a `DataView` or `Uint8Array` over too few bytes)
 * ends the handler; since every branch reads all it needs before it writes to `state`, a frame
 * that throws leaves the state as it was.
 */
module Client {
  import opened Bytes
  import Utf8
  import Protocol

  // ---------------------------------------------------------------- Strings

  const BOM: char := '\U{FEFF}'

  /** `new TextDecoder().decode(bytes)`: lossy UTF-8 decoding that also drops a leading byte order
      mark (EF BB BF, which is the only encoding of U+FEFF). */
  function TextDecode(bs: seq<byte>): string
  {
    var d := Utf8.DecodeLossy(bs);
    if d != [] && d[0] == BOM then d[1..] else d
  }

  /** U+FEFF takes the three bytes EF BB BF. */
  lemma BomBytes()
    ensures Utf8.EncodeChar(BOM) == [0xEF, 0xBB, 0xBF]
  {
  }

  /** A decoded first character U+FEFF can only come from EF BB BF. */
  lemma LeadingBom(bs: seq<byte>)
    requires bs != []
    ensures var d := Utf8.DecodeChar(bs);
      d.Some? && d.value.0 == BOM ==> |bs| >= 3 && bs[..3] == [0xEF, 0xBB, 0xBF]
  {
    if Utf8.DecodeChar(bs).Some? {
      Utf8.EncodeDecodeChar(bs);
      BomBytes();
    }
  }

  /** `TextDecoder` gives back what `TextEncoder` encoded, unless it starts with U+FEFF. */
  lemma TextDecodeEncode(s: string)
    requires s == [] || s[0] != BOM
    ensures TextDecode(Utf8.Encode(s)) == s
  {
    Utf8.DecodeLossyEncode(s);
  }

  /** A leading EF BB BF is dropped, and the rest decoded as it stands. */
  lemma TextDecodeDropsBom(bs: seq<byte>)
    ensures TextDecode([0xEF, 0xBB, 0xBF] + bs) == Utf8.DecodeLossy(bs)
  {
    var all: seq<byte> := [0xEF, 0xBB, 0xBF] + bs;
    BomBytes();
    Utf8.DecodeEncodeChar(BOM, bs);
    assert all[3..] == bs;
    assert Utf8.DecodeLossy(all) == Utf8.DecodeLossyStep(all) == [BOM] + Utf8.DecodeLossy(bs);
  }

  /** Without a leading EF BB BF, `TextDecoder` is the lossy decoder. */
  lemma TextDecodeKeepsRest(bs: seq<byte>)
    requires |bs| < 3 || bs[..3] != [0xEF, 0xBB, 0xBF]
    ensures TextDecode(bs) == Utf8.DecodeLossy(bs)
  {
    if bs != [] {
      LeadingBom(bs);
      assert Utf8.DecodeLossy(bs) == Utf8.DecodeLossyStep(bs);
    }
  }

  /** `decodeString(buf, offset)`: the string and the number of bytes it took (2 + length), or
      None where a `DataView` or `Uint8Array` beyond the buffer throws. */
  function DecodeString(buf: seq<byte>, off: nat): (r: Option<(string, nat)>)
    ensures r.Some? ==> 2 <= r.value.1 && off + r.value.1 <= |buf|
  {
    if off + 2 <= |buf| then
      var len := FromBigEndian(buf[off..off + 2]);
      if off + 2 + len <= |buf| then Some((TextDecode(buf[off + 2..off + 2 + len]), 2 + len))
      else None
    else None
  }

  /** The client's reader and the server's accept the same buffers, take the same bytes, and agree
      on the string except for a leading U+FEFF, which only the client drops. */
  lemma DecodeStringMatchesServer(buf: seq<byte>, off: nat)
    ensures DecodeString(buf, off).Some? <==> Protocol.ReadStr(buf, off).Some?
    ensures DecodeString(buf, off).Some? ==>
      var (s, end) := Protocol.ReadStr(buf, off).value;
      && off + DecodeString(buf, off).value.1 == end
      && DecodeString(buf, off).value.0 == if s != [] && s[0] == BOM then s[1..] else s
  {
  }

  /** Reading back what `encodeString` wrote, anywhere in a buffer: the string, less a leading
      U+FEFF, and all 2 + length bytes of it. */
  lemma DecodeStringEncoded(pre: seq<byte>, s: string, post: seq<byte>)
    requires Protocol.Fits(s)
    ensures DecodeString(pre + Protocol.EncodeStr(s) + post, |pre|)
         == Some((if s != [] && s[0] == BOM then s[1..] else s, |Protocol.EncodeStr(s)|))
  {
    Protocol.ReadEncodedStr(pre, s, post);
    DecodeStringMatchesServer(pre + Protocol.EncodeStr(s) + post, |pre|);
  }

  /** The JavaScript length of a string: its UTF-16 code units, two per supplementary character. */
  function Utf16Length(s: string): (n: nat)
    ensures |s| <= n <= 2 * |s|
  {
    if s == [] then 0 else (if s[0] as int >= 0x10000 then 2 else 1) + Utf16Length(s[1..])
  }

  // ---------------------------------------------------------------- Frames the client sends

  /** `buf.set(src, at)`: copies src into the array from index at. */
  method SetBytes(a: array<byte>, src: seq<byte>, at: nat)
    requires at + |src| <= a.Length
    modifies a
    ensures a[..] == old(a[..at]) + src + old(a[at + |src|..])
  {
    for i := 0 to |src|
      invariant a[..] == old(a[..at]) + src[..i] + old(a[at + i..])
    {
      a[at + i] := src[i];
      assert src[..i + 1] == src[..i] + [src[i]];
    }
    assert src[..|src|] == src;
  }

  /** `sendJoin`: tag 0, room, name, then the reconnect flag, written with a moving offset. */
  method SendJoin(room: string, name: string, reconnect: bool) returns (frame: seq<byte>)
    ensures frame == [0] + Protocol.EncodeStr(room) + Protocol.EncodeStr(name) + [if reconnect then 1 else 0]
  {
    var roomBuf := Protocol.EncodeStr(room);
    var nameBuf := Protocol.EncodeStr(name);
    var buf := new byte[1 + |roomBuf| + |nameBuf| + 1](_ => 0);
    var off := 0;
    buf[off] := 0;
    off := off + 1;
    SetBytes(buf, roomBuf, off);
    assert buf[..off + |roomBuf|] == [0] + roomBuf;
    off := off + |roomBuf|;
    SetBytes(buf, nameBuf, off);
    assert buf[..off + |nameBuf|] == [0] + roomBuf + nameBuf;
    off := off + |nameBuf|;
    buf[off] := if reconnect then 1 else 0;
    assert buf[..] == buf[..off] + [buf[off]];
    frame := buf[..];
  }

  /** `sendKeystroke`: tag 1, the u16 length at offset 1, then the UTF-8 bytes from offset 3. */
  method SendKeystroke(ch: string) returns (frame: seq<byte>)
    ensures frame == [1] + Protocol.EncodeStr(ch)
  {
    var charUtf8 := Utf8.Encode(ch);
    var buf := new byte[1 + 2 + |charUtf8|](_ => 0);
    buf[0] := 1;
    var len := U16(|charUtf8|);
    buf[1], buf[2] := len[0], len[1];
    SetBytes(buf, charUtf8, 3);
    frame := buf[..];
  }

  // ---------------------------------------------------------------- The state object

  /** The one key a store into a plain `{}` object does not record a number under: assigning to
      `obj["__proto__"]` calls the prototype setter, which ignores anything but an object. */
  const PROTO: string := "__proto__"

  datatype Phase = Lobby | Countdown | Race | Finished

  /** One entry of `charStates`; `Hole` is an index a JavaScript array grew over without a value. */
  datatype CharState = Pending | Correct | Wrong | Hole

  /** The fields of `state`. `countdown` is None when it holds `undefined`. */
  datatype View = View(
    phase: Phase,
    players: seq<string>,
    countdown: Option<byte>,
    text: string,
    charStates: seq<CharState>,
    position: nat,
    otherProgress: map<string, nat>,
    results: seq<(string, nat)>)

  function InitialView(): View
  {
    View(Lobby, [], Some(0), "", [], 0, map[], [])
  }

  /** `arr[i] = x` on a JavaScript array: beyond the end the array grows, with holes in between. */
  function SetAt(cs: seq<CharState>, i: nat, x: CharState): (r: seq<CharState>)
    ensures |r| == if i < |cs| then |cs| else i + 1
    ensures r[i] == x
    ensures forall j :: 0 <= j < |r| && j != i ==> r[j] == if j < |cs| then cs[j] else Hole
  {
    if i < |cs| then cs[i := x] else cs + seq(i - |cs|, _ => Hole) + [x]
  }

  // ---------------------------------------------------------------- Decoding loops as functions

  /** `count` names read back to back from `off`; the offset after them. */
  function DecodeNames(buf: seq<byte>, off: nat, count: nat): (r: Option<(seq<string>, nat)>)
    ensures r.Some? ==> |r.value.0| == count && off <= r.value.1
    decreases count
  {
    if count == 0 then Some(([], off))
    else match DecodeString(buf, off)
      case None => None
      case Some((n, len)) =>
        match DecodeNames(buf, off + len, count - 1)
        case None => None
        case Some((rest, end)) => Some(([n] + rest, end))
  }

  /** `count` RaceResult entries, each a name and an 8-byte big-endian time. */
  function DecodeResults(buf: seq<byte>, off: nat, count: nat): (r: Option<(seq<(string, nat)>, nat)>)
    ensures r.Some? ==> |r.value.0| == count && off <= r.value.1
    decreases count, 1
  {
    if count == 0 then Some(([], off)) else DecodeEntry(buf, off, count)
  }

  /** The first of `count > 0` entries, then the rest. */
  function DecodeEntry(buf: seq<byte>, off: nat, count: nat): (r: Option<(seq<(string, nat)>, nat)>)
    requires count > 0
    ensures r.Some? ==> |r.value.0| == count && off <= r.value.1
    decreases count, 0
  {
    match DecodeString(buf, off)
      case None => None
      case Some((n, len)) =>
        if off + len + 8 <= |buf| then
          var t := FromBigEndian(buf[off + len..off + len + 8]);
          match DecodeResults(buf, off + len + 8, count - 1)
          case None => None
          case Some((rest, end)) => Some(([(n, t)] + rest, end))
        else None
  }

  /** The u16 at `off`, as `getUint16(0, false)` on a `DataView` from `off`. */
  function U16At(buf: seq<byte>, off: nat): (r: Option<nat>)
    ensures r.Some? ==> r.value < U16_LIMIT
  {
    assert Pow256(2) == U16_LIMIT;
    if off + 2 <= |buf| then Some(FromBigEndian(buf[off..off + 2])) else None
  }

  // ---------------------------------------------------------------- The reducer on values

  /** What `handleServer(buf)` does to `state`. */
  function Reduce(v: View, buf: seq<byte>): View
  {
    if |buf| == 0 then v  // the tag is `undefined`: the default branch
    else if buf[0] == 2 then
      match U16At(buf, 1)
      case None => v
      case Some(count) =>
        match DecodeNames(buf, 3, count)
        case None => v
        case Some((players, _)) => v.(phase := Lobby, players := players)
    else if buf[0] == 4 then
      v.(phase := Countdown, countdown := if |buf| >= 2 then Some(buf[1]) else None)
    else if buf[0] == 5 then
      match U16At(buf, 1)
      case None => v
      case Some(len) =>
        if 3 + len <= |buf| then
          var text := TextDecode(buf[3..3 + len]);
          v.(phase := Race, text := text, charStates := seq(|text|, _ => Pending), position := 0,
             otherProgress := map[])
        else v
    else if buf[0] == 6 then
      match U16At(buf, 1)
      case None => v
      case Some(pos) =>
        if |buf| < 4 then v
        else
          var correct := buf[3] != 0;
          match DecodeString(buf, 4)
          case None => v
          case Some(_) =>
            v.(charStates := SetAt(v.charStates, pos, if correct then Correct else Wrong),
               position := if correct then pos + 1 else v.position)
    else if buf[0] == 7 then
      match DecodeString(buf, 1)
      case None => v
      case Some((name, len)) =>
        match U16At(buf, 1 + len)
        case None => v
        case Some(pos) => if name == PROTO then v else v.(otherProgress := v.otherProgress[name := pos])
    else if buf[0] == 9 then
      match U16At(buf, 1)
      case None => v
      case Some(count) =>
        match DecodeResults(buf, 3, count)
        case None => v
        case Some((results, _)) => v.(phase := Finished, results := results)
    else v  // NameConflict prompts again, Finish only renders, other tags are unknown
  }

  // ---------------------------------------------------------------- The key filter

  /** The one-character string "\b" that a Backspace is sent as. */
  const BACKSPACE: string := "\U{8}"

  /** The keydown listener: the key it sends, if any. Only during a race; Backspace goes as BACKSPACE;
      any other key whose name is longer than one UTF-16 unit is dropped, except "Enter". */
  function KeyToSend(phase: Phase, key: string): (r: Option<string>)
    ensures r.Some? ==> phase == Race
    ensures r.Some? ==> r.value == (if key == "Backspace" then BACKSPACE else key)
    ensures phase == Race && key != "Backspace" && key != "Enter" ==> (r.Some? <==> Utf16Length(key) <= 1)
    ensures phase == Race && (key == "Backspace" || key == "Enter") ==> r.Some?
  {
    if phase != Race then None
    else
      var ch := if key == "Backspace" then BACKSPACE else key;
      if Utf16Length(ch) > 1 && ch != BACKSPACE && ch != "Enter" then None else Some(ch)
  }

  // ---------------------------------------------------------------- The reducer in place

  /** `Prepend(xs, r)` puts xs in front of a decoded list, keeping a failure a failure. */
  function Prepend<T>(xs: seq<T>, r: Option<(seq<T>, nat)>): Option<(seq<T>, nat)>
  {
    match r
    case None => None
    case Some((rest, end)) => Some((xs + rest, end))
  }

  lemma PrependNothing<T>(r: Option<(seq<T>, nat)>)
    ensures Prepend([], r) == r
  {
    match r
    case None =>
    case Some((rest, end)) => assert [] + rest == rest;
  }

  lemma PrependTwice<T>(xs: seq<T>, ys: seq<T>, r: Option<(seq<T>, nat)>)
    ensures Prepend(xs, Prepend(ys, r)) == Prepend(xs + ys, r)
  {
    match r
    case None =>
    case Some((rest, end)) => assert xs + (ys + rest) == xs + ys + rest;
  }

  /** The LobbyUpdate loop: one `decodeString` per name, moving `off` on by what each took. */
  method ReadNames(buf: seq<byte>, start: nat, count: nat) returns (r: Option<(seq<string>, nat)>)
    ensures r == DecodeNames(buf, start, count)
  {
    var players: seq<string> := [];
    var off: nat := start;
    PrependNothing(DecodeNames(buf, start, count));
    for i := 0 to count
      invariant DecodeNames(buf, start, count) == Prepend(players, DecodeNames(buf, off, count - i))
    {
      var name := DecodeString(buf, off);
      if name.None? {
        NamesStop(buf, start, count, players, off, count - i);
        return None;
      }
      var n, len := name.value.0, name.value.1;
      NameStep(buf, start, count, players, off, count - i, n, len);
      off := off + len;
      players := players + [n];
    }
    assert players + [] == players;
    return Some((players, off));
  }

  /** A name that does not read makes the whole roster None. */
  lemma NamesStop(buf: seq<byte>, start: nat, count: nat, players: seq<string>, off: nat, left: nat)
    requires left > 0 && DecodeString(buf, off).None?
    requires DecodeNames(buf, start, count) == Prepend(players, DecodeNames(buf, off, left))
    ensures DecodeNames(buf, start, count).None?
  {
  }

  /** A name that reads moves from what is left to what is done. */
  lemma NameStep(buf: seq<byte>, start: nat, count: nat, players: seq<string>, off: nat, left: nat, n: string, len: nat)
    requires left > 0 && DecodeString(buf, off) == Some((n, len))
    requires DecodeNames(buf, start, count) == Prepend(players, DecodeNames(buf, off, left))
    ensures DecodeNames(buf, start, count) == Prepend(players + [n], DecodeNames(buf, off + len, left - 1))
  {
    var rest := DecodeNames(buf, off + len, left - 1);
    assert DecodeNames(buf, off, left) == Prepend([n], rest) by {
      match rest
      case None =>
      case Some((ns, end)) =>
    }
    PrependTwice(players, [n], rest);
  }

  /** The RaceResult loop: a name, then `getBigUint64` on the next 8 bytes, per entry. */
  method ReadResults(buf: seq<byte>, start: nat, count: nat) returns (r: Option<(seq<(string, nat)>, nat)>)
    ensures r == DecodeResults(buf, start, count)
  {
    var results: seq<(string, nat)> := [];
    var off: nat := start;
    PrependNothing(DecodeResults(buf, start, count));
    for i := 0 to count
      invariant DecodeResults(buf, start, count) == Prepend(results, DecodeResults(buf, off, count - i))
    {
      var nm := DecodeString(buf, off);
      if nm.None? || off + nm.value.1 + 8 > |buf| {
        ResultsStop(buf, start, count, results, off, count - i);
        return None;
      }
      var n, len := nm.value.0, nm.value.1;
      var t := FromBigEndian(buf[off + len..off + len + 8]);
      ResultStep(buf, start, count, results, off, count - i, n, len);
      off := off + len + 8;
      results := results + [(n, t)];
    }
    assert results + [] == results;
    return Some((results, off));
  }

  /** A name that does not read, or too few bytes for its time, make the whole list None. */
  lemma ResultsStop(buf: seq<byte>, start: nat, count: nat, results: seq<(string, nat)>, off: nat, left: nat)
    requires left > 0
    requires DecodeString(buf, off).None? || off + DecodeString(buf, off).value.1 + 8 > |buf|
    requires DecodeResults(buf, start, count) == Prepend(results, DecodeResults(buf, off, left))
    ensures DecodeResults(buf, start, count).None?
  {
  }

  /** An entry that reads moves from what is left to what is done. */
  lemma ResultStep(buf: seq<byte>, start: nat, count: nat, results: seq<(string, nat)>, off: nat, left: nat,
                   n: string, len: nat)
    requires left > 0 && DecodeString(buf, off) == Some((n, len)) && off + len + 8 <= |buf|
    requires DecodeResults(buf, start, count) == Prepend(results, DecodeResults(buf, off, left))
    ensures DecodeResults(buf, start, count)
         == Prepend(results + [(n, FromBigEndian(buf[off + len..off + len + 8]))],
                    DecodeResults(buf, off + len + 8, left - 1))
  {
    var t := FromBigEndian(buf[off + len..off + len + 8]);
    ResultHead(buf, off, left, n, len);
    PrependTwice(results, [(n, t)], DecodeResults(buf, off + len + 8, left - 1));
  }

  /** One entry of the RaceResult list, unfolded. */
  lemma ResultHead(buf: seq<byte>, off: nat, count: nat, n: string, len: nat)
    requires count > 0 && DecodeString(buf, off) == Some((n, len)) && off + len + 8 <= |buf|
    ensures DecodeResults(buf, off, count)
         == Prepend([(n, FromBigEndian(buf[off + len..off + len + 8]))], DecodeResults(buf, off + len + 8, count - 1))
  {
    match DecodeResults(buf, off + len + 8, count - 1)
    case None =>
    case Some((rest, end)) =>
  }

  /** The global `state` object. */
  class ClientState {
    var phase: Phase
    var players: seq<string>
    var countdown: Option<byte>
    var text: string
    var charStates: seq<CharState>
    var position: nat
    var otherProgress: map<string, nat>
    var results: seq<(string, nat)>

    function Snapshot(): View
      reads this
    {
      View(phase, players, countdown, text, charStates, position, otherProgress, results)
    }

    /** The object as the page creates it: lobby, no players, countdown 0, no text. */
    constructor ()
      ensures Snapshot() == InitialView()
    {
      phase := Lobby;
      players := [];
      countdown := Some(0);
      text := "";
      charStates := [];
      position := 0;
      otherProgress := map[];
      results := [];
    }

    /** `handleServer(buf)`: read the tag, then the fields with a moving offset, then assign. */
    method HandleServer(buf: seq<byte>)
      modifies this
      ensures Snapshot() == Reduce(old(Snapshot()), buf)
    {
      if |buf| == 0 {
        return;
      }
      var off := 1;
      var tag := buf[0];
      if tag == 2 {
        var count := U16At(buf, off);
        if count.None? {
          return;
        }
        off := off + 2;
        var names := ReadNames(buf, off, count.value);
        if names.None? {
          return;
        }
        phase := Lobby;
        players := names.value.0;
      } else if tag == 4 {
        var seconds := if off < |buf| then Some(buf[off]) else None;
        phase := Countdown;
        countdown := seconds;
      } else if tag == 5 {
        var len := U16At(buf, off);
        if len.None? || off + 2 + len.value > |buf| {
          return;
        }
        off := off + 2;
        phase := Race;
        text := TextDecode(buf[off..off + len.value]);
        charStates := seq(|text|, _ => Pending);
        position := 0;
        otherProgress := map[];
      } else if tag == 6 {
        var pos := U16At(buf, off);
        if pos.None? || |buf| < 4 {
          return;
        }
        off := off + 2;
        var correct := buf[off] != 0;
        off := off + 1;
        var ch := DecodeString(buf, off);
        if ch.None? {
          return;
        }
        charStates := SetAt(charStates, pos.value, if correct then Correct else Wrong);
        if correct {
          position := pos.value + 1;
        }
      } else if tag == 7 {
        var name := DecodeString(buf, off);
        if name.None? {
          return;
        }
        off := off + name.value.1;
        var pos := U16At(buf, off);
        if pos.None? {
          return;
        }
        if name.value.0 != PROTO {
          otherProgress := otherProgress[name.value.0 := pos.value];
        }
      } else if tag == 9 {
        var count := U16At(buf, off);
        if count.None? {
          return;
        }
        off := off + 2;
        var rs := ReadResults(buf, off, count.value);
        if rs.None? {
          return;
        }
        phase := Finished;
        results := rs.value.0;
      }
    }
  }
}
