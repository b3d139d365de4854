/** The file-access layer of egkdump: the `Card` transport, the five
    one-frame commands (SELECT and the four READ variants) and the chained
    read `readBinaryFull`.  The card is a script of replies, so every run of
    the dump is determined by the script, and a run is described by the
    frames it sends and the result it returns. */
module FileAccess {
  import opened Common
  import opened Apdu

  /** A transport failure passes through as it is; a status word other than
      9000 becomes a `cardError`. */
  datatype Error = TransportError(message: string) | CardError(sw: uint16)

  /** A response APDU always carries its two status-word bytes. */
  type ResponseBytes = r: seq<uint8> | |r| >= 2 witness [0x90, 0x00]

  /** One answer of the card: a response APDU or a transport failure. */
  datatype Reply = Response(raw: ResponseBytes) | Broken(message: string)

  /** What a card whose script has run out answers. */
  const Exhausted: string := "no more replies"

  function Next(script: seq<Reply>): (r: Reply)
    ensures |script| == 0 ==> r == Broken(Exhausted)
  {
    if |script| == 0 then Broken(Exhausted) else script[0]
  }

  function Rest(script: seq<Reply>): (r: seq<Reply>)
    ensures |r| == if |script| == 0 then 0 else |script| - 1
  {
    if |script| == 0 then [] else script[1..]
  }

  const SwOk: uint16 := 0x9000
  const SwEndOfFile: uint16 := 0x6B00

  /** How every command turns the card's reply into its result: the payload
      when the status word is 9000, `cardError(sw)` otherwise, and a
      transport error unchanged. */
  function ExchangeOutcome(reply: Reply): (r: Result<seq<uint8>, Error>)
    ensures reply.Broken? ==> r == Failure(TransportError(reply.message))
    ensures reply.Response? ==>
              var n := |reply.raw|;
              var sw := BigEndian16(reply.raw[n - 2], reply.raw[n - 1]);
              (r.Success? <==> sw == SwOk)
              && (r.Success? ==> r.value + [0x90, 0x00] == reply.raw)
              && (r.Failure? ==> r.error == CardError(sw))
  {
    match reply
    case Broken(m) => Failure(TransportError(m))
    case Response(raw) =>
      var res := DecodeResponseApdu(raw);
      if res.sw == SwOk then Success(res.payload) else Failure(CardError(res.sw))
  }

  /** The card: the replies it still has to give and the frames it has been
      sent, oldest first. */
  class Card {
    var script: seq<Reply>
    var sent: seq<seq<uint8>>

    constructor (replies: seq<Reply>)
      ensures script == replies && sent == []
    {
      script := replies;
      sent := [];
    }

    /** `Card.Transmit`: logs the frame and gives the next reply. */
    method Transmit(cmd: seq<uint8>) returns (reply: Reply)
      modifies this
      ensures reply == Next(old(script)) && script == Rest(old(script))
      ensures sent == old(sent) + [cmd]
    {
      reply := Next(script);
      script := Rest(script);
      sent := sent + [cmd];
    }
  }

  // ---------------------------------------------------------------------
  // The frames

  /** Go's `0x80|b` on a byte. */
  function SetHighBit(b: uint8): (r: uint8)
    ensures r >= 0x80 && r % 0x80 == b % 0x80
  {
    if b < 0x80 then b + 0x80 else b
  }

  /** Go's `byte(b<<3 | 0x04)`: the low five bits of b, then binary 100. */
  function RecordP2(b: uint8): (r: uint8)
    ensures r % 8 == 4 && r / 8 == b % 32
  {
    (b * 8) % 0x100 + 4
  }

  /** SELECT by AID, no response data requested, framed by the encoder as
      written (see `SelectFrameMisread` for the two AID lengths where that
      matters). */
  function SelectFrame(aid: seq<uint8>): seq<uint8>
    requires |aid| <= ApduMaxExtended
  {
    EncodeApdu(0x00, 0xA4, 0x04, 0x0C, aid, 0)
  }

  /** READ BINARY at a 16-bit offset in the current file. */
  function ReadBinaryFrame(offset: uint16, le: int): seq<uint8>
    requires InRange(le)
  {
    EncodeCommand(0x00, 0xB0, offset / 0x100, offset % 0x100, [], le)
  }

  /** READ BINARY of the file with a short file identifier. */
  function ReadBinarySfidFrame(sfid: uint8, offset: uint8, le: int): seq<uint8>
    requires InRange(le)
  {
    EncodeCommand(0x00, 0xB0, SetHighBit(sfid), offset, [], le)
  }

  /** READ RECORD number idx of the current file. */
  function ReadRecordFrame(idx: uint8, le: int): seq<uint8>
    requires InRange(le)
  {
    EncodeCommand(0x00, 0xB2, idx, 0x04, [], le)
  }

  /** READ RECORD number idx of the file with a short file identifier. */
  function ReadRecordSfidFrame(sfid: uint8, idx: uint8, le: int): seq<uint8>
    requires InRange(le)
  {
    EncodeCommand(0x00, 0xB2, idx, RecordP2(sfid), [], le)
  }

  /** The read frames carry no data, so they are the frames the encoder as
      written produces. */
  lemma FramesAsWritten(sfid: uint8, offset: uint16, b: uint8, le: int)
    requires InRange(le)
    ensures ReadBinaryFrame(offset, le) == EncodeApdu(0x00, 0xB0, offset / 0x100, offset % 0x100, [], le)
    ensures ReadBinarySfidFrame(sfid, b, le) == EncodeApdu(0x00, 0xB0, SetHighBit(sfid), b, [], le)
    ensures ReadRecordFrame(b, le) == EncodeApdu(0x00, 0xB2, b, 0x04, [], le)
    ensures ReadRecordSfidFrame(sfid, b, le) == EncodeApdu(0x00, 0xB2, b, RecordP2(sfid), [], le)
  {
    EncodeCommandAgrees(0x00, 0xB0, offset / 0x100, offset % 0x100, [], le);
    EncodeCommandAgrees(0x00, 0xB0, SetHighBit(sfid), b, [], le);
    EncodeCommandAgrees(0x00, 0xB2, b, 0x04, [], le);
    EncodeCommandAgrees(0x00, 0xB2, b, RecordP2(sfid), [], le);
  }

  /** The offset a READ BINARY frame addresses, read from P1 and P2. */
  function FrameOffset(f: seq<uint8>): int
    requires |f| >= 4
  {
    (f[2] as int) * 0x100 + f[3]
  }

  /** A card reading a READ BINARY frame finds the offset it was built
      for, no data and the Ne asked for; from offset 0x8000 on, P1 has its
      high bit set, which ISO/IEC 7816-4 reads as a short file identifier. */
  lemma ReadBinaryFrameReadsBack(offset: uint16, le: int)
    requires InRange(le)
    ensures var f := ReadBinaryFrame(offset, le);
            var c := ParseCommand(f);
            c.Some? && c.value.ins == 0xB0 && c.value.data == []
            && c.value.p1 * 0x100 + c.value.p2 == offset == FrameOffset(f)
            && c.value.ne == NeOf(le, IsExtendedCommand([], le))
            && (c.value.p1 >= 0x80 <==> offset >= 0x8000)
  {
    EncodeCommandRoundTrip(0x00, 0xB0, offset / 0x100, offset % 0x100, [], le);
  }

  /** For every other AID length the SELECT frame reads back with its AID
      and no Le. */
  lemma SelectFrameReadsBack(aid: seq<uint8>)
    requires |aid| < ApduMaxExtended && |aid| != ApduMaxShort
    ensures ParseCommand(SelectFrame(aid)) == Some(Command(0x00, 0xA4, 0x04, 0x0C, aid, 0))
  {
    EncodeCommandAgrees(0x00, 0xA4, 0x04, 0x0C, aid, 0);
    EncodeCommandRoundTrip(0x00, 0xA4, 0x04, 0x0C, aid, 0);
  }

  /** An AID of exactly 256 or 65536 bytes gets an Lc of zero, and the card
      does not find that AID in the frame. */
  lemma SelectFrameMisread(aid: seq<uint8>)
    requires |aid| == ApduMaxShort || |aid| == ApduMaxExtended
    ensures var p := ParseCommand(SelectFrame(aid));
            p.None? || p.value.data != aid
  {
    if |aid| == ApduMaxShort {
      ShortLc256Misread(0x00, 0xA4, 0x04, 0x0C, aid, 0);
    } else {
      ExtendedLc65536Misread(0x00, 0xA4, 0x04, 0x0C, aid, 0);
    }
  }

  /** The short-file-identifier frames keep the identifier's low bits. */
  lemma SfidFramesReadBack(sfid: uint8, b: uint8, le: int)
    requires InRange(le)
    ensures var c := ParseCommand(ReadBinarySfidFrame(sfid, b, le));
            c.Some? && c.value.ins == 0xB0 && c.value.p1 >= 0x80 && c.value.p1 % 0x80 == sfid % 0x80
            && c.value.p2 == b && c.value.data == []
    ensures var c := ParseCommand(ReadRecordSfidFrame(sfid, b, le));
            c.Some? && c.value.ins == 0xB2 && c.value.p1 == b && c.value.p2 / 8 == sfid % 32
            && c.value.p2 % 8 == 4 && c.value.data == []
  {
    EncodeCommandRoundTrip(0x00, 0xB0, SetHighBit(sfid), b, [], le);
    EncodeCommandRoundTrip(0x00, 0xB2, b, RecordP2(sfid), [], le);
  }

  // ---------------------------------------------------------------------
  // The one-frame commands

  /** Sends one frame and interprets the reply. */
  method Exchange(card: Card, frame: seq<uint8>) returns (r: Result<seq<uint8>, Error>)
    modifies card
    ensures card.sent == old(card.sent) + [frame] && card.script == Rest(old(card.script))
    ensures r == ExchangeOutcome(Next(old(card.script)))
  {
    var reply := card.Transmit(frame);
    r := ExchangeOutcome(reply);
  }

  method SelectAid(card: Card, aid: seq<uint8>) returns (err: Option<Error>)
    requires |aid| <= ApduMaxExtended
    modifies card
    ensures card.sent == old(card.sent) + [SelectFrame(aid)] && card.script == Rest(old(card.script))
    ensures var o := ExchangeOutcome(Next(old(card.script)));
            err == if o.Success? then None else Some(o.error)
  {
    var r := Exchange(card, SelectFrame(aid));
    if r.Failure? {
      return Some(r.error);
    }
    return None;
  }

  method ReadBinary(card: Card, offset: uint16, le: int) returns (r: Result<seq<uint8>, Error>)
    requires InRange(le)
    modifies card
    ensures card.sent == old(card.sent) + [ReadBinaryFrame(offset, le)] && card.script == Rest(old(card.script))
    ensures r == ExchangeOutcome(Next(old(card.script)))
  {
    r := Exchange(card, ReadBinaryFrame(offset, le));
  }

  method ReadBinarySfid(card: Card, sfid: uint8, offset: uint8, le: int) returns (r: Result<seq<uint8>, Error>)
    requires InRange(le)
    modifies card
    ensures card.sent == old(card.sent) + [ReadBinarySfidFrame(sfid, offset, le)]
    ensures card.script == Rest(old(card.script))
    ensures r == ExchangeOutcome(Next(old(card.script)))
  {
    r := Exchange(card, ReadBinarySfidFrame(sfid, offset, le));
  }

  method ReadRecord(card: Card, idx: uint8, le: int) returns (r: Result<seq<uint8>, Error>)
    requires InRange(le)
    modifies card
    ensures card.sent == old(card.sent) + [ReadRecordFrame(idx, le)] && card.script == Rest(old(card.script))
    ensures r == ExchangeOutcome(Next(old(card.script)))
  {
    r := Exchange(card, ReadRecordFrame(idx, le));
  }

  method ReadRecordSfid(card: Card, sfid: uint8, idx: uint8, le: int) returns (r: Result<seq<uint8>, Error>)
    requires InRange(le)
    modifies card
    ensures card.sent == old(card.sent) + [ReadRecordSfidFrame(sfid, idx, le)]
    ensures card.script == Rest(old(card.script))
    ensures r == ExchangeOutcome(Next(old(card.script)))
  {
    r := Exchange(card, ReadRecordSfidFrame(sfid, idx, le));
  }

  // ---------------------------------------------------------------------
  // The chained read

  /** The file `readBinaryFull` always starts on. */
  const EfCChAut: uint8 := 1

  /** No further request once this many bytes are held. */
  const ReadLimit: nat := 0x1_0000

  /** A run: the result, the frames sent, in order, and the replies the
      card has left for whatever is read next. */
  datatype Trace = Trace(result: Result<seq<uint8>, Error>, frames: seq<seq<uint8>>, left: seq<Reply>)

  /** After a failed READ BINARY: end of file keeps what was read, any other
      error drops it. */
  function AfterFailure(e: Error, raw: seq<uint8>): (r: Result<seq<uint8>, Error>)
    ensures r.Success? <==> e == CardError(SwEndOfFile)
    ensures r.Success? ==> r.value == raw
    ensures r.Failure? ==> r.error == e
  {
    if e == CardError(SwEndOfFile) then Success(raw) else Failure(e)
  }

  /** The loop of `readBinaryFull` from `raw` on: READ BINARY at the number
      of bytes held, appended to them, until the limit or a failure. */
  function ReadOn(script: seq<Reply>, raw: seq<uint8>): Trace
    decreases |script|
  {
    if |raw| >= ReadLimit then Trace(Success(raw), [], script)
    else
      var frame := ReadBinaryFrame(|raw|, ApduMaxExtended);
      match ExchangeOutcome(Next(script))
      case Failure(e) => Trace(AfterFailure(e, raw), [frame], Rest(script))
      case Success(buf) =>
        var t := ReadOn(Rest(script), raw + buf);
        Trace(t.result, [frame] + t.frames, t.left)
  }

  /** `readBinaryFull`: a first READ BINARY of EF.C.CH.AUT by short file
      identifier, whose failure (end of file included) is returned, then
      the loop. */
  function ReadFull(script: seq<Reply>): Trace
  {
    var frame := ReadBinarySfidFrame(EfCChAut, 0, ApduMaxExtended);
    match ExchangeOutcome(Next(script))
    case Failure(e) => Trace(Failure(e), [frame], Rest(script))
    case Success(raw) =>
      var t := ReadOn(Rest(script), raw);
      Trace(t.result, [frame] + t.frames, t.left)
  }

  /** `readBinaryFull(card, sfid)`.  Whatever `sfid` is, the run is the one
      `ReadFull` describes. */
  method ReadBinaryFull(card: Card, sfid: uint8) returns (r: Result<seq<uint8>, Error>)
    modifies card
    ensures var t := ReadFull(old(card.script));
            r == t.result && card.sent == old(card.sent) + t.frames && card.script == t.left
  {
    ghost var script0 := card.script;
    ghost var sent0 := card.sent;
    var first := ReadBinarySfid(card, EfCChAut, 0, ApduMaxExtended);
    if first.Failure? {
      ReadFullFirstFailure(script0);
      return Failure(first.error);
    }
    ghost var frame := ReadBinarySfidFrame(EfCChAut, 0, ApduMaxExtended);
    ghost var u := ReadOn(Rest(script0), first.value);
    ReadFullStep(script0, first.value);
    assert card.script == Rest(script0) && card.sent == sent0 + [frame];
    r := ReadRemaining(card, first.value);
    assert r == u.result && card.sent == sent0 + [frame] + u.frames && card.script == u.left;
    LogAppend(sent0, frame, u.frames);
  }

  /** The loop of `readBinaryFull`, from `raw` on. */
  method ReadRemaining(card: Card, raw0: seq<uint8>) returns (r: Result<seq<uint8>, Error>)
    modifies card
    ensures var t := ReadOn(old(card.script), raw0);
            r == t.result && card.sent == old(card.sent) + t.frames && card.script == t.left
  {
    ghost var t := ReadOn(card.script, raw0);
    ghost var sent0 := card.sent;
    var raw := raw0;
    while |raw| < ReadLimit
      invariant t.result == ReadOn(card.script, raw).result
      invariant sent0 + t.frames == card.sent + ReadOn(card.script, raw).frames
      invariant t.left == ReadOn(card.script, raw).left
      decreases |card.script|
    {
      ghost var script := card.script;
      ghost var sent := card.sent;
      var buf := ReadBinary(card, |raw|, ApduMaxExtended);
      if buf.Failure? {
        ReadOnStop(script, raw);
        if buf.error.CardError? && buf.error.sw == SwEndOfFile {
          return Success(raw);
        }
        return Failure(buf.error);
      }
      ReadOnStep(script, raw, buf.value);
      LogAppend(sent, ReadBinaryFrame(|raw|, ApduMaxExtended), ReadOn(card.script, raw + buf.value).frames);
      raw := raw + buf.value;
    }
    assert ReadOn(card.script, raw).frames == [];
    return Success(raw);
  }

  lemma LogAppend(log: seq<seq<uint8>>, frame: seq<uint8>, more: seq<seq<uint8>>)
    ensures log + ([frame] + more) == (log + [frame]) + more
  {
  }

  /** A reply with status 9000 delivers exactly the bytes before it. */
  lemma ExchangeOk(chunk: seq<uint8>)
    ensures ExchangeOutcome(Response(chunk + [0x90, 0x00])) == Success(chunk)
  {
    assert DecodeResponseApdu(chunk + [0x90, 0x00]).payload == chunk;
  }

  /** One READ BINARY of the loop that succeeds. */
  lemma ReadOnStep(script: seq<Reply>, raw: seq<uint8>, buf: seq<uint8>)
    requires |raw| < ReadLimit && ExchangeOutcome(Next(script)) == Success(buf)
    ensures |script| > 0
    ensures var t := ReadOn(Rest(script), raw + buf);
            ReadOn(script, raw) == Trace(t.result, [ReadBinaryFrame(|raw|, ApduMaxExtended)] + t.frames, t.left)
  {
  }

  /** One READ BINARY of the loop that fails ends the run. */
  lemma ReadOnStop(script: seq<Reply>, raw: seq<uint8>)
    requires |raw| < ReadLimit && ExchangeOutcome(Next(script)).Failure?
    ensures ReadOn(script, raw)
            == Trace(AfterFailure(ExchangeOutcome(Next(script)).error, raw), [ReadBinaryFrame(|raw|, ApduMaxExtended)],
                     Rest(script))
  {
  }

  /** The first request of `ReadFull` succeeds. */
  lemma ReadFullStep(script: seq<Reply>, raw: seq<uint8>)
    requires ExchangeOutcome(Next(script)) == Success(raw)
    ensures var t := ReadOn(Rest(script), raw);
            ReadFull(script) == Trace(t.result, [ReadBinarySfidFrame(EfCChAut, 0, ApduMaxExtended)] + t.frames, t.left)
  {
  }

  /** While below the limit the loop sends at least one frame, at the
      number of bytes held. */
  lemma ReadOnFirstFrame(script: seq<Reply>, raw: seq<uint8>)
    requires |raw| < ReadLimit
    ensures var t := ReadOn(script, raw);
            |t.frames| >= 1 && t.frames[0] == ReadBinaryFrame(|raw|, ApduMaxExtended)
  {
    match ExchangeOutcome(Next(script))
    case Failure(e) =>
      ReadOnStop(script, raw);
    case Success(buf) =>
      ReadOnStep(script, raw, buf);
  }

  // ---------------------------------------------------------------------
  // What a run looks like

  /** The bytes of a sequence of chunks, in order. */
  function Concat(cs: seq<seq<uint8>>): seq<uint8>
  {
    if |cs| == 0 then [] else cs[0] + Concat(cs[1..])
  }

  /** Replies that deliver the chunks with status 9000. */
  predicate Deliver(replies: seq<Reply>, cs: seq<seq<uint8>>)
  {
    |replies| == |cs| && forall i :: 0 <= i < |cs| ==> ExchangeOutcome(replies[i]) == Success(cs[i])
  }

  lemma DeliverTail(replies: seq<Reply>, cs: seq<seq<uint8>>)
    requires Deliver(replies, cs) && |cs| > 0
    ensures Deliver(replies[1..], cs[1..])
  {
    forall i | 0 <= i < |cs| - 1
      ensures ExchangeOutcome(replies[1..][i]) == Success(cs[1..][i])
    {
      assert replies[1..][i] == replies[i + 1];
    }
  }

  /** The READ BINARY frames the loop sends for the chunks and the final
      request: one at each running total. */
  function ReadFrames(raw: seq<uint8>, cs: seq<seq<uint8>>): (r: seq<seq<uint8>>)
    requires |raw| + |Concat(cs)| < ReadLimit
    ensures |r| == |cs| + 1
    decreases |cs|
  {
    if |cs| == 0 then [ReadBinaryFrame(|raw|, ApduMaxExtended)]
    else [ReadBinaryFrame(|raw|, ApduMaxExtended)] + ReadFrames(raw + cs[0], cs[1..])
  }

  /** Chunks answered 9000 and then a failing reply: the loop requests each
      chunk at the running total, then ends with the concatenation on end
      of file and with the error otherwise, leaving the replies after the
      failing one. */
  lemma {:induction false} ReadOnChunks(raw: seq<uint8>, cs: seq<seq<uint8>>, replies: seq<Reply>, last: Reply, rest: seq<Reply>)
    requires |raw| + |Concat(cs)| < ReadLimit && Deliver(replies, cs) && ExchangeOutcome(last).Failure?
    ensures ReadOn(replies + [last] + rest, raw)
            == Trace(AfterFailure(ExchangeOutcome(last).error, raw + Concat(cs)), ReadFrames(raw, cs), rest)
    decreases |cs|
  {
    var script := replies + [last] + rest;
    if |cs| == 0 {
      assert script == [last] + rest;
      assert Next(script) == last && Rest(script) == rest;
      ReadOnStop(script, raw);
      assert raw + Concat(cs) == raw;
    } else {
      var c := cs[0];
      ScriptHead(replies, last, rest);
      ConcatCons(raw, cs);
      DeliverTail(replies, cs);
      ReadOnChunks(raw + c, cs[1..], replies[1..], last, rest);
      ReadOnStep(script, raw, c);
      ReadFramesCons(raw, cs);
    }
  }

  lemma ScriptHead(replies: seq<Reply>, last: Reply, rest: seq<Reply>)
    requires |replies| > 0
    ensures Next(replies + [last] + rest) == replies[0]
    ensures Rest(replies + [last] + rest) == replies[1..] + [last] + rest
  {
    assert (replies + [last] + rest)[1..] == replies[1..] + [last] + rest;
  }

  lemma ConcatCons(raw: seq<uint8>, cs: seq<seq<uint8>>)
    requires |cs| > 0
    ensures raw + cs[0] + Concat(cs[1..]) == raw + Concat(cs)
  {
    assert Concat(cs) == cs[0] + Concat(cs[1..]);
    AppendAssoc(raw, cs[0], Concat(cs[1..]));
  }

  lemma AppendAssoc(a: seq<uint8>, b: seq<uint8>, c: seq<uint8>)
    ensures a + b + c == a + (b + c)
  {
  }

  lemma ReadFramesCons(raw: seq<uint8>, cs: seq<seq<uint8>>)
    requires |cs| > 0 && |raw| + |Concat(cs)| < ReadLimit
    ensures |raw + cs[0]| + |Concat(cs[1..])| < ReadLimit
    ensures ReadFrames(raw, cs) == [ReadBinaryFrame(|raw|, ApduMaxExtended)] + ReadFrames(raw + cs[0], cs[1..])
  {
  }

  /** A whole run on such a card: the first chunk by short file identifier,
      the rest by offset. */
  lemma ReadFullChunks(first: seq<uint8>, cs: seq<seq<uint8>>, reply: Reply, replies: seq<Reply>, last: Reply, rest: seq<Reply>)
    requires |first| + |Concat(cs)| < ReadLimit && ExchangeOutcome(reply) == Success(first)
    requires Deliver(replies, cs) && ExchangeOutcome(last).Failure?
    ensures ReadFull([reply] + replies + [last] + rest)
            == Trace(AfterFailure(ExchangeOutcome(last).error, first + Concat(cs)),
                     [ReadBinarySfidFrame(EfCChAut, 0, ApduMaxExtended)] + ReadFrames(first, cs), rest)
  {
    var script := [reply] + replies + [last] + rest;
    ScriptCons(reply, replies, last, rest);
    ReadFullStep(script, first);
    ReadOnChunks(first, cs, replies, last, rest);
  }

  lemma ScriptCons(reply: Reply, replies: seq<Reply>, last: Reply, rest: seq<Reply>)
    ensures Next([reply] + replies + [last] + rest) == reply
    ensures Rest([reply] + replies + [last] + rest) == replies + [last] + rest
  {
    assert ([reply] + replies + [last] + rest)[1..] == replies + [last] + rest;
  }

  /** The replies of the examples below. */
  lemma ReplyExamples(chunk: seq<uint8>)
    ensures ExchangeOutcome(Response(chunk + [0x90, 0x00])) == Success(chunk)
    ensures ExchangeOutcome(Response([0x6B, 0x00])) == Failure(CardError(SwEndOfFile))
    ensures ExchangeOutcome(Response([0x6A, 0x82])) == Failure(CardError(0x6A82))
  {
    ExchangeOk(chunk);
  }

  /** Two 200-byte chunks, then end of file: the 400 bytes, read with one
      request by short file identifier and two by offset (200 and 400). */
  lemma ReadFullEndOfFileExample(a: seq<uint8>, b: seq<uint8>, ra: Reply, rb: Reply, last: Reply, rest: seq<Reply>)
    requires |a| == 200 && |b| == 200
    requires ExchangeOutcome(ra) == Success(a) && ExchangeOutcome(rb) == Success(b)
    requires ExchangeOutcome(last) == Failure(CardError(SwEndOfFile))
    ensures ReadFull([ra, rb, last] + rest)
            == Trace(Success(a + b),
                     [ReadBinarySfidFrame(EfCChAut, 0, ApduMaxExtended),
                      ReadBinaryFrame(200, ApduMaxExtended),
                      ReadBinaryFrame(400, ApduMaxExtended)],
                     rest)
  {
    var sfidFrame := ReadBinarySfidFrame(EfCChAut, 0, ApduMaxExtended);
    assert Concat([b]) == b by {
      assert [b][1..] == [];
    }
    assert ReadFrames(a, [b]) == [ReadBinaryFrame(200, ApduMaxExtended), ReadBinaryFrame(400, ApduMaxExtended)] by {
      assert [b][1..] == [];
      assert ReadFrames(a, [b]) == [ReadBinaryFrame(200, ApduMaxExtended)] + ReadFrames(a + b, []);
    }
    assert ReadFull([ra, rb, last] + rest) == Trace(AfterFailure(CardError(SwEndOfFile), a + b), [sfidFrame] + ReadFrames(a, [b]), rest) by {
      assert Deliver([rb], [b]);
      ReadFullChunks(a, [b], ra, [rb], last, rest);
      assert [ra] + [rb] + [last] + rest == [ra, rb, last] + rest;
    }
  }

  /** A status word other than 9000 and 6B00 in the loop discards what was
      read and returns that error. */
  lemma ReadFullErrorExample(a: seq<uint8>, ra: Reply, last: Reply, rest: seq<Reply>)
    requires |a| == 200 && ExchangeOutcome(ra) == Success(a)
    requires ExchangeOutcome(last) == Failure(CardError(0x6A82))
    ensures ReadFull([ra, last] + rest).result == Failure(CardError(0x6A82))
  {
    assert Concat([]) == [];
    assert Deliver([], []);
    ReadFullChunks(a, [], ra, [], last, rest);
    assert [ra] + [] + [last] + rest == [ra, last] + rest;
  }

  /** The first request fails: its error is the result, end of file
      included, and nothing more is sent. */
  lemma ReadFullFirstFailure(script: seq<Reply>)
    requires ExchangeOutcome(Next(script)).Failure?
    ensures ReadFull(script)
            == Trace(Failure(ExchangeOutcome(Next(script)).error), [ReadBinarySfidFrame(EfCChAut, 0, ApduMaxExtended)],
                     Rest(script))
  {
  }

  /** Every request of the loop addresses an offset between the bytes held
      when it started and the limit; the bytes already held are never lost;
      and every request but a last one uses up a reply. */
  lemma {:induction false} ReadOnBounds(script: seq<Reply>, raw: seq<uint8>)
    ensures var t := ReadOn(script, raw);
            |t.frames| <= |script| + 1
            && (forall i :: 0 <= i < |t.frames| ==> |t.frames[i]| >= 4 && |raw| <= FrameOffset(t.frames[i]) < ReadLimit)
            && (t.result.Success? ==> raw <= t.result.value)
    decreases |script|
  {
    var t := ReadOn(script, raw);
    if |raw| < ReadLimit {
      var frame := ReadBinaryFrame(|raw|, ApduMaxExtended);
      ReadBinaryFrameReadsBack(|raw|, ApduMaxExtended);
      match ExchangeOutcome(Next(script))
      case Failure(e) =>
        ReadOnStop(script, raw);
      case Success(buf) =>
        ReadOnStep(script, raw, buf);
        var u := ReadOn(Rest(script), raw + buf);
        ReadOnBounds(Rest(script), raw + buf);
        assert FramesWithin(u.frames, |raw + buf|);
        FramesWithinCons(frame, u.frames, |raw|, |raw + buf|);
        PrefixTrans(raw, raw + buf, u.result);
    }
  }

  /** Every frame is at least a header long and addresses an offset from
      `lo` up to the limit. */
  predicate FramesWithin(fs: seq<seq<uint8>>, lo: int)
  {
    forall i :: 0 <= i < |fs| ==> |fs[i]| >= 4 && lo <= FrameOffset(fs[i]) < ReadLimit
  }

  lemma FramesWithinCons(f: seq<uint8>, fs: seq<seq<uint8>>, lo: int, lo': int)
    requires |f| >= 4 && lo <= FrameOffset(f) < ReadLimit && FramesWithin(fs, lo') && lo <= lo'
    ensures FramesWithin([f] + fs, lo)
  {
    forall i | 0 <= i < |[f] + fs|
      ensures |([f] + fs)[i]| >= 4 && lo <= FrameOffset(([f] + fs)[i]) < ReadLimit
    {
      if i > 0 {
        assert ([f] + fs)[i] == fs[i - 1];
      }
    }
  }

  lemma PrefixTrans(a: seq<uint8>, b: seq<uint8>, r: Result<seq<uint8>, Error>)
    requires a <= b && (r.Success? ==> b <= r.value)
    ensures r.Success? ==> a <= r.value
  {
  }

  /** A reply that delivers no bytes with status 9000 does not advance
      the offset: the next request is the same frame again. */
  lemma ReadOnEmptyChunkRepeats(script: seq<Reply>, raw: seq<uint8>)
    requires ExchangeOutcome(Next(script)) == Success([]) && |raw| < ReadLimit
    ensures var t := ReadOn(script, raw);
            |t.frames| >= 2
            && t.frames[0] == t.frames[1] == ReadBinaryFrame(|raw|, ApduMaxExtended)
  {
    ReadOnStep(script, raw, []);
    assert raw + [] == raw;
    ReadOnFirstFrame(Rest(script), raw);
  }

  /** Once the limit is reached the loop sends nothing. */
  lemma ReadOnAtLimit(script: seq<Reply>, raw: seq<uint8>)
    requires |raw| >= ReadLimit
    ensures ReadOn(script, raw) == Trace(Success(raw), [], script)
  {
  }

  /** The loop uses the replies from the front, one for every frame it
      sends, so what is left is a suffix of the script. */
  lemma {:induction false} ReadOnConsumes(script: seq<Reply>, raw: seq<uint8>)
    ensures var t := ReadOn(script, raw);
            |t.left| <= |script| && t.left == script[|script| - |t.left|..]
            && (|t.frames| <= |script| ==> |t.left| == |script| - |t.frames|)
    decreases |script|
  {
    if |raw| < ReadLimit {
      match ExchangeOutcome(Next(script))
      case Failure(e) =>
        ReadOnStop(script, raw);
      case Success(buf) =>
        ReadOnStep(script, raw, buf);
        ReadOnConsumes(Rest(script), raw + buf);
        var u := ReadOn(Rest(script), raw + buf);
        assert Rest(script)[|Rest(script)| - |u.left|..] == script[|script| - |u.left|..];
    }
  }

  /** The same for the whole run. */
  lemma ReadFullConsumes(script: seq<Reply>)
    ensures var t := ReadFull(script);
            |t.left| <= |script| && t.left == script[|script| - |t.left|..]
            && (|t.frames| <= |script| ==> |t.left| == |script| - |t.frames|)
  {
    match ExchangeOutcome(Next(script))
    case Failure(e) =>
      ReadFullFirstFailure(script);
    case Success(raw) =>
      ReadFullStep(script, raw);
      ReadOnConsumes(Rest(script), raw);
      var u := ReadOn(Rest(script), raw);
      assert Rest(script)[|Rest(script)| - |u.left|..] == script[|script| - |u.left|..];
  }
}
