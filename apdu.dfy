/** Command and response APDUs as laid out in section 5.1 of ISO/IEC 7816-4
    (command-response pairs, short and extended length fields).

    `EncodeLength` and `EncodeApdu` are the encoder as written; `ParseCommand`
    is an independent reading of a command APDU by the rules of the standard,
    against which the encoder is checked.  `EncodeCommand` is the corrected
    encoder (see README, Findings) that the file-access layer uses. */
module Apdu {
  import opened Common

  const ApduMaxExtended: int := 0xffff + 1
  const ApduMaxShort: int := 0xff + 1

  /** "As much as the card will send" — an all-zero Le field. */
  const LeWildcard: int := -1
  /** The same, and it also forces extended framing. */
  const LeWildcardExtended: int := -2

  predicate IsWildcard(n: int)
  {
    n == LeWildcard || n == LeWildcardExtended
  }

  /** The lengths `encodeLength` accepts; any other value panics. */
  predicate InRange(n: int)
  {
    IsWildcard(n) || 0 <= n <= ApduMaxExtended
  }

  /** One Lc or Le field.  `first` says that no length field precedes it in
      the frame, so an extended field needs the leading `00` marker. */
  function EncodeLength(n: int, extended: bool, first: bool): (r: seq<uint8>)
    requires InRange(n)
    ensures IsWildcard(n) ==> r == Zeros(if !extended then 1 else if first then 3 else 2)
    ensures n == 0 ==> r == []
    ensures 0 < n && !extended ==> r == [Byte(n)]
    ensures n == ApduMaxShort && !extended ==> r == [0]
    ensures 0 < n < ApduMaxExtended && extended ==>
              r == (if first then [0] else []) + ToBigEndian16(n)
    ensures n == ApduMaxExtended && extended ==> r == Zeros(if first then 3 else 2)
  {
    if IsWildcard(n) then
      if extended then (if first then [0, 0, 0] else [0, 0]) else [0]
    else if n == 0 then
      []
    else if extended then
      (if first then [0] else [])
      + (if n == ApduMaxExtended then [0, 0] else [Byte(n / 0x100), Byte(n)])
    else if n == ApduMaxShort then
      [0]
    else
      [Byte(n)]
  }

  /** The framing rule of the encoder as written: 256 data bytes still use
      short framing. */
  predicate IsExtended(data: seq<uint8>, le: int)
  {
    |data| > ApduMaxShort || le > ApduMaxShort || le == LeWildcardExtended
  }

  /** `cla ins p1 p2 [Lc] data [Le]`, as written. */
  function EncodeApdu(cla: uint8, ins: uint8, p1: uint8, p2: uint8, data: seq<uint8>, le: int): (r: seq<uint8>)
    requires |data| <= ApduMaxExtended && InRange(le)
    ensures |r| >= 4 && r[..4] == [cla, ins, p1, p2]
    ensures var ext := IsExtended(data, le);
            var lc := if data == [] then 0 else if ext then 3 else 1;
            var lf := if le == 0 then 0 else if !ext then 1 else if data == [] then 3 else 2;
            |r| == 4 + lc + |data| + lf && r[4 + lc..4 + lc + |data|] == data
    ensures data == [] && le == 0 ==> r == [cla, ins, p1, p2]
  {
    var ext := IsExtended(data, le);
    [cla, ins, p1, p2] + EncodeLength(|data|, ext, true) + data + EncodeLength(le, ext, |data| == 0)
  }

  /** A response APDU: the payload and the trailing status word. */
  datatype ResponseApdu = ResponseApdu(sw: uint16, payload: seq<uint8>)

  /** Splits off the trailing big-endian status word; fewer than two bytes panic. */
  function DecodeResponseApdu(r: seq<uint8>): (res: ResponseApdu)
    requires |r| >= 2
    ensures res.sw == (r[|r| - 2] as int) * 0x100 + r[|r| - 1]
    ensures |res.payload| == |r| - 2
    ensures res.payload + ToBigEndian16(res.sw) == r
  {
    BigEndian16RoundTrip(r[|r| - 2], r[|r| - 1]);
    assert r[..|r| - 2] + [r[|r| - 2], r[|r| - 1]] == r;
    ResponseApdu(BigEndian16(r[|r| - 2], r[|r| - 1]), r[..|r| - 2])
  }

  /** What a card puts on the wire for a response. */
  function EncodeResponseApdu(res: ResponseApdu): (r: seq<uint8>)
    ensures |r| == |res.payload| + 2
  {
    res.payload + ToBigEndian16(res.sw)
  }

  lemma ResponseRoundTrip(res: ResponseApdu)
    ensures DecodeResponseApdu(EncodeResponseApdu(res)) == res
  {
    var r := EncodeResponseApdu(res);
    assert r[..|r| - 2] == res.payload;
  }

  lemma DecodeResponseWithoutPayload(r: seq<uint8>)
    requires |r| == 2
    ensures DecodeResponseApdu(r) == ResponseApdu(BigEndian16(r[0], r[1]), [])
  {
  }

  // ---------------------------------------------------------------------
  // Reading a command APDU by the rules of ISO/IEC 7816-4, section 5.1.

  /** A decoded command: header, command data, and Ne, the number of
      response bytes asked for (0 when there is no Le field). */
  datatype Command = Command(cla: uint8, ins: uint8, p1: uint8, p2: uint8, data: seq<uint8>, ne: nat)

  /** A short Le byte; `00` stands for 256. */
  function ShortNe(b: uint8): nat
  {
    if b == 0 then ApduMaxShort else b
  }

  /** An extended Le field; `0000` stands for 65536. */
  function ExtendedNe(hi: uint8, lo: uint8): nat
  {
    if hi == 0 && lo == 0 then ApduMaxExtended else BigEndian16(hi, lo)
  }

  /** Cases 1, 2S, 3S, 4S, 2E, 3E and 4E of the standard; a short Lc is
      never `00`, an extended Lc never `0000`. */
  function ParseCommand(f: seq<uint8>): Option<Command>
  {
    if |f| < 4 then None
    else if |f| == 4 then Some(Command(f[0], f[1], f[2], f[3], [], 0))
    else if |f| == 5 then Some(Command(f[0], f[1], f[2], f[3], [], ShortNe(f[4])))
    else if f[4] != 0 then
      var nc: int := f[4];
      if |f| == 5 + nc then Some(Command(f[0], f[1], f[2], f[3], f[5..], 0))
      else if |f| == 6 + nc then Some(Command(f[0], f[1], f[2], f[3], f[5..5 + nc], ShortNe(f[5 + nc])))
      else None
    else if |f| < 7 then None
    else if |f| == 7 then Some(Command(f[0], f[1], f[2], f[3], [], ExtendedNe(f[5], f[6])))
    else
      var nc: int := BigEndian16(f[5], f[6]);
      if nc == 0 then None
      else if |f| == 7 + nc then Some(Command(f[0], f[1], f[2], f[3], f[7..], 0))
      else if |f| == 9 + nc then Some(Command(f[0], f[1], f[2], f[3], f[7..7 + nc], ExtendedNe(f[7 + nc], f[8 + nc])))
      else None
  }

  /** Ne as a reader recovers it from `le`: a wildcard means the largest
      amount the framing can ask for. */
  function NeOf(le: int, extended: bool): nat
    requires InRange(le)
  {
    if IsWildcard(le) then (if extended then ApduMaxExtended else ApduMaxShort) else le
  }

  // ---------------------------------------------------------------------
  // The corrected encoder.

  /** Extended framing from 256 data bytes on: a short Lc holds 1 to 255. */
  predicate IsExtendedCommand(data: seq<uint8>, le: int)
  {
    |data| >= ApduMaxShort || le > ApduMaxShort || le == LeWildcardExtended
  }

  /** `cla ins p1 p2 [Lc] data [Le]` with extended framing from 256 data
      bytes on; an extended Lc holds at most 65535. */
  function EncodeCommand(cla: uint8, ins: uint8, p1: uint8, p2: uint8, data: seq<uint8>, le: int): (r: seq<uint8>)
    requires |data| < ApduMaxExtended && InRange(le)
    ensures |r| >= 4 && r[..4] == [cla, ins, p1, p2]
  {
    var ext := IsExtendedCommand(data, le);
    [cla, ins, p1, p2] + EncodeLength(|data|, ext, true) + data + EncodeLength(le, ext, |data| == 0)
  }

  /** Every frame of the corrected encoder reads back as the command it was
      built from: same header, same data, and the Ne that `le` asks for. */
  lemma EncodeCommandRoundTrip(cla: uint8, ins: uint8, p1: uint8, p2: uint8, data: seq<uint8>, le: int)
    requires |data| < ApduMaxExtended && InRange(le)
    ensures ParseCommand(EncodeCommand(cla, ins, p1, p2, data, le))
            == Some(Command(cla, ins, p1, p2, data, NeOf(le, IsExtendedCommand(data, le))))
  {
    if data == [] {
      RoundTripNoData(cla, ins, p1, p2, le);
    } else if IsExtendedCommand(data, le) {
      RoundTripExtendedData(cla, ins, p1, p2, data, le);
    } else {
      RoundTripShortData(cla, ins, p1, p2, data, le);
    }
  }

  lemma RoundTripNoData(cla: uint8, ins: uint8, p1: uint8, p2: uint8, le: int)
    requires InRange(le)
    ensures ParseCommand(EncodeCommand(cla, ins, p1, p2, [], le))
            == Some(Command(cla, ins, p1, p2, [], NeOf(le, IsExtendedCommand([], le))))
  {
    var ext := IsExtendedCommand([], le);
    var lf := EncodeLength(le, ext, true);
    var f := EncodeCommand(cla, ins, p1, p2, [], le);
    assert f == [cla, ins, p1, p2] + lf;
    if le != 0 && ext {
      assert |f| == 7 && f[4] == 0 && f[5] == lf[1] && f[6] == lf[2];
    }
  }

  lemma RoundTripExtendedData(cla: uint8, ins: uint8, p1: uint8, p2: uint8, data: seq<uint8>, le: int)
    requires 0 < |data| < ApduMaxExtended && InRange(le) && IsExtendedCommand(data, le)
    ensures ParseCommand(EncodeCommand(cla, ins, p1, p2, data, le))
            == Some(Command(cla, ins, p1, p2, data, NeOf(le, true)))
  {
    var lc := EncodeLength(|data|, true, true);
    var lf := EncodeLength(le, true, false);
    assert lc == [0] + ToBigEndian16(|data|);
    assert EncodeCommand(cla, ins, p1, p2, data, le) == [cla, ins, p1, p2] + lc + data + lf;
    assert lf == [] || (|lf| == 2 && ExtendedNe(lf[0], lf[1]) == NeOf(le, true));
    ParseExtended([cla, ins, p1, p2], data, lf);
  }

  /** A frame with an extended Lc reads back its data and its Le field. */
  lemma ParseExtended(h: seq<uint8>, data: seq<uint8>, lf: seq<uint8>)
    requires |h| == 4 && 0 < |data| < ApduMaxExtended && (|lf| == 0 || |lf| == 2)
    ensures var f := h + ([0] + ToBigEndian16(|data|)) + data + lf;
            ParseCommand(f) == Some(Command(h[0], h[1], h[2], h[3], data,
                                            if lf == [] then 0 else ExtendedNe(lf[0], lf[1])))
  {
    var f := h + ([0] + ToBigEndian16(|data|)) + data + lf;
    var n := |data|;
    assert f[4] == 0 && BigEndian16(f[5], f[6]) == n;
    assert |f| == 7 + n + |lf|;
    assert f[7..7 + n] == data;
    if lf == [] {
      assert f[7..] == data;
    } else {
      assert f[7 + n] == lf[0] && f[8 + n] == lf[1];
    }
  }

  lemma RoundTripShortData(cla: uint8, ins: uint8, p1: uint8, p2: uint8, data: seq<uint8>, le: int)
    requires 0 < |data| && InRange(le) && !IsExtendedCommand(data, le)
    ensures ParseCommand(EncodeCommand(cla, ins, p1, p2, data, le))
            == Some(Command(cla, ins, p1, p2, data, NeOf(le, false)))
  {
    var lf := EncodeLength(le, false, false);
    var f := EncodeCommand(cla, ins, p1, p2, data, le);
    var n := |data|;
    assert f == [cla, ins, p1, p2] + [n] + data + lf;
    assert f[4] == n;
    assert f[5..5 + n] == data;
    if le == 0 {
      assert f[5..] == data;
    } else {
      assert f[5 + n] == lf[0];
    }
  }

  /** The two encoders differ only for exactly 256 data bytes. */
  lemma EncodeCommandAgrees(cla: uint8, ins: uint8, p1: uint8, p2: uint8, data: seq<uint8>, le: int)
    requires |data| < ApduMaxExtended && InRange(le) && |data| != ApduMaxShort
    ensures EncodeCommand(cla, ins, p1, p2, data, le) == EncodeApdu(cla, ins, p1, p2, data, le)
  {
  }

  // ---------------------------------------------------------------------
  // Where the encoder as written leaves the standard.

  /** As written, 256 data bytes in short framing get the Lc byte `00`,
      which a reader takes for the extended-length marker: no reading of
      the frame yields the data that was sent. */
  lemma ShortLc256Misread(cla: uint8, ins: uint8, p1: uint8, p2: uint8, data: seq<uint8>, le: int)
    requires |data| == ApduMaxShort && InRange(le) && !IsExtended(data, le)
    ensures EncodeApdu(cla, ins, p1, p2, data, le)[4] == 0
    ensures var p := ParseCommand(EncodeApdu(cla, ins, p1, p2, data, le));
            p.None? || p.value.data != data
  {
    var f := EncodeApdu(cla, ins, p1, p2, data, le);
    assert f == [cla, ins, p1, p2] + [0] + data + EncodeLength(le, false, false);
    assert |f| == 261 || |f| == 262;
  }

  /** As written, 65536 data bytes get the extended Lc `000000`, which is
      not a valid extended Lc: the frame cannot be read at all. */
  lemma ExtendedLc65536Misread(cla: uint8, ins: uint8, p1: uint8, p2: uint8, data: seq<uint8>, le: int)
    requires |data| == ApduMaxExtended && InRange(le)
    ensures EncodeApdu(cla, ins, p1, p2, data, le)[4..7] == [0, 0, 0]
    ensures ParseCommand(EncodeApdu(cla, ins, p1, p2, data, le)).None?
  {
    var lf := EncodeLength(le, true, false);
    assert EncodeLength(|data|, true, true) == [0, 0, 0];
    assert EncodeApdu(cla, ins, p1, p2, data, le) == [cla, ins, p1, p2] + [0, 0, 0] + data + lf;
    ZeroLcFrame([cla, ins, p1, p2], data, lf);
  }

  lemma ZeroLcFrame(h: seq<uint8>, data: seq<uint8>, lf: seq<uint8>)
    requires |h| == 4 && |data| > 0
    ensures var f := h + [0, 0, 0] + data + lf;
            f[4..7] == [0, 0, 0] && ParseCommand(f).None?
  {
    var f := h + [0, 0, 0] + data + lf;
    assert f[4] == 0 && f[5] == 0 && f[6] == 0;
    ZeroExtendedLcRejected(f);
  }

  /** A frame whose extended Lc reads `0000` is not a command. */
  lemma ZeroExtendedLcRejected(f: seq<uint8>)
    requires |f| >= 8 && f[4] == 0 && f[5] == 0 && f[6] == 0
    ensures ParseCommand(f).None?
  {
  }

  /** The framing boundary as written: 256 data bytes are short, 257 extended. */
  lemma FramingBoundary(data: seq<uint8>, le: int)
    requires InRange(le) && 0 <= le <= ApduMaxShort
    ensures |data| == ApduMaxShort ==> !IsExtended(data, le) && IsExtendedCommand(data, le)
    ensures |data| == ApduMaxShort + 1 ==> IsExtended(data, le)
    ensures |data| == ApduMaxShort - 1 ==> !IsExtended(data, le) && !IsExtendedCommand(data, le)
  {
  }
}
