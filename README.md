# egkdump core in Dafny

egkdump reads the files of a German electronic health card (eGK) through a
smart-card reader and prints them. This project models the byte-level core
of the tool and proves properties of that model. It has two parts.

- **The APDU codec** (`apdu.go`), in `apdu.dfy`. It covers Lc/Le length
  fields, command-frame layout with short or extended framing, and splitting
  a response into payload and status word. The command layout follows
  section 5.1 of ISO/IEC 7816-4. `ParseCommand` is an independent reading of
  a command frame by that section, and the encoder is checked against it.
- **File access and payload decoders** (`egkdump.go`), in `fileaccess.dfy`
  and `payload.dfy`.
  - The card transport is a class `Card`. It holds a scripted queue of
    replies and a log of the frames it was sent.
  - The five one-frame commands: SELECT, and READ BINARY and READ RECORD
    in two forms each.
  - The chained read `readBinaryFull`. It is a loop, proved against a
    function that describes a whole run.
  - The decoders:
    - packed BCD, including the uint64 arithmetic of `decodeBCD`;
    - the version string;
    - the card serial number (ICCSN), its GDO wrapper and the 25-byte
      `StatusVD` record;
    - the length- and offset-delimited regions handed to the gzip/XML
      decoder;
    - the zero-padding check after a certificate.

`common.dfy` holds the shared vocabulary: bytes, `Option`, `Result`, and
big-endian 16-bit fields.

How the model is laid out:

- **State the source updates in place is imperative.** That covers the card,
  the `UnmarshalBinary` receivers, the `checkBCD`/`decodeBCD` loops and the
  `readBinaryFull` loop. Each method is proved against a pure function of
  its inputs and of the old state.
- **Expression-level code is written as functions.**
- **The card's replies are a parameter.** A script of replies stands in for
  the reader. A card whose script has run out answers with a transport
  error.

## Model

| member | source | states |
|---|---|---|
| Apdu.EncodeLength | apdu.go:11-54 | wildcards (-1, -2) give all-zero fields of 3, 2 or 1 bytes; 0 gives no bytes; a short field is `byte(n)`, with 256 as `00`; an extended field is an optional `00` marker (only when first) then n big-endian, with 65536 as `0000` |
| Apdu.EncodeApdu | apdu.go:56-66 | the frame starts with exactly `cla ins p1 p2`; its length is 4 + Lc + data + Le, with Lc = 0/1/3 bytes and Le = 0/1/2/3 bytes as the framing and the presence of data decide; the data sits right after Lc; no data and `le == 0` give the bare 4-byte header |
| Apdu.FramingBoundary | apdu.go:58 | as written, 256 data bytes still use short framing and 257 use extended; the corrected rule is extended at 256 and short at 255 |
| Apdu.DecodeResponseApdu | apdu.go:68-78 | the status word is `r[n-2]*256 + r[n-1]`; the payload has n-2 bytes; payload followed by the two status bytes is the input |
| Apdu.ResponseRoundTrip | apdu.go:68-78 | decoding the wire form of a response gives back its status word and payload |
| Apdu.DecodeResponseWithoutPayload | apdu.go:73-77 | a 2-byte response has an empty payload |
| Apdu.EncodeCommandRoundTrip | apdu.go:56-66 | a frame of the corrected encoder, read by ISO/IEC 7816-4 rules, is the command it was built from: same header, same data, and the Ne that `le` asks for (a wildcard asks for 256 or 65536) |
| Apdu.EncodeCommandAgrees | apdu.go:56-66 | the corrected encoder and the encoder as written produce the same frame for every data length other than 256 |
| Apdu.ShortLc256Misread | apdu.go:58-61 | as written, 256 data bytes in short framing get Lc `00`, and no reading of that frame yields the data sent |
| Apdu.ExtendedLc65536Misread | apdu.go:29-42 | as written, 65536 data bytes get the extended Lc `000000`, and the frame reads as no command at all |
| FileAccess.Card.constructor | egkdump.go:49-51 | a card starts with its script of replies and an empty log |
| FileAccess.Card.Transmit | egkdump.go:49-51 | one call logs the frame and consumes the next reply; an exhausted script answers with a transport error |
| FileAccess.Next | egkdump.go:49-51 | the reply of a card whose script has run out is a transport error |
| FileAccess.ExchangeOutcome | egkdump.go:108-116 | a transport error passes through; otherwise the result is the payload iff the status word is 9000 (payload + `90 00` is the response), and `cardError(sw)` with the response's status word otherwise |
| FileAccess.Exchange | egkdump.go:106-117 | sends exactly the given frame once, consumes one reply, and returns its interpretation |
| FileAccess.SelectAid | egkdump.go:93-104 | sends one SELECT `00 A4 04 0C` with the AID as data and no Le, framed by the encoder as written, for any AID up to 65536 bytes; no error iff the reply is 9000, else the reply's error |
| FileAccess.ReadBinary | egkdump.go:106-117 | sends one READ BINARY `00 B0` with P1 P2 the 16-bit offset, and returns the reply's interpretation |
| FileAccess.ReadBinarySfid | egkdump.go:119-130 | sends one READ BINARY with `0x80` OR `sfid` in P1 and the offset in P2 |
| FileAccess.ReadRecord | egkdump.go:132-143 | sends one READ RECORD `00 B2 idx 04` |
| FileAccess.ReadRecordSfid | egkdump.go:145-156 | sends one READ RECORD with P2 = `sfid<<3` OR `4`, mod 256 |
| FileAccess.SetHighBit | egkdump.go:120 | `0x80` OR `b` has the high bit set and keeps the low seven bits of b |
| FileAccess.RecordP2 | egkdump.go:146 | `byte(sfid<<3)` OR `4` has 100 in its low three bits and the low five bits of sfid above them |
| FileAccess.FramesAsWritten | egkdump.go:106-156 | the four READ frames, which carry no data, are the frames `EncodeAPDU` builds for the same arguments |
| FileAccess.SelectFrameReadsBack | egkdump.go:94 | for an AID of any length below 65536 except 256, the SELECT frame reads back as header `00 A4 04 0C`, the AID as data and no Ne |
| FileAccess.SelectFrameMisread | egkdump.go:94 | for an AID of exactly 256 or 65536 bytes, no reading of the SELECT frame yields that AID |
| FileAccess.ReadBinaryFrameReadsBack | egkdump.go:107 | a READ BINARY frame reads back with no data, the offset in P1 P2 and the Ne asked for; P1 has its high bit set iff the offset is at least 0x8000, which the standard reads as a short file identifier |
| FileAccess.SfidFramesReadBack | egkdump.go:119-156 | the short-file-identifier frames read back with the identifier's low bits in P1 (READ BINARY) or in P2 above `100` (READ RECORD) |
| FileAccess.AfterFailure | egkdump.go:518-524 | a failed chunk read ends the loop with success iff it is `cardError(6B00)`, keeping the bytes read; any other error is returned and the bytes are dropped |
| FileAccess.ReadBinaryFull | egkdump.go:510-529 | result, frames sent and replies left on the card are those of `ReadFull` on the script as it was; the `sfid` argument plays no part |
| FileAccess.ReadRemaining | egkdump.go:516-528 | the loop's result, frames and replies left are those of `ReadOn` from the first chunk on |
| FileAccess.ReadOnStep | egkdump.go:517-526 | a chunk answered 9000 is requested at the current length and appended, and the run goes on from there |
| FileAccess.ReadOnStop | egkdump.go:517-525 | a failed chunk request is the last frame of the run and uses up one reply |
| FileAccess.ReadFullFirstFailure | egkdump.go:512-515 | when the first request fails, 6B00 included, its error is the result, nothing more is sent and only that reply is used up |
| FileAccess.ReadOnFirstFrame | egkdump.go:516-517 | below the limit the loop sends at least one frame, a READ BINARY at the number of bytes held |
| FileAccess.ReadOnChunks | egkdump.go:516-528 | chunks answered 9000 and then a failing reply: the frames are READ BINARY at each running total, and the result is the concatenation on 6B00 and the error otherwise, and the replies after the failing one are left |
| FileAccess.ReadFullChunks | egkdump.go:510-529 | a whole run: the first frame reads EF.C.CH.AUT by short file identifier, then the chunks as above |
| FileAccess.ReadFullEndOfFileExample | egkdump.go:510-529 | two 200-byte chunks and then 6B00 give the 400 bytes, with requests by short file identifier, at offset 200 and at offset 400 |
| FileAccess.ReadFullErrorExample | egkdump.go:518-524 | a status word other than 9000 and 6B00 in the loop discards what was read and returns that error |
| FileAccess.ReadOnBounds | egkdump.go:516-528 | every request addresses an offset from the bytes held at the start up to below 65536; a success extends the bytes held; at most one frame more than replies used |
| FileAccess.ReadOnEmptyChunkRepeats | egkdump.go:516-526 | an empty 9000 chunk does not advance: the next request repeats the same frame |
| FileAccess.ReadOnAtLimit | egkdump.go:516 | with 65536 bytes or more held, no request is sent, no reply is used and the bytes are the result |
| FileAccess.ReadOnConsumes | egkdump.go:516-528 | the loop uses the card's replies from the front, one per frame sent, so the replies left are a suffix of the script |
| FileAccess.ReadFullConsumes | egkdump.go:510-529 | the same for a whole run of `readBinaryFull`, so a second read on the same card starts where the first stopped |
| FileAccess.ReplyExamples | egkdump.go:112-116 | `chunk 90 00` delivers the chunk; `6B 00` and `6A 82` are card errors with those status words |
| FileAccess.ExchangeOk | egkdump.go:112-116 | a reply ending in `90 00` delivers exactly the bytes before it |
| Payload.CheckBcd | egkdump.go:158-165 | true iff every high and low nibble is at most 9 |
| Payload.DecodeBcd | egkdump.go:167-178 | the decimal value of the nibble string, high nibble first, reduced modulo 2^64 as uint64 arithmetic does; exact for up to nine bytes |
| Payload.BcdFitsUint64 | egkdump.go:167-178 | nine bytes or fewer never overflow, even with nibbles above 9 |
| Payload.BcdValueIsDigits | egkdump.go:167-178 | the accumulated value is the value of the nibbles read as decimal digits |
| Payload.BcdRoundTrip | egkdump.go:167-178 | encoding a number that fits into n BCD bytes and decoding it gives the number |
| Payload.BcdEncodeDecode | egkdump.go:167-178 | valid BCD bytes are recovered from their value: decoding loses nothing |
| Payload.DecimalRoundTrip | egkdump.go:185 | the `%d` text of a number denotes that number |
| Payload.ParseBcdVersion | egkdump.go:180-186 | `<invalid>` iff the record is not 5 bytes or any nibble is above 9 |
| Payload.VersionDigits | egkdump.go:185 | the three numbers are the ten digits split 3 / 3 / 4 |
| Payload.VersionExample | egkdump.go:180-186 | `01 02 03 04 05` gives `10.203.405` |
| Payload.VersionRejectsBadNibble | egkdump.go:181-183 | a single bad nibble in a 5-byte record gives `<invalid>` |
| Payload.UnmarshalIccsn | egkdump.go:195-207 | fails (with "too short") iff the input is not 10 bytes; the major industry identifier is byte 0 |
| Payload.IccsnDigits | egkdump.go:201-204 | for valid BCD, country code, issuer identifier and serial number are the 18 digits split 3 / 5 / 10 |
| Payload.IccsnRoundTrip | egkdump.go:195-207 | the 10 bytes stored for a representable serial number decode back to it |
| Payload.Iccsn.constructor | egkdump.go:188-193 | the zero value: all fields zero |
| Payload.Iccsn.UnmarshalBinary | egkdump.go:195-207 | on 10 bytes the fields become the decoded serial number and no error is returned; otherwise the error is returned and the fields are unchanged |
| Payload.ParseGdo | egkdump.go:209-227 | succeeds iff 12 bytes, tag 5A and length byte 0A, and then decodes bytes 2 to 11; the errors are reported in the order length, tag, length byte |
| Payload.GdoRoundTrip | egkdump.go:209-227 | `5A 0A` followed by the stored serial number parses back to it |
| Payload.UnmarshalStatusVd | egkdump.go:302-313 | fails iff not 25 bytes; status is byte 0, timestamp bytes 1 to 14, version the parsed bytes 15 to 19 (bad BCD is not an error), reserved bytes 20 to 24 |
| Payload.StatusVdLayout | egkdump.go:302-313 | laying out status, timestamp, version and reserved bytes reads them back |
| Payload.StatusVd.constructor | egkdump.go:295-300 | the zero value: empty strings and five zero bytes |
| Payload.StatusVd.UnmarshalBinary | egkdump.go:302-313 | on 25 bytes the fields become the decoded record; otherwise the error is returned and the fields are unchanged |
| Payload.PdRegion | egkdump.go:448-458 | the PD region exists iff the file has at least 2 bytes and the big-endian length L is at most `len-2`; it is then the L bytes after the prefix |
| Payload.PdRoundTrip | egkdump.go:452-458 | a length prefix, the document and any trailing bytes give the document back |
| Payload.OffsetRegion | egkdump.go:472-499 | a VD or GVD region exists iff the file has at least 8 bytes and `start <= end <= len`; it then holds the bytes from start to end |
| Payload.VdRoundTrip | egkdump.go:477-499 | an offset table followed by VD and GVD yields both documents |
| Payload.OffsetBoundaries | egkdump.go:482-486 | a start past its end always fails; an end at the file's end gives everything from the start |
| Payload.ParseCert | egkdump.go:531-545 | an ASN.1 failure is returned; otherwise the certificate bytes are returned iff everything after the first value is zero |
| Payload.CertPaddingAccepted | egkdump.go:539-543 | zero padding after the certificate is accepted and stripped |
| Payload.CertGarbageRejected | egkdump.go:539-543 | any non-zero byte after the certificate is rejected |

## Left out

- `apduLogger` (egkdump.go:59-75): output plumbing. It passes the inner transport's reply through unchanged.
- `findCard`, `main` and the PC/SC session: I/O against a foreign library.
  The card's replies are instead a script handed to `FileAccess.Card`.
- `dumpRoot`, `dumpHCA`, `dumpEsign` and all printing: sequencing and presentation. Included are their byte-range checks (`PdRegion`, `OffsetRegion`) and the readers they call. The GVD branch prints using the VD error (egkdump.go:500-501); this only affects what is printed, so it is not modelled.
- gzip, XML and charset decoding, and the PD/VD/GVD schemas: foreign libraries. Only the byte regions handed to them are modelled.
- `asn1.Unmarshal` and `x509.ParseCertificate`: foreign calls.
  `ParseCert` takes the ASN.1 reader's answer as a parameter: the length of the first value, or a rejection. It returns the certificate bytes rather than a parsed certificate.
- Go panics are preconditions rather than error results:
  - `encodeLength` with a length outside [0, 65536];
  - `DecodeResponseAPDU` on fewer than 2 bytes. The card's replies have at least 2 bytes by their type (`ResponseBytes`), so the short-response panic is outside the model.
- Go slices are bounded by capacity, not length: `rawpd[2:2+L]` or `raw[s:e]` past the length but within the capacity does not fault in Go. The model treats a region beyond the length as a failure.
- FileAccess.Card.Transmit: a Go transport may return bytes and an error together, and the commands then use only the error. A reply here is one or the other.
- `cardError.Error()` (the `sw=%x` text): formatting only.
- The model follows the code, not what a reader might expect, in four places:
  - the chained read ignores its `sfid` argument;
  - it re-requests the same offset after an empty 9000 chunk, which on a real card could repeat forever; the script bound makes every modelled run finite;
  - the ICCSN digits split 3 / 5 / 10 and the version digits 3 / 3 / 4;
  - an invalid region is a failure, because the slice after the printing check is what faults.

## Findings

| source | as written | input that shows it | evidently intended | confidence | as-written member | corrected member |
|---|---|---|---|---|---|---|
| apdu.go:58-61 | framing is extended only above 256 data bytes, so 256 data bytes get the short Lc `byte(256)` special-cased to `00` | `EncodeAPDU(0x00, 0xa4, 0x04, 0x0c, aid, 0)` with a 256-byte aid: byte 4 is `00`, which a card reads as the extended-length marker | extended framing from 256 data bytes on, since a short Lc holds 1 to 255 | not executed | Apdu.ShortLc256Misread | Apdu.EncodeCommandRoundTrip |
| apdu.go:29-42 | a length of 65536 in an extended field is `0000`, which is right for Le but is also used for Lc | any command with 65536 data bytes: bytes 4 to 6 are `00 00 00`, which no reading accepts | reject more than 65535 data bytes, since an extended Lc holds 1 to 65535 | not executed | Apdu.ExtendedLc65536Misread | Apdu.EncodeCommandRoundTrip |

`selectAid` frames its SELECT with the encoder as written, so `FileAccess.SelectFrame` is kept that way. For an AID of 256 or 65536 bytes it inherits both findings (`FileAccess.SelectFrameMisread`). The READ frames carry no data, so for them the two encoders agree (`FileAccess.FramesAsWritten`).
