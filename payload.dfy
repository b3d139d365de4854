/** Decoders for the payloads the card files hold: packed BCD numbers, the
    version string, the card serial number (ICCSN) and its GDO wrapper, the
    25-byte status record, the length- and offset-delimited regions that hold
    the compressed insurance documents, and the zero padding after a
    certificate. */
module Payload {
  import opened Common

  datatype FormatError =
    | TooShort                   // ICCSN or GDO of the wrong length
    | BadTag(tag: uint8)         // GDO tag other than 5A
    | BadLengthByte(value: uint8) // GDO length byte other than 0A
    | InvalidLength              // status record not 25 bytes
    | TruncatedHeader            // no room for the length prefix or the offset table
    | BadRegion                  // a declared region outside the buffer
    | Asn1Error                  // the ASN.1 reader rejected the certificate file
    | NonZeroTrailing            // non-zero bytes after the certificate

  // ---------------------------------------------------------------------
  // Packed BCD

  /** `b >> 4` and `b & 0xf`. */
  function Hi(b: uint8): nat { b / 16 }
  function Lo(b: uint8): nat { b % 16 }

  /** Every nibble is a decimal digit. */
  predicate IsBcd(raw: seq<uint8>)
  {
    forall i :: 0 <= i < |raw| ==> Hi(raw[i]) <= 9 && Lo(raw[i]) <= 9
  }

  /** `checkBCD`. */
  method CheckBcd(raw: seq<uint8>) returns (ok: bool)
    ensures ok <==> IsBcd(raw)
  {
    for i := 0 to |raw|
      invariant IsBcd(raw[..i])
    {
      if raw[i] / 16 > 9 || raw[i] % 16 > 9 {
        return false;
      }
    }
    return true;
  }

  /** The number `decodeBCD` accumulates, before any uint64 wrap-around:
      each byte appends its high nibble, then its low nibble, as decimal
      digits (a nibble above 9 is still weighted as a digit). */
  function BcdValue(raw: seq<uint8>): nat
  {
    if raw == [] then 0
    else (BcdValue(raw[..|raw| - 1]) * 10 + Hi(raw[|raw| - 1])) * 10 + Lo(raw[|raw| - 1])
  }

  const Uint64Modulus: nat := 0x1_0000_0000_0000_0000

  /** `decodeBCD`, in uint64 arithmetic: wraps modulo 2^64. */
  method DecodeBcd(raw: seq<uint8>) returns (x: nat)
    ensures x == BcdValue(raw) % Uint64Modulus
    ensures |raw| <= 9 ==> x == BcdValue(raw)
  {
    x := 0;
    for i := 0 to |raw|
      invariant x == BcdValue(raw[..i]) % Uint64Modulus
    {
      BcdValueSnoc(raw, i);
      ByteStepMod(x, BcdValue(raw[..i]), raw[i]);
      x := (x * 10 + raw[i] / 16) % Uint64Modulus;
      x := (x * 10 + raw[i] % 16) % Uint64Modulus;
    }
    assert raw[..|raw|] == raw;
    if |raw| <= 9 {
      BcdFitsUint64(raw);
    }
  }

  lemma BcdValueSnoc(raw: seq<uint8>, i: nat)
    requires i < |raw|
    ensures BcdValue(raw[..i + 1]) == (BcdValue(raw[..i]) * 10 + Hi(raw[i])) * 10 + Lo(raw[i])
  {
    assert raw[..i + 1][..i] == raw[..i];
  }

  /** The two decimal steps of one byte commute with reduction modulo 2^64. */
  lemma ByteStepMod(x: nat, v: nat, b: uint8)
    requires x == v % Uint64Modulus
    ensures (((x * 10 + b / 16) % Uint64Modulus) * 10 + b % 16) % Uint64Modulus
            == ((v * 10 + Hi(b)) * 10 + Lo(b)) % Uint64Modulus
  {
    ModStep(v, b / 16);
    ModStep(v * 10 + b / 16, b % 16);
  }

  /** One decimal step commutes with reduction modulo 2^64. */
  lemma ModStep(a: nat, d: nat)
    ensures ((a % Uint64Modulus) * 10 + d) % Uint64Modulus == (a * 10 + d) % Uint64Modulus
  {
    var q := a / Uint64Modulus;
    assert a == q * Uint64Modulus + a % Uint64Modulus;
    assert a * 10 + d == (a % Uint64Modulus) * 10 + d + (q * 10) * Uint64Modulus;
  }

  function Pow10(n: nat): (p: nat)
    ensures p >= 1
  {
    if n == 0 then 1 else 10 * Pow10(n - 1)
  }

  /** However large the nibbles, n bytes accumulate at most 15/9 of the
      largest 2n-digit number. */
  lemma {:induction false} BcdValueBound(raw: seq<uint8>)
    ensures 9 * BcdValue(raw) <= 15 * (Pow10(2 * |raw|) - 1)
  {
    if raw != [] {
      var init := raw[..|raw| - 1];
      BcdValueBound(init);
      assert Pow10(2 * |raw|) == 100 * Pow10(2 * |init|);
    }
  }

  /** At most nine bytes (all the callers pass) never wrap uint64, nor even
      int64, whatever the nibbles. */
  lemma BcdFitsUint64(raw: seq<uint8>)
    requires |raw| <= 9
    ensures BcdValue(raw) < 0x8000_0000_0000_0000
  {
    BcdValueBound(raw);
    Pow10Monotone(2 * |raw|, 18);
    Pow10Values();
  }

  lemma Pow10Values()
    ensures Pow10(3) == 1000 && Pow10(4) == 10_000 && Pow10(5) == 100_000
    ensures Pow10(7) == 10_000_000 && Pow10(10) == 10_000_000_000
    ensures Pow10(15) == 1_000_000_000_000_000 && Pow10(18) == 1_000_000_000_000_000_000
  {
    assert Pow10(1) == 10;
    assert Pow10(2) == 100;
    assert Pow10(3) == 1000;
    assert Pow10(4) == 10_000;
    assert Pow10(5) == 100_000;
    assert Pow10(6) == 1_000_000;
    assert Pow10(7) == 10_000_000;
    assert Pow10(8) == 100_000_000;
    assert Pow10(9) == 1_000_000_000;
    assert Pow10(10) == 10_000_000_000;
    assert Pow10(11) == 100_000_000_000;
    assert Pow10(12) == 1_000_000_000_000;
    assert Pow10(13) == 10_000_000_000_000;
    assert Pow10(14) == 100_000_000_000_000;
    assert Pow10(15) == 1_000_000_000_000_000;
    assert Pow10(16) == 10_000_000_000_000_000;
    assert Pow10(17) == 100_000_000_000_000_000;
  }

  lemma {:induction false} Pow10Monotone(i: nat, j: nat)
    requires i <= j
    ensures Pow10(i) <= Pow10(j)
  {
    if i < j {
      Pow10Monotone(i, j - 1);
    }
  }

  /** The nibbles of raw, high nibble first: the digit string BCD stands for. */
  function Nibbles(raw: seq<uint8>): (ds: seq<nat>)
    ensures |ds| == 2 * |raw|
  {
    if raw == [] then [] else Nibbles(raw[..|raw| - 1]) + [Hi(raw[|raw| - 1]), Lo(raw[|raw| - 1])]
  }

  /** The number a digit string denotes, most significant digit first. */
  function DigitsValue(ds: seq<nat>): nat
  {
    if ds == [] then 0 else DigitsValue(ds[..|ds| - 1]) * 10 + ds[|ds| - 1]
  }

  predicate AreDigits(ds: seq<nat>)
  {
    forall i :: 0 <= i < |ds| ==> ds[i] <= 9
  }

  lemma {:induction false} BcdValueIsDigits(raw: seq<uint8>)
    ensures BcdValue(raw) == DigitsValue(Nibbles(raw))
  {
    if raw != [] {
      var init := raw[..|raw| - 1];
      BcdValueIsDigits(init);
      var n := Nibbles(init);
      var ds := Nibbles(raw);
      assert ds == n + [Hi(raw[|raw| - 1]), Lo(raw[|raw| - 1])];
      assert ds[..|ds| - 1] == n + [Hi(raw[|raw| - 1])];
      assert (n + [Hi(raw[|raw| - 1])])[..|n|] == n;
    }
  }

  lemma {:induction false} NibblesAreDigits(raw: seq<uint8>)
    requires IsBcd(raw)
    ensures AreDigits(Nibbles(raw))
  {
    if raw != [] {
      NibblesAreDigits(raw[..|raw| - 1]);
    }
  }

  /** Concatenating digit strings shifts the first by the second's width. */
  lemma {:induction false} DigitsValueAppend(a: seq<nat>, b: seq<nat>)
    ensures DigitsValue(a + b) == DigitsValue(a) * Pow10(|b|) + DigitsValue(b)
  {
    if b != [] {
      var b' := b[..|b| - 1];
      assert (a + b)[..|a + b| - 1] == a + b';
      DigitsValueAppend(a, b');
      calc {
        DigitsValue(a + b);
        DigitsValue(a + b') * 10 + b[|b| - 1];
        (DigitsValue(a) * Pow10(|b'|) + DigitsValue(b')) * 10 + b[|b| - 1];
        { MulAssoc(DigitsValue(a), Pow10(|b'|), 10); }
        DigitsValue(a) * Pow10(|b|) + DigitsValue(b);
      }
    } else {
      assert a + b == a;
    }
  }

  lemma MulAssoc(x: nat, y: nat, z: nat)
    ensures (x * y) * z == x * (z * y)
  {
  }

  lemma {:induction false} DigitsValueBound(ds: seq<nat>)
    requires AreDigits(ds)
    ensures DigitsValue(ds) < Pow10(|ds|)
  {
    if ds != [] {
      DigitsValueBound(ds[..|ds| - 1]);
    }
  }

  /** The BCD bytes of x in n bytes, most significant first. */
  function EncodeBcd(x: nat, n: nat): (r: seq<uint8>)
    ensures |r| == n && IsBcd(r)
  {
    if n == 0 then [] else EncodeBcd(x / 100, n - 1) + [((x / 10) % 10) * 16 + x % 10]
  }

  /** Encoding a number that fits and decoding it gives the number back. */
  lemma {:induction false} BcdRoundTrip(x: nat, n: nat)
    requires x < Pow10(2 * n)
    ensures BcdValue(EncodeBcd(x, n)) == x
  {
    if n > 0 {
      var r := EncodeBcd(x, n);
      var b: uint8 := ((x / 10) % 10) * 16 + x % 10;
      assert r == EncodeBcd(x / 100, n - 1) + [b];
      assert r[..|r| - 1] == EncodeBcd(x / 100, n - 1);
      assert Pow10(2 * n) == 100 * Pow10(2 * (n - 1));
      BcdRoundTrip(x / 100, n - 1);
      assert Hi(b) == (x / 10) % 10 && Lo(b) == x % 10;
      assert BcdValue(r) == ((x / 100) * 10 + (x / 10) % 10) * 10 + x % 10;
      LastTwoDigits(x);
    } else {
      assert Pow10(0) == 1;
    }
  }

  lemma LastTwoDigits(x: nat)
    ensures ((x / 100) * 10 + (x / 10) % 10) * 10 + x % 10 == x
  {
    var t := x / 10;
    assert x == 10 * t + x % 10;
    assert t == 10 * (t / 10) + t % 10;
    assert t / 10 == x / 100;
  }

  /** BCD bytes are determined by their value: decoding loses nothing. */
  lemma {:induction false} BcdEncodeDecode(raw: seq<uint8>)
    requires IsBcd(raw)
    ensures EncodeBcd(BcdValue(raw), |raw|) == raw
  {
    if raw != [] {
      var init := raw[..|raw| - 1];
      var b := raw[|raw| - 1];
      var x := BcdValue(raw);
      BcdEncodeDecode(init);
      LastByteDigits(BcdValue(init), Hi(b), Lo(b));
      assert init + [b] == raw;
    }
  }

  lemma LastByteDigits(v: nat, h: nat, l: nat)
    requires h <= 9 && l <= 9
    ensures var x := v * 100 + h * 10 + l;
            x / 100 == v && (x / 10) % 10 == h && x % 10 == l
  {
    var x := v * 100 + h * 10 + l;
    assert x == (v * 10 + h) * 10 + l;
    assert x / 10 == v * 10 + h;
  }

  // ---------------------------------------------------------------------
  // Decimal text, as `fmt` prints a non-negative integer with `%d`.

  function DigitChar(d: nat): (c: char)
    requires d <= 9
    ensures '0' <= c <= '9' && (c - '0') as nat == d
  {
    "0123456789"[d]
  }

  function Decimal(n: nat): (s: string)
    ensures |s| >= 1 && '0' <= s[0] <= '9'
    ensures forall i :: 0 <= i < |s| ==> '0' <= s[i] <= '9'
    ensures |s| > 1 ==> s[0] != '0'
  {
    if n < 10 then [DigitChar(n)] else Decimal(n / 10) + [DigitChar(n % 10)]
  }

  /** The number a string of decimal digits denotes. */
  function DecimalValue(s: string): nat
  {
    if s == [] then 0
    else DecimalValue(s[..|s| - 1]) * 10 + (if '0' <= s[|s| - 1] <= '9' then (s[|s| - 1] - '0') as nat else 0)
  }

  lemma {:induction false} DecimalRoundTrip(n: nat)
    ensures DecimalValue(Decimal(n)) == n
  {
    if n >= 10 {
      var s := Decimal(n);
      var c := DigitChar(n % 10);
      assert s == Decimal(n / 10) + [c];
      assert s[..|s| - 1] == Decimal(n / 10) && s[|s| - 1] == c;
      DecimalRoundTrip(n / 10);
      assert DecimalValue(s) == DecimalValue(Decimal(n / 10)) * 10 + (c - '0') as nat;
    }
  }

  // ---------------------------------------------------------------------
  // Version records

  const InvalidVersion: string := "<invalid>"

  /** The three numbers of a version record: the 10-digit value divided as
      `x / 10^7`, `(x / 10^4) % 1000` and `x % 10^4`. */
  function VersionParts(raw: seq<uint8>): (nat, nat, nat)
  {
    var x := BcdValue(raw);
    (x / 10_000_000, (x / 10_000) % 1000, x % 10_000)
  }

  /** `parseBCDVersion`. */
  function ParseBcdVersion(raw: seq<uint8>): (s: string)
    ensures s == InvalidVersion <==> |raw| != 5 || !IsBcd(raw)
  {
    if |raw| != 5 || !IsBcd(raw) then InvalidVersion
    else
      var (major, minor, patch) := VersionParts(raw);
      var s := Decimal(major) + "." + Decimal(minor) + "." + Decimal(patch);
      assert s[0] != InvalidVersion[0];
      s
  }

  /** The version is the ten digits split 3 / 3 / 4. */
  lemma VersionDigits(raw: seq<uint8>)
    requires |raw| == 5 && IsBcd(raw)
    ensures var ds := Nibbles(raw);
            VersionParts(raw) == (DigitsValue(ds[..3]), DigitsValue(ds[3..6]), DigitsValue(ds[6..]))
  {
    var ds := Nibbles(raw);
    BcdValueIsDigits(raw);
    NibblesAreDigits(raw);
    SplitThree(ds, 3, 3, 4);
    Pow10Values();
    SplitVersion(BcdValue(raw), DigitsValue(ds[..3]), DigitsValue(ds[3..6]), DigitsValue(ds[6..]));
  }

  lemma SplitVersion(x: nat, a: nat, b: nat, c: nat)
    requires b < 1000 && c < 10_000 && x == a * 10_000_000 + b * 10_000 + c
    ensures x / 10_000_000 == a && (x / 10_000) % 1000 == b && x % 10_000 == c
  {
    assert x == (a * 1000 + b) * 10_000 + c;
    assert x / 10_000 == a * 1000 + b;
  }

  /** A digit string split into groups of widths i, j and k. */
  lemma SplitThree(ds: seq<nat>, i: nat, j: nat, k: nat)
    requires |ds| == i + j + k && AreDigits(ds)
    ensures DigitsValue(ds) == DigitsValue(ds[..i]) * Pow10(j + k) + DigitsValue(ds[i..i + j]) * Pow10(k) + DigitsValue(ds[i + j..])
    ensures DigitsValue(ds[i..i + j]) < Pow10(j) && DigitsValue(ds[i + j..]) < Pow10(k)
  {
    SplitThreeValue(ds, i, j, k);
    DigitsSlice(ds, i, i + j);
    DigitsSlice(ds, i + j, |ds|);
    DigitsValueBound(ds[i..i + j]);
    DigitsValueBound(ds[i + j..]);
  }

  lemma SplitThreeValue(ds: seq<nat>, i: nat, j: nat, k: nat)
    requires |ds| == i + j + k
    ensures DigitsValue(ds) == DigitsValue(ds[..i]) * Pow10(j + k) + DigitsValue(ds[i..i + j]) * Pow10(k) + DigitsValue(ds[i + j..])
  {
    var a, b, c := ds[..i], ds[i..i + j], ds[i + j..];
    var v, vbc := DigitsValue(ds), DigitsValue(b + c);
    assert v == DigitsValue(a) * Pow10(j + k) + vbc by {
      SliceThree(ds, i, j);
      DigitsValueAppend(a, b + c);
    }
    assert vbc == DigitsValue(b) * Pow10(k) + DigitsValue(c) by {
      DigitsValueAppend(b, c);
    }
    Substitute(v, DigitsValue(a), vbc, DigitsValue(b), DigitsValue(c), Pow10(j + k), Pow10(k));
  }

  lemma Substitute(v: int, va: int, vbc: int, vb: int, vc: int, p: int, q: int)
    requires v == va * p + vbc && vbc == vb * q + vc
    ensures v == va * p + vb * q + vc
  {
  }

  lemma SliceThree(ds: seq<nat>, i: nat, j: nat)
    requires i + j <= |ds|
    ensures ds == ds[..i] + (ds[i..i + j] + ds[i + j..])
    ensures |ds[i..i + j] + ds[i + j..]| == |ds| - i && |ds[i + j..]| == |ds| - i - j
  {
    assert ds[i..] == ds[i..i + j] + ds[i + j..];
    assert ds == ds[..i] + ds[i..];
  }

  lemma DigitsSlice(ds: seq<nat>, lo: nat, hi: nat)
    requires lo <= hi <= |ds| && AreDigits(ds)
    ensures AreDigits(ds[lo..hi])
  {
  }

  /** The example of the version record `01 02 03 04 05`. */
  lemma VersionExample()
    ensures ParseBcdVersion([0x01, 0x02, 0x03, 0x04, 0x05]) == "10.203.405"
  {
    var raw: seq<uint8> := [0x01, 0x02, 0x03, 0x04, 0x05];
    ExampleValue(raw);
    assert VersionParts(raw) == (10, 203, 405);
    ExampleText();
  }

  lemma ExampleValue(raw: seq<uint8>)
    requires raw == [0x01, 0x02, 0x03, 0x04, 0x05]
    ensures IsBcd(raw) && BcdValue(raw) == 102030405
  {
    assert raw[..1][..0] == [];
    assert BcdValue(raw[..1]) == 1;
    assert raw[..2][..1] == raw[..1];
    assert BcdValue(raw[..2]) == 102;
    assert raw[..3][..2] == raw[..2];
    assert BcdValue(raw[..3]) == 10203;
    assert raw[..4][..3] == raw[..3];
    assert BcdValue(raw[..4]) == 1020304;
    assert raw[..4] == raw[..|raw| - 1];
  }

  lemma ExampleText()
    ensures Decimal(10) + "." + Decimal(203) + "." + Decimal(405) == "10.203.405"
  {
    DecimalExamples();
  }

  lemma DecimalExamples()
    ensures Decimal(10) == "10" && Decimal(203) == "203" && Decimal(405) == "405"
  {
    assert Decimal(1) == "1" && Decimal(20) == "20" && Decimal(40) == "40";
  }

  lemma VersionRejectsBadNibble(raw: seq<uint8>, i: nat)
    requires |raw| == 5 && i < 5 && (Hi(raw[i]) > 9 || Lo(raw[i]) > 9)
    ensures ParseBcdVersion(raw) == InvalidVersion
  {
  }

  // ---------------------------------------------------------------------
  // Card serial number (ICCSN) and the GDO file that wraps it

  /** The fields of an ICCSN: the major industry identifier byte as stored,
      then country code, issuer identifier and serial number. */
  datatype CardSerial = CardSerial(majorIndustryIdentifier: uint8, countryCode: int, issuerIdentifier: int, serialNumber: int)

  /** What `ICCSN.UnmarshalBinary` stores: byte 0 as it is, bytes 1 to 9 as
      one 18-digit BCD number cut at 10^15 and 10^10.  The BCD is not
      checked. */
  function UnmarshalIccsn(raw: seq<uint8>): (r: Result<CardSerial, FormatError>)
    ensures r.Success? <==> |raw| == 10
    ensures r.Failure? ==> r.error == TooShort
    ensures r.Success? ==> r.value.majorIndustryIdentifier == raw[0]
  {
    if |raw| != 10 then Failure(TooShort)
    else
      var x := BcdValue(raw[1..]);
      Success(CardSerial(raw[0], x / 1_000_000_000_000_000, (x / 10_000_000_000) % 100_000, x % 10_000_000_000))
  }

  /** For valid BCD the eighteen digits split 3 / 5 / 10. */
  lemma IccsnDigits(raw: seq<uint8>)
    requires |raw| == 10 && IsBcd(raw[1..])
    ensures var ds := Nibbles(raw[1..]);
            var sn := UnmarshalIccsn(raw).value;
            sn.countryCode == DigitsValue(ds[..3])
            && sn.issuerIdentifier == DigitsValue(ds[3..8])
            && sn.serialNumber == DigitsValue(ds[8..])
  {
    var ds := Nibbles(raw[1..]);
    BcdValueIsDigits(raw[1..]);
    NibblesAreDigits(raw[1..]);
    SplitThree(ds, 3, 5, 10);
    Pow10Values();
    SplitSerial(BcdValue(raw[1..]), DigitsValue(ds[..3]), DigitsValue(ds[3..8]), DigitsValue(ds[8..]));
  }

  lemma SplitSerial(x: nat, a: nat, b: nat, c: nat)
    requires b < 100_000 && c < 10_000_000_000
    requires x == a * 1_000_000_000_000_000 + b * 10_000_000_000 + c
    ensures x / 1_000_000_000_000_000 == a && (x / 10_000_000_000) % 100_000 == b && x % 10_000_000_000 == c
  {
    assert x == (a * 100_000 + b) * 10_000_000_000 + c;
    assert x / 10_000_000_000 == a * 100_000 + b;
  }

  /** The serial numbers the 10-byte layout can hold. */
  predicate IsRepresentable(sn: CardSerial)
  {
    0 <= sn.countryCode < 1000 && 0 <= sn.issuerIdentifier < 100_000 && 0 <= sn.serialNumber < 10_000_000_000
  }

  /** The 10 bytes a card stores for a serial number. */
  function EncodeIccsn(sn: CardSerial): (r: seq<uint8>)
    requires IsRepresentable(sn)
    ensures |r| == 10 && r[0] == sn.majorIndustryIdentifier && IsBcd(r[1..])
  {
    [sn.majorIndustryIdentifier] + EncodeBcd(SerialValue(sn), 9)
  }

  /** The eighteen-digit number bytes 1 to 9 hold. */
  function SerialValue(sn: CardSerial): nat
    requires IsRepresentable(sn)
  {
    sn.countryCode * 1_000_000_000_000_000 + sn.issuerIdentifier * 10_000_000_000 + sn.serialNumber
  }

  lemma IccsnRoundTrip(sn: CardSerial)
    requires IsRepresentable(sn)
    ensures UnmarshalIccsn(EncodeIccsn(sn)) == Success(sn)
  {
    var r := EncodeIccsn(sn);
    assert r[1..] == EncodeBcd(SerialValue(sn), 9);
    SerialDigitsRoundTrip(SerialValue(sn), sn.countryCode, sn.issuerIdentifier, sn.serialNumber);
  }

  lemma SerialDigitsRoundTrip(x: nat, a: nat, b: nat, c: nat)
    requires a < 1000 && b < 100_000 && c < 10_000_000_000
    requires x == a * 1_000_000_000_000_000 + b * 10_000_000_000 + c
    ensures var y := BcdValue(EncodeBcd(x, 9));
            y / 1_000_000_000_000_000 == a && (y / 10_000_000_000) % 100_000 == b && y % 10_000_000_000 == c
  {
    SerialFits(a, b, c);
    Pow10Of18();
    BcdRoundTrip(x, 9);
    SplitSerial(x, a, b, c);
  }

  lemma SerialFits(a: nat, b: nat, c: nat)
    requires a < 1000 && b < 100_000 && c < 10_000_000_000
    ensures a * 1_000_000_000_000_000 + b * 10_000_000_000 + c < 1_000_000_000_000_000_000
  {
    assert a * 1_000_000_000_000_000 <= 999 * 1_000_000_000_000_000;
    assert b * 10_000_000_000 <= 99_999 * 10_000_000_000;
  }

  lemma Pow10Of18()
    ensures Pow10(18) == 1_000_000_000_000_000_000
  {
    Pow10Values();
  }

  /** The ICCSN struct, whose `UnmarshalBinary` fills in its fields. */
  class Iccsn {
    var majorIndustryIdentifier: uint8
    var countryCode: int
    var issuerIdentifier: int
    var serialNumber: int

    function Fields(): CardSerial
      reads this
    {
      CardSerial(majorIndustryIdentifier, countryCode, issuerIdentifier, serialNumber)
    }

    /** Go's zero value. */
    constructor ()
      ensures Fields() == CardSerial(0, 0, 0, 0)
    {
      majorIndustryIdentifier, countryCode, issuerIdentifier, serialNumber := 0, 0, 0, 0;
    }

    method UnmarshalBinary(raw: seq<uint8>) returns (err: Option<FormatError>)
      modifies this
      ensures UnmarshalIccsn(raw).Success? ==> err == None && Fields() == UnmarshalIccsn(raw).value
      ensures UnmarshalIccsn(raw).Failure? ==> err == Some(UnmarshalIccsn(raw).error) && Fields() == old(Fields())
    {
      if |raw| != 10 {
        return Some(TooShort);
      }
      majorIndustryIdentifier := raw[0];
      var x := DecodeBcd(raw[1..]);
      countryCode := x / 1_000_000_000_000_000;
      issuerIdentifier := (x / 10_000_000_000) % 100_000;
      serialNumber := x % 10_000_000_000;
      return None;
    }
  }

  const GdoTag: uint8 := 0x5A
  const GdoLength: uint8 := 0x0A

  /** `parseGDO`: a 12-byte TLV `5A 0A` followed by the ICCSN.  The checks
      come in this order: total length, tag, length byte. */
  function ParseGdo(raw: seq<uint8>): (r: Result<CardSerial, FormatError>)
    ensures r.Success? <==> |raw| == 12 && raw[0] == GdoTag && raw[1] == GdoLength
    ensures |raw| != 12 ==> r == Failure(TooShort)
    ensures |raw| == 12 && raw[0] != GdoTag ==> r == Failure(BadTag(raw[0]))
    ensures |raw| == 12 && raw[0] == GdoTag && raw[1] != GdoLength ==> r == Failure(BadLengthByte(raw[1]))
    ensures r.Success? ==> r == UnmarshalIccsn(raw[2..])
  {
    if |raw| != 12 then Failure(TooShort)
    else if raw[0] != GdoTag then Failure(BadTag(raw[0]))
    else if raw[1] != GdoLength then Failure(BadLengthByte(raw[1]))
    else UnmarshalIccsn(raw[2..])
  }

  lemma GdoRoundTrip(sn: CardSerial)
    requires IsRepresentable(sn)
    ensures ParseGdo([GdoTag, GdoLength] + EncodeIccsn(sn)) == Success(sn)
  {
    var raw := [GdoTag, GdoLength] + EncodeIccsn(sn);
    assert raw[2..] == EncodeIccsn(sn);
    IccsnRoundTrip(sn);
  }

  // ---------------------------------------------------------------------
  // The status record EF.StatusVD

  /** Status and timestamp are Go strings, that is, byte strings. */
  datatype StatusRecord = StatusRecord(status: seq<uint8>, timestamp: seq<uint8>, version: string, reserved: seq<uint8>)

  /** What `StatusVD.UnmarshalBinary` stores: a 25-byte record cut 1 / 14 /
      5 / 5, the third part read as a version.  A bad version is not an
      error: it reads as `<invalid>`. */
  function UnmarshalStatusVd(raw: seq<uint8>): (r: Result<StatusRecord, FormatError>)
    ensures r.Success? <==> |raw| == 25
    ensures r.Failure? ==> r.error == InvalidLength
    ensures r.Success? ==>
              var v := r.value;
              |v.status| == 1 && |v.timestamp| == 14 && |v.reserved| == 5
              && v.status + v.timestamp == raw[..15]
              && v.version == ParseBcdVersion(raw[15..20])
              && v.reserved == raw[20..]
  {
    if |raw| != 25 then Failure(InvalidLength)
    else Success(StatusRecord(raw[0..1], raw[1..15], ParseBcdVersion(raw[15..20]), raw[20..]))
  }

  /** Laying out the four parts reads them back. */
  lemma StatusVdLayout(status: uint8, timestamp: seq<uint8>, version: seq<uint8>, reserved: seq<uint8>)
    requires |timestamp| == 14 && |version| == 5 && |reserved| == 5
    ensures UnmarshalStatusVd([status] + timestamp + version + reserved)
            == Success(StatusRecord([status], timestamp, ParseBcdVersion(version), reserved))
  {
    var raw := [status] + timestamp + version + reserved;
    assert raw[0..1] == [status];
    assert raw[1..15] == timestamp;
    assert raw[15..20] == version;
    assert raw[20..] == reserved;
  }

  /** The StatusVD struct, whose `UnmarshalBinary` fills in its fields. */
  class StatusVd {
    var status: seq<uint8>
    var timestamp: seq<uint8>
    var version: string
    var reserved: seq<uint8>

    function Fields(): StatusRecord
      reads this
    {
      StatusRecord(status, timestamp, version, reserved)
    }

    /** Go's zero value: empty strings and five zero bytes. */
    constructor ()
      ensures Fields() == StatusRecord([], [], "", Zeros(5))
    {
      status, timestamp, version, reserved := [], [], "", Zeros(5);
    }

    method UnmarshalBinary(raw: seq<uint8>) returns (err: Option<FormatError>)
      modifies this
      ensures UnmarshalStatusVd(raw).Success? ==> err == None && Fields() == UnmarshalStatusVd(raw).value
      ensures UnmarshalStatusVd(raw).Failure? ==> err == Some(InvalidLength) && Fields() == old(Fields())
    {
      if |raw| != 25 {
        return Some(InvalidLength);
      }
      status := raw[0..1];
      timestamp := raw[1..15];
      version := ParseBcdVersion(raw[15..20]);
      reserved := raw[20..];
      return None;
    }
  }

  // ---------------------------------------------------------------------
  // Regions handed to the gzip/XML decoder

  /** EF.PD: a big-endian length, then that many bytes.  A buffer too short
      for the prefix, or a length beyond the buffer, faults. */
  function PdRegion(rawpd: seq<uint8>): (r: Result<seq<uint8>, FormatError>)
    ensures r.Success? <==> |rawpd| >= 2 && BigEndian16(rawpd[0], rawpd[1]) <= |rawpd| - 2
    ensures |rawpd| < 2 ==> r == Failure(TruncatedHeader)
    ensures r.Failure? && |rawpd| >= 2 ==> r == Failure(BadRegion)
    ensures r.Success? ==> |r.value| == BigEndian16(rawpd[0], rawpd[1]) && rawpd[..2] + r.value <= rawpd
  {
    if |rawpd| < 2 then Failure(TruncatedHeader)
    else
      var len := BigEndian16(rawpd[0], rawpd[1]);
      if len > |rawpd| - 2 then Failure(BadRegion) else Success(rawpd[2..2 + len])
  }

  /** Prefixing a document with its length and appending anything gives the
      document back. */
  lemma PdRoundTrip(doc: seq<uint8>, rest: seq<uint8>)
    requires |doc| < 0x1_0000
    ensures PdRegion(ToBigEndian16(|doc|) + doc + rest) == Success(doc)
  {
    var raw := ToBigEndian16(|doc|) + doc + rest;
    assert BigEndian16(raw[0], raw[1]) == |doc|;
    assert raw[2..2 + |doc|] == doc;
  }

  /** Where EF.VD keeps the start/end offsets of each document. */
  const VdOffsets: nat := 0
  const GvdOffsets: nat := 4

  /** EF.VD: four big-endian offsets (VD start, VD end, GVD start, GVD end),
      then the two documents.  All four offsets are read before either
      slice, so a buffer under 8 bytes faults for both. */
  function OffsetRegion(raw: seq<uint8>, at: nat): (r: Result<seq<uint8>, FormatError>)
    requires at == VdOffsets || at == GvdOffsets
    ensures r.Success? <==>
              |raw| >= 8
              && BigEndian16(raw[at], raw[at + 1]) <= BigEndian16(raw[at + 2], raw[at + 3]) <= |raw|
    ensures |raw| < 8 ==> r == Failure(TruncatedHeader)
    ensures r.Failure? && |raw| >= 8 ==> r == Failure(BadRegion)
    ensures r.Success? ==>
              var start := BigEndian16(raw[at], raw[at + 1]);
              |r.value| == BigEndian16(raw[at + 2], raw[at + 3]) - start
              && forall i :: 0 <= i < |r.value| ==> r.value[i] == raw[start + i]
  {
    if |raw| < 8 then Failure(TruncatedHeader)
    else
      var start := BigEndian16(raw[at], raw[at + 1]);
      var end := BigEndian16(raw[at + 2], raw[at + 3]);
      if end < start || end > |raw| then Failure(BadRegion) else Success(raw[start..end])
  }

  /** An EF.VD laid out as VD then GVD right after the offset table. */
  function VdFile(vd: seq<uint8>, gvd: seq<uint8>): seq<uint8>
    requires 8 + |vd| + |gvd| < 0x1_0000
  {
    ToBigEndian16(8) + ToBigEndian16(8 + |vd|) + ToBigEndian16(8 + |vd|) + ToBigEndian16(8 + |vd| + |gvd|)
    + vd + gvd
  }

  lemma VdRoundTrip(vd: seq<uint8>, gvd: seq<uint8>)
    requires 8 + |vd| + |gvd| < 0x1_0000
    ensures OffsetRegion(VdFile(vd, gvd), VdOffsets) == Success(vd)
    ensures OffsetRegion(VdFile(vd, gvd), GvdOffsets) == Success(gvd)
  {
    var raw := VdFile(vd, gvd);
    var n := |vd|;
    assert BigEndian16(raw[0], raw[1]) == 8;
    assert BigEndian16(raw[2], raw[3]) == 8 + n;
    assert BigEndian16(raw[4], raw[5]) == 8 + n;
    assert BigEndian16(raw[6], raw[7]) == 8 + n + |gvd|;
    assert raw[8..8 + n] == vd;
    assert raw[8 + n..8 + n + |gvd|] == gvd;
  }

  /** A start beyond its end fails whatever the buffer; an end at the
      buffer's end gives everything from the start on. */
  lemma OffsetBoundaries(raw: seq<uint8>, at: nat)
    requires at == VdOffsets || at == GvdOffsets
    requires |raw| >= 8
    ensures BigEndian16(raw[at], raw[at + 1]) > BigEndian16(raw[at + 2], raw[at + 3])
            ==> OffsetRegion(raw, at) == Failure(BadRegion)
    ensures var start := BigEndian16(raw[at], raw[at + 1]);
            BigEndian16(raw[at + 2], raw[at + 3]) == |raw| && start <= |raw|
            ==> OffsetRegion(raw, at) == Success(raw[start..])
  {
    var start := BigEndian16(raw[at], raw[at + 1]);
    if BigEndian16(raw[at + 2], raw[at + 3]) == |raw| && start <= |raw| {
      assert raw[start..|raw|] == raw[start..];
    }
  }

  // ---------------------------------------------------------------------
  // Certificate files

  /** `parseCert` up to the X.509 parser.  `firstValue` is what the ASN.1
      reader reports: how many bytes its first value takes, or None when it
      rejects the input.  The certificate bytes are returned only when
      everything after them is zero. */
  function ParseCert(raw: seq<uint8>, firstValue: Option<nat>): (r: Result<seq<uint8>, FormatError>)
    requires firstValue.Some? ==> firstValue.value <= |raw|
    ensures firstValue.None? ==> r == Failure(Asn1Error)
    ensures firstValue.Some? ==> (r.Success? <==> AllZero(raw[firstValue.value..]))
    ensures firstValue.Some? && r.Failure? ==> r.error == NonZeroTrailing
    ensures r.Success? ==> |r.value| == firstValue.value && r.value <= raw
  {
    match firstValue
    case None => Failure(Asn1Error)
    case Some(n) => if AllZero(raw[n..]) then Success(raw[..n]) else Failure(NonZeroTrailing)
  }

  /** Zero padding after the certificate is accepted and stripped. */
  lemma CertPaddingAccepted(der: seq<uint8>, k: nat)
    ensures ParseCert(der + Zeros(k), Some(|der|)) == Success(der)
  {
    var raw := der + Zeros(k);
    assert raw[|der|..] == Zeros(k);
    assert raw[..|der|] == der;
  }

  /** Any non-zero byte after the certificate is rejected. */
  lemma CertGarbageRejected(der: seq<uint8>, rest: seq<uint8>, i: nat)
    requires i < |rest| && rest[i] != 0
    ensures ParseCert(der + rest, Some(|der|)) == Failure(NonZeroTrailing)
  {
    var raw := der + rest;
    assert raw[|der|..] == rest;
  }
}
