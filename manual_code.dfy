/** `generateManualPairingCode` of matter.ts: the Matter manual pairing code
    (Matter Core Specification, section 5.1.4, "Manual Pairing Code") with the
    VID/PID-present flag set, so the five chunks are followed by the vendor and
    product ids and a Verhoeff check digit, 21 digits in all. */
module ManualPairingCode {
  import opened Bits
  import opened Decimal
  import Verhoeff

  datatype Option<T> = None | Some(value: T)

  /** What a manual pairing code carries: the short (4-bit) discriminator,
      the setup passcode, the vendor id and the product id. */
  datatype Fields = Fields(shortDiscriminator: nat, pincode: nat, vid: nat, pid: nat)

  /** 2^53: below it every integer is a JavaScript number exactly, and its
      `toString` is its plain decimal digits. */
  const SafeIntegerBound: nat := 0x20_0000_0000_0000

  /** The input ranges the Matter specification gives the fields: a 12-bit
      discriminator, a 27-bit passcode and 16-bit vendor and product ids. */
  predicate InRange(discriminator: nat, pincode: nat, vid: nat, pid: nat) {
    discriminator < 0x1000 && pincode < 0x800_0000 && vid <= 0xFFFF && pid <= 0xFFFF
  }

  /** `discriminator >> 8`. */
  function ShortDiscriminator(discriminator: nat): (s: nat)
    requires discriminator < Int32Bound
    ensures s < Int32Bound
  {
    ShiftRight(discriminator, 8)
  }

  /** Chunk 1, `0 << 3 | 1 << 2 | shortDiscriminator >> 2`: version 0 in bit
      3, the VID/PID-present flag in bit 2, the top two bits of the short
      discriminator below them. */
  function Chunk1(short: nat): (c: nat)
    requires short < Int32Bound
    ensures c < Int32Bound
  {
    Pow2Values();
    OrBelowPow2(Or(ShiftLeft(0, 3), ShiftLeft(1, 2)), ShiftRight(short, 2), 31);
    Or(Or(ShiftLeft(0, 3), ShiftLeft(1, 2)), ShiftRight(short, 2))
  }

  /** Chunk 2, `((shortDiscriminator & 0x03) << 14) | pincode & 0x3FFF`: the
      low two bits of the short discriminator above the low 14 bits of the
      passcode. */
  function Chunk2(short: nat, pincode: nat): (c: nat)
    requires pincode < Int32Bound
    ensures c < 0x1_0000
  {
    Pow2Values();
    var high := And(short, 3);
    var low := And(pincode, 0x3FFF);
    assert low < 0x4000 by { LowBits(pincode, 14, 0x4000); }
    PackUnpack(high, low, 14, 0x4000);
    Or(ShiftLeft(high, 14), low)
  }

  /** Chunk 3, `pincode >> 14`: the remaining high bits of the passcode. */
  function Chunk3(pincode: nat): (c: nat)
    requires pincode < Int32Bound
    ensures c < Int32Bound
  {
    ShiftRight(pincode, 14)
  }

  /** `n.toString().padStart(width, '0')`. */
  function Field(n: nat, width: nat): (s: string)
    ensures AllDigits(s)
  {
    PadZerosDigits(ToDecimal(n), width);
    PadStart(ToDecimal(n), width, '0')
  }

  /** The payload: the five chunks written in decimal, padded with zeros on
      the left to 1, 5, 4, 5 and 5 digits. */
  function Payload(discriminator: nat, pincode: nat, vid: nat, pid: nat): (payload: string)
    requires discriminator < Int32Bound && pincode < Int32Bound
    requires vid < SafeIntegerBound && pid < SafeIntegerBound
    ensures AllDigits(payload)
  {
    var short := ShortDiscriminator(discriminator);
    var f1, f2, f3, f4, f5 := Field(Chunk1(short), 1), Field(Chunk2(short, pincode), 5),
      Field(Chunk3(pincode), 4), Field(vid, 5), Field(pid, 5);
    ConcatDigits(f1, f2);
    ConcatDigits(f1 + f2, f3);
    ConcatDigits(f1 + f2 + f3, f4);
    ConcatDigits(f1 + f2 + f3 + f4, f5);
    f1 + f2 + f3 + f4 + f5
  }

  /** `generateManualPairingCode(discriminator, pincode, vid, pid)`: the
      payload followed by its Verhoeff check digit. */
  function GenerateManualPairingCode(discriminator: nat, pincode: nat, vid: nat, pid: nat): (code: string)
    requires discriminator < Int32Bound && pincode < Int32Bound
    requires vid < SafeIntegerBound && pid < SafeIntegerBound
  {
    var payload := Payload(discriminator, pincode, vid, pid);
    payload + [Verhoeff.CheckDigit(payload)]
  }

  /** The numbers written in the first 20 digits of a code, cut at the chunk
      widths 1, 5, 4, 5 and 5. */
  function ChunkValues(code: string): (v: seq<nat>)
    requires |code| >= 20 && AllDigits(code)
    ensures |v| == 5 && v[0] < 10 && v[1] < 100000 && v[2] < 10000 && v[3] < 100000 && v[4] < 100000
  {
    Pow10Values();
    [Parse(code[0..1]), Parse(code[1..6]), Parse(code[6..10]), Parse(code[10..15]), Parse(code[15..20])]
  }

  /** Reading a manual pairing code back, as a commissioner does: 21 digits
      that pass the Verhoeff test, whose chunk values `Unpack` accepts. */
  function Decode(code: string): (f: Option<Fields>)
  {
    if |code| != 21 || !AllDigits(code) || !Verhoeff.IsValid(code) then None
    else Unpack(ChunkValues(code))
  }

  /** The fields put together again from the five chunk values by the inverse
      bit operations, when chunk 1 holds version 0 with the VID/PID flag set
      and every value is inside its range. */
  function Unpack(v: seq<nat>): (f: Option<Fields>)
    requires |v| == 5 && v[0] < 10 && v[1] < 100000 && v[2] < 10000
  {
    var c1, c2, c3, vid, pid := v[0], v[1], v[2], v[3], v[4];
    Pow2Values();
    if ShiftRight(c1, 2) != 1 || c2 >= 0x1_0000 || c3 >= 0x2000 || vid > 0xFFFF || pid > 0xFFFF then None
    else
      assert c3 * Pow2(14) < Int32Bound && And(c1, 3) * Pow2(2) < Int32Bound;
      Some(Fields(
        Or(ShiftLeft(And(c1, 3), 2), ShiftRight(c2, 14)),
        Or(ShiftLeft(c3, 14), And(c2, 0x3FFF)),
        vid, pid))
  }

  // ---------------------------------------------------------------------------
  // The chunks

  /** A discriminator in [0, 4095] has a short discriminator in [0, 15]. */
  lemma ShortDiscriminatorRange(discriminator: nat)
    requires discriminator < 0x1000
    ensures ShortDiscriminator(discriminator) == discriminator / 256 < 16
  {
    Pow2Values();
  }

  /** For a 4-bit short discriminator, chunk 1 is the single digit
      4 + (short >> 2), in [4, 7]: bit 3 (the version) is 0 and bit 2 (the
      VID/PID flag) is 1. */
  lemma Chunk1Range(short: nat)
    requires short < 16
    ensures 4 <= Chunk1(short) <= 7
    ensures Bit(Chunk1(short), 3) == 0 && Bit(Chunk1(short), 2) == 1
  {
    Chunk1Value(short);
    Pow2Values();
  }

  /** Chunk 1 in arithmetic terms: 4 + (short >> 2). */
  lemma Chunk1Value(short: nat)
    requires short < 16
    ensures Chunk1(short) == 4 + short / 4
  {
    Pow2Values();
    assert Or(ShiftLeft(0, 3), ShiftLeft(1, 2)) == 4;
    OrDisjoint(1, short / 4, 2);
  }

  /** Chunk 2 holds the low two bits of the short discriminator times 2^14
      plus the low 14 bits of the passcode; it is below 65536, so at most
      five digits. */
  lemma Chunk2Value(short: nat, pincode: nat)
    requires pincode < Int32Bound
    ensures Chunk2(short, pincode) == (short % 4) * 0x4000 + pincode % 0x4000
  {
    Pow2Values();
    LowBits(short, 2, 4);
    LowBits(pincode, 14, 0x4000);
    PackUnpack(short % 4, pincode % 0x4000, 14, 0x4000);
  }

  /** Chunk 3 is the passcode without its low 14 bits: at most 8191, so at
      most four digits, for a 27-bit passcode. */
  lemma Chunk3Range(pincode: nat)
    requires pincode < 0x800_0000
    ensures Chunk3(pincode) == pincode / 0x4000 < 0x2000
  {
    Pow2Values();
  }

  // ---------------------------------------------------------------------------
  // The code

  /** A number below 10^width is written in exactly `width` digits, which
      read back as the number. */
  lemma FieldWidth(n: nat, width: nat)
    requires 1 <= width && n < Pow10(width)
    ensures |Field(n, width)| == width && Parse(Field(n, width)) == n
  {
    ToDecimalLength(n, width);
    ParsePadded(n, width);
  }

  /** Five strings of widths 1, 5, 4, 5 and 5 laid end to end, and cut apart
      again at those widths. */
  lemma Concat5(s1: string, s2: string, s3: string, s4: string, s5: string)
    requires |s1| == 1 && |s2| == 5 && |s3| == 4 && |s4| == 5 && |s5| == 5
    ensures var p := s1 + s2 + s3 + s4 + s5;
            |p| == 20 && p[0..1] == s1 && p[1..6] == s2 && p[6..10] == s3 &&
            p[10..15] == s4 && p[15..20] == s5
  {
  }

  /** For inputs in range the payload is 20 digits, and cutting it at the
      chunk widths reads back the five chunk values. */
  lemma PayloadFields(discriminator: nat, pincode: nat, vid: nat, pid: nat)
    requires InRange(discriminator, pincode, vid, pid)
    ensures var payload := Payload(discriminator, pincode, vid, pid);
            var short := ShortDiscriminator(discriminator);
            |payload| == 20 &&
            ChunkValues(payload) == [Chunk1(short), Chunk2(short, pincode), Chunk3(pincode), vid, pid]
  {
    var short := ShortDiscriminator(discriminator);
    ShortDiscriminatorRange(discriminator);
    Chunk1Value(short);
    Chunk3Range(pincode);
    Pow10Values();
    var f1, f2, f3 := Field(Chunk1(short), 1), Field(Chunk2(short, pincode), 5), Field(Chunk3(pincode), 4);
    var f4, f5 := Field(vid, 5), Field(pid, 5);
    FieldWidth(Chunk1(short), 1);
    FieldWidth(Chunk2(short, pincode), 5);
    FieldWidth(Chunk3(pincode), 4);
    FieldWidth(vid, 5);
    FieldWidth(pid, 5);
    var payload := Payload(discriminator, pincode, vid, pid);
    assert payload == f1 + f2 + f3 + f4 + f5;
    Concat5(f1, f2, f3, f4, f5);
    assert ChunkValues(payload) == [Parse(f1), Parse(f2), Parse(f3), Parse(f4), Parse(f5)];
  }

  /** For inputs in range the code is 21 decimal digits: the 20-digit
      payload followed by its Verhoeff check digit, so the code passes the
      Verhoeff test. */
  lemma CodeShape(discriminator: nat, pincode: nat, vid: nat, pid: nat)
    requires InRange(discriminator, pincode, vid, pid)
    ensures var code := GenerateManualPairingCode(discriminator, pincode, vid, pid);
            |code| == 21 && AllDigits(code) &&
            code[..20] == Payload(discriminator, pincode, vid, pid) &&
            code[20] == Verhoeff.CheckDigit(code[..20]) &&
            Verhoeff.IsValid(code)
  {
    var payload := Payload(discriminator, pincode, vid, pid);
    PayloadFields(discriminator, pincode, vid, pid);
    var code := GenerateManualPairingCode(discriminator, pincode, vid, pid);
    assert code[..20] == payload;
    Verhoeff.CheckDigitValid(payload, Verhoeff.CheckDigit(payload));
  }

  /** What the decoder computes, in arithmetic terms: it accepts exactly the
      21-digit strings that pass the Verhoeff test and whose chunks are in
      range, and it rebuilds the fields with multiplication and remainder. */
  lemma DecodeArithmetic(code: string)
    ensures Decode(code).Some? <==>
            |code| == 21 && AllDigits(code) && Verhoeff.IsValid(code) &&
            var v := ChunkValues(code);
            4 <= v[0] <= 7 && v[1] < 0x1_0000 && v[2] < 0x2000 && v[3] <= 0xFFFF && v[4] <= 0xFFFF
    ensures Decode(code).Some? ==>
            var v := ChunkValues(code);
            Decode(code).value == Fields((v[0] % 4) * 4 + v[1] / 0x4000, v[2] * 0x4000 + v[1] % 0x4000, v[3], v[4])
  {
    if |code| == 21 && AllDigits(code) && Verhoeff.IsValid(code) {
      var v := ChunkValues(code);
      assert Decode(code) == Unpack(v);
      UnpackArithmetic(v);
    }
  }

  /** `Unpack` in arithmetic terms: it accepts exactly the chunk values with
      chunk 1 in [4, 7] (version 0, flag set) and the other values in range. */
  lemma UnpackArithmetic(v: seq<nat>)
    requires |v| == 5 && v[0] < 10 && v[1] < 100000 && v[2] < 10000
    ensures Unpack(v).Some? <==>
            4 <= v[0] <= 7 && v[1] < 0x1_0000 && v[2] < 0x2000 && v[3] <= 0xFFFF && v[4] <= 0xFFFF
    ensures Unpack(v).Some? ==>
            Unpack(v).value == Fields((v[0] % 4) * 4 + v[1] / 0x4000, v[2] * 0x4000 + v[1] % 0x4000, v[3], v[4])
  {
    Pow2Values();
    assert ShiftRight(v[0], 2) == 1 <==> 4 <= v[0] <= 7;
    if 4 <= v[0] <= 7 && v[1] < 0x1_0000 && v[2] < 0x2000 {
      UnpackFields(v[0], v[1], v[2]);
    }
  }

  /** The inverse bit operations of the decoder, in arithmetic terms. */
  lemma UnpackFields(c1: nat, c2: nat, c3: nat)
    requires 4 <= c1 <= 7 && c2 < 0x1_0000 && c3 < 0x2000
    ensures c3 * Pow2(14) < Int32Bound && And(c1, 3) * Pow2(2) < Int32Bound
    ensures Or(ShiftLeft(And(c1, 3), 2), ShiftRight(c2, 14)) == (c1 % 4) * 4 + c2 / 0x4000
    ensures Or(ShiftLeft(c3, 14), And(c2, 0x3FFF)) == c3 * 0x4000 + c2 % 0x4000
  {
    UnpackShort(c1, c2);
    UnpackPincode(c2, c3);
  }

  /** `(c1 & 3) << 2 | c2 >> 14`: the short discriminator from chunks 1 and 2. */
  lemma UnpackShort(c1: nat, c2: nat)
    requires 4 <= c1 <= 7 && c2 < 0x1_0000
    ensures And(c1, 3) * Pow2(2) < Int32Bound
    ensures Or(ShiftLeft(And(c1, 3), 2), ShiftRight(c2, 14)) == (c1 % 4) * 4 + c2 / 0x4000
  {
    Pow2Values();
    LowBits(c1, 2, 4);
    PackUnpack(c1 % 4, c2 / 0x4000, 2, 4);
  }

  /** `c3 << 14 | c2 & 0x3FFF`: the passcode from chunks 2 and 3. */
  lemma UnpackPincode(c2: nat, c3: nat)
    requires c2 < 0x1_0000 && c3 < 0x2000
    ensures c3 * Pow2(14) < Int32Bound
    ensures Or(ShiftLeft(c3, 14), And(c2, 0x3FFF)) == c3 * 0x4000 + c2 % 0x4000
  {
    Pow2Values();
    LowBits(c2, 14, 0x4000);
    PackUnpack(c3, c2 % 0x4000, 14, 0x4000);
  }

  /** The five numbers the generator writes for a short discriminator, a
      passcode, a vendor id and a product id, in arithmetic terms. */
  function LaidOut(short: nat, pincode: nat, vid: nat, pid: nat): (v: seq<nat>) {
    [4 + short / 4, (short % 4) * 0x4000 + pincode % 0x4000, pincode / 0x4000, vid, pid]
  }

  /** Only the first 20 digits of a code carry the chunks. */
  lemma ChunkValuesPrefix(code: string)
    requires |code| >= 20 && AllDigits(code)
    ensures ChunkValues(code) == ChunkValues(code[..20])
  {
    var p := code[..20];
    assert code[0..1] == p[0..1] && code[1..6] == p[1..6] && code[6..10] == p[6..10];
    assert code[10..15] == p[10..15] && code[15..20] == p[15..20];
  }

  /** The chunk values of a generated code, in arithmetic terms. */
  lemma GeneratedChunkValues(discriminator: nat, pincode: nat, vid: nat, pid: nat)
    requires InRange(discriminator, pincode, vid, pid)
    ensures var code := GenerateManualPairingCode(discriminator, pincode, vid, pid);
            var short := discriminator / 256;
            |code| == 21 && AllDigits(code) &&
            ChunkValues(code) == LaidOut(short, pincode, vid, pid)
  {
    var code := GenerateManualPairingCode(discriminator, pincode, vid, pid);
    CodeShape(discriminator, pincode, vid, pid);
    PayloadFields(discriminator, pincode, vid, pid);
    ChunkValuesPrefix(code);
    ChunkLayout(discriminator, pincode, vid, pid);
  }

  /** The chunks of in-range inputs are the numbers `LaidOut` gives. */
  lemma ChunkLayout(discriminator: nat, pincode: nat, vid: nat, pid: nat)
    requires InRange(discriminator, pincode, vid, pid)
    ensures var short := ShortDiscriminator(discriminator);
            [Chunk1(short), Chunk2(short, pincode), Chunk3(pincode), vid, pid]
            == LaidOut(discriminator / 256, pincode, vid, pid)
  {
    var short := ShortDiscriminator(discriminator);
    ShortDiscriminatorRange(discriminator);
    Chunk1Value(short);
    Chunk2Value(short, pincode);
    Chunk3Range(pincode);
    LaidOutOf([Chunk1(short), Chunk2(short, pincode), Chunk3(pincode), vid, pid],
      discriminator / 256, pincode, vid, pid);
  }

  /** Decoding a generated code gives back the short discriminator, the
      passcode, the vendor id and the product id. */
  lemma DecodeGenerated(discriminator: nat, pincode: nat, vid: nat, pid: nat)
    requires InRange(discriminator, pincode, vid, pid)
    ensures Decode(GenerateManualPairingCode(discriminator, pincode, vid, pid))
            == Some(Fields(discriminator / 256, pincode, vid, pid))
  {
    var code := GenerateManualPairingCode(discriminator, pincode, vid, pid);
    CodeShape(discriminator, pincode, vid, pid);
    GeneratedChunkValues(discriminator, pincode, vid, pid);
    DecodeChunks(code, discriminator / 256, pincode, vid, pid);
  }

  /** A valid 21-digit string whose chunks hold the values the generator
      writes for some fields decodes to those fields. */
  lemma DecodeChunks(code: string, short: nat, pincode: nat, vid: nat, pid: nat)
    requires short < 16 && pincode < 0x800_0000 && vid <= 0xFFFF && pid <= 0xFFFF
    requires |code| == 21 && AllDigits(code) && Verhoeff.IsValid(code)
    requires ChunkValues(code) == LaidOut(short, pincode, vid, pid)
    ensures Decode(code) == Some(Fields(short, pincode, vid, pid))
  {
    UnpackLaidOut(short, pincode, vid, pid);
  }

  /** Unpacking the chunk values laid out for some fields gives the fields. */
  lemma UnpackLaidOut(short: nat, pincode: nat, vid: nat, pid: nat)
    requires short < 16 && pincode < 0x800_0000 && vid <= 0xFFFF && pid <= 0xFFFF
    ensures var v := LaidOut(short, pincode, vid, pid);
            v[0] < 10 && v[1] < 100000 && v[2] < 10000 &&
            Unpack(v) == Some(Fields(short, pincode, vid, pid))
  {
    var v := LaidOut(short, pincode, vid, pid);
    assert 4 <= v[0] <= 7 && v[1] < 0x1_0000 && v[2] < 0x2000;
    UnpackArithmetic(v);
    RepackArithmetic(short, pincode);
    var f := Fields((v[0] % 4) * 4 + v[1] / 0x4000, v[2] * 0x4000 + v[1] % 0x4000, v[3], v[4]);
    assert f == Fields(short, pincode, vid, pid);
    assert Unpack(v) == Some(f);
  }

  lemma RepackArithmetic(short: nat, pincode: nat)
    requires short < 16
    ensures var c1, c2, c3 := 4 + short / 4, (short % 4) * 0x4000 + pincode % 0x4000, pincode / 0x4000;
            (c1 % 4) * 4 + c2 / 0x4000 == short && c3 * 0x4000 + c2 % 0x4000 == pincode
  {
    DivModUnique((short % 4) * 0x4000 + pincode % 0x4000, 0x4000, short % 4, pincode % 0x4000);
  }

  /** Every code that decodes is exactly the code generated from its fields
      (with the short discriminator as the discriminator's top bits): the
      decoder accepts nothing the generator does not produce. */
  lemma GenerateDecoded(code: string)
    requires Decode(code).Some?
    ensures var f := Decode(code).value;
            InRange(f.shortDiscriminator * 256, f.pincode, f.vid, f.pid) &&
            GenerateManualPairingCode(f.shortDiscriminator * 256, f.pincode, f.vid, f.pid) == code
  {
    DecodeArithmetic(code);
    var v := ChunkValues(code);
    var f := Decode(code).value;
    RepackInverse(v);
    GenerateChunks(code, f.shortDiscriminator, f.pincode, f.vid, f.pid);
  }

  lemma LaidOutOf(v: seq<nat>, short: nat, pincode: nat, vid: nat, pid: nat)
    requires |v| == 5 && v[0] == 4 + short / 4 && v[1] == (short % 4) * 0x4000 + pincode % 0x4000
    requires v[2] == pincode / 0x4000 && v[3] == vid && v[4] == pid
    ensures v == LaidOut(short, pincode, vid, pid)
  {
  }

  /** A valid 21-digit string whose chunks hold the values the generator
      writes for some fields is the code generated from those fields. */
  lemma GenerateChunks(code: string, short: nat, pincode: nat, vid: nat, pid: nat)
    requires short < 16 && pincode < 0x800_0000 && vid <= 0xFFFF && pid <= 0xFFFF
    requires |code| == 21 && AllDigits(code) && Verhoeff.IsValid(code)
    requires ChunkValues(code) == LaidOut(short, pincode, vid, pid)
    ensures InRange(short * 256, pincode, vid, pid)
    ensures GenerateManualPairingCode(short * 256, pincode, vid, pid) == code
  {
    var discriminator := short * 256;
    assert discriminator / 256 == short;
    var generated := GenerateManualPairingCode(discriminator, pincode, vid, pid);
    CodeShape(discriminator, pincode, vid, pid);
    GeneratedChunkValues(discriminator, pincode, vid, pid);
    SameChunks(generated, code);
    SameCheckDigit(generated, code);
  }

  /** The arithmetic inverse of `LaidOut` on chunk values the decoder
      accepts: the fields it rebuilds are in range and lay out to the same
      chunks. */
  lemma RepackInverse(v: seq<nat>)
    requires |v| == 5 && 4 <= v[0] <= 7 && v[1] < 0x1_0000 && v[2] < 0x2000
    ensures var f := Fields((v[0] % 4) * 4 + v[1] / 0x4000, v[2] * 0x4000 + v[1] % 0x4000, v[3], v[4]);
            f.shortDiscriminator < 16 && f.pincode < 0x800_0000 &&
            LaidOut(f.shortDiscriminator, f.pincode, f.vid, f.pid) == v
  {
    var c1, c2, c3 := v[0], v[1], v[2];
    var short, pincode := (c1 % 4) * 4 + c2 / 0x4000, c3 * 0x4000 + c2 % 0x4000;
    DivModUnique(short, 4, c1 % 4, c2 / 0x4000);
    DivModUnique(pincode, 0x4000, c3, c2 % 0x4000);
    DivModUnique(c2, 0x4000, c2 / 0x4000, c2 % 0x4000);
    LaidOutOf(v, short, pincode, v[3], v[4]);
  }

  /** Two digit strings with the same chunk values agree on their first 20
      digits: a number has one digit string of each width. */
  lemma SameChunks(a: string, b: string)
    requires |a| >= 20 && |b| >= 20 && AllDigits(a) && AllDigits(b)
    requires ChunkValues(a) == ChunkValues(b)
    ensures a[..20] == b[..20]
  {
    ParseInjective(a[0..1], b[0..1]);
    ParseInjective(a[1..6], b[1..6]);
    ParseInjective(a[6..10], b[6..10]);
    ParseInjective(a[10..15], b[10..15]);
    ParseInjective(a[15..20], b[15..20]);
    assert a[..20] == a[0..1] + a[1..6] + a[6..10] + a[10..15] + a[15..20];
    assert b[..20] == b[0..1] + b[1..6] + b[6..10] + b[10..15] + b[15..20];
  }

  /** Two 21-digit strings that pass the Verhoeff test and agree on their
      first 20 digits are equal: the last digit is the check digit. */
  lemma SameCheckDigit(a: string, b: string)
    requires |a| == 21 && |b| == 21 && AllDigits(a) && AllDigits(b)
    requires Verhoeff.IsValid(a) && Verhoeff.IsValid(b) && a[..20] == b[..20]
    ensures a == b
  {
    assert a == a[..20] + [a[20]];
    assert b == b[..20] + [b[20]];
    Verhoeff.CheckDigitValid(a[..20], a[20]);
    Verhoeff.CheckDigitValid(b[..20], b[20]);
  }

  /** The worked example of the repository's demonstration drivers
      (discriminator 3840, passcode 11223344, vendor 12340, product 56780).
      The inputs are parameters pinned by the precondition, so that the
      verifier reasons from the lemmas above instead of evaluating the bit
      operations on the literals. */
  lemma KnownVector(discriminator: nat, pincode: nat, vid: nat, pid: nat)
    requires discriminator == 3840 && pincode == 11223344 && vid == 12340 && pid == 56780
    ensures GenerateManualPairingCode(discriminator, pincode, vid, pid) == "749456068512340567807"
  {
    var payload := Payload(discriminator, pincode, vid, pid);
    ExamplePayload(discriminator, pincode, vid, pid);
    Verhoeff.CheckDigitExample();
    assert GenerateManualPairingCode(discriminator, pincode, vid, pid) == payload + ['7'];
    ExampleCode();
  }

  lemma ExampleCode()
    ensures "7" + "49456" + "0685" + "12340" + "56780" + ['7'] == "749456068512340567807"
  {
  }

  /** The payload of the worked example, field by field. */
  lemma ExamplePayload(discriminator: nat, pincode: nat, vid: nat, pid: nat)
    requires discriminator == 3840 && pincode == 11223344 && vid == 12340 && pid == 56780
    ensures Payload(discriminator, pincode, vid, pid) == "7" + "49456" + "0685" + "12340" + "56780"
  {
    ExampleChunks(discriminator, pincode);
    ExampleChunk1Digits();
    ExampleChunk2Digits();
    ExampleChunk3Digits();
    ExampleVendorDigits();
    ExampleProductDigits();
  }

  /** The chunk values of the worked example. */
  lemma ExampleChunks(discriminator: nat, pincode: nat)
    requires discriminator == 3840 && pincode == 11223344
    ensures var short := ShortDiscriminator(discriminator);
            Chunk1(short) == 7 && Chunk2(short, pincode) == 49456 && Chunk3(pincode) == 685
  {
    var short := ShortDiscriminator(discriminator);
    ShortDiscriminatorRange(discriminator);
    DivModUnique(discriminator, 256, 15, 0);
    assert short == 15;
    Chunk1Value(short);
    Chunk2Value(short, pincode);
    Chunk3Range(pincode);
    DivModUnique(pincode, 0x4000, 685, 304);
  }

  // The digits of the worked example's fields, one lemma each, checked
  // through `PaddedParse`: a digit string is the padded decimal form of its
  // value.

  lemma ExampleChunk1Digits()
    ensures Field(7, 1) == "7"
  {
    ParseOneDigit("7");
    PaddedParse("7");
  }

  lemma ExampleChunk2Digits()
    ensures Field(49456, 5) == "49456"
  {
    ParseFiveDigits("49456");
    PaddedParse("49456");
  }

  lemma ExampleChunk3Digits()
    ensures Field(685, 4) == "0685"
  {
    ParseFourDigits("0685");
    PaddedParse("0685");
  }

  lemma ExampleVendorDigits()
    ensures Field(12340, 5) == "12340"
  {
    ParseFiveDigits("12340");
    PaddedParse("12340");
  }

  lemma ExampleProductDigits()
    ensures Field(56780, 5) == "56780"
  {
    ParseFiveDigits("56780");
    PaddedParse("56780");
  }

  lemma ParseOneDigit(s: string)
    requires |s| == 1 && AllDigits(s)
    ensures Parse(s) == DigitValue(s[0])
  {
    assert s[..0] == [];
  }

  lemma ParseFourDigits(s: string)
    requires |s| == 4 && AllDigits(s)
    ensures Parse(s) == 1000 * DigitValue(s[0]) + 100 * DigitValue(s[1]) + 10 * DigitValue(s[2]) + DigitValue(s[3])
  {
    var s3 := s[..3];
    var s2 := s3[..2];
    var s1 := s2[..1];
    assert s3[2] == s[2] && s2[1] == s[1] && s1[0] == s[0];
    ParseLast(s);
    ParseLast(s3);
    ParseLast(s2);
    ParseOneDigit(s1);
  }

  lemma ParseFiveDigits(s: string)
    requires |s| == 5 && AllDigits(s)
    ensures Parse(s) == 10000 * DigitValue(s[0]) + 1000 * DigitValue(s[1]) + 100 * DigitValue(s[2]) + 10 * DigitValue(s[3]) + DigitValue(s[4])
  {
    var s4 := s[..4];
    assert s4[0] == s[0] && s4[1] == s[1] && s4[2] == s[2] && s4[3] == s[3];
    ParseLast(s);
    ParseFourDigits(s4);
  }
}
