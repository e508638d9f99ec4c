/**
 * The bootloader memory-write command that both upload scripts send for one
 * byte: the ASCII line `mw.b 0x<address:08x> 0x<value:02x>` and a newline,
 * and a strict fixed-width reader of such lines that inverts the encoder.
 */
module Commands {
  import opened Wrappers
  import opened Hex

  type Byte = x: int | 0 <= x < 256

  /** 2^32: addresses at or above it need more than eight hex digits. */
  const AddressLimit: nat := 0x1_0000_0000

  /** One memory write: the address and the byte stored there. */
  datatype ByteCommand = ByteCommand(address: nat, value: Byte)

  predicate IsAscii(s: string) {
    forall i | 0 <= i < |s| :: s[i] < 128 as char
  }

  /** The bytes read back as characters (every byte value is a character). */
  function Chars(b: seq<Byte>): (s: string)
    ensures |s| == |b|
  {
    seq(|b|, i requires 0 <= i < |b| => b[i] as char)
  }

  /** Python's `str.encode('ascii')`, which succeeds exactly on ASCII text. */
  function AsciiEncode(s: string): (b: seq<Byte>)
    requires IsAscii(s)
    ensures Chars(b) == s
  {
    seq(|s|, i requires 0 <= i < |s| => s[i] as int)
  }

  /** The text of the command for `c`, before it is encoded to bytes. */
  function Text(c: ByteCommand): (t: string)
    ensures IsAscii(t)
  {
    FormatIsHex(c.address, 8);
    FormatIsHex(c.value, 2);
    "mw.b 0x" + Format(c.address, 8) + " 0x" + Format(c.value, 2) + "\n"
  }

  /** The bytes written to the serial port for `c`. */
  function Encode(c: ByteCommand): (b: seq<Byte>)
    ensures Chars(b) == Text(c)
  {
    AsciiEncode(Text(c))
  }

  /**
   * The strict fixed-width reader: it accepts the fixed prefix, exactly
   * eight and exactly two lower-case hex digits, and the newline, and
   * nothing else.
   */
  function DecodeText(line: string): (r: Option<ByteCommand>)
    ensures r.Some? ==> r.value.address < AddressLimit && |line| == 21
  {
    if |line| == 21 && line[..7] == "mw.b 0x" && line[15..18] == " 0x" && line[20] == '\n'
       && IsHexText(line[7..15]) && IsHexText(line[18..20])
    then
      assert Pow16(8) == AddressLimit && Pow16(2) == 256;
      Some(ByteCommand(Value(line[7..15]), Value(line[18..20])))
    else
      None
  }

  function Decode(line: seq<Byte>): (r: Option<ByteCommand>)
    ensures r.Some? ==> r.value.address < AddressLimit && |line| == 21
  {
    DecodeText(Chars(line))
  }

  /** Where the pieces of the command text lie, for an address of any length. */
  lemma TextParts(c: ByteCommand)
    ensures var a := Format(c.address, 8); var t := Text(c);
      |Format(c.value, 2)| == 2 && |a| >= 8 && |t| == 13 + |a|
      && t[..7] == "mw.b 0x" && t[7..7 + |a|] == a && t[7 + |a|..10 + |a|] == " 0x"
      && t[10 + |a|..12 + |a|] == Format(c.value, 2) && t[12 + |a|] == '\n'
  {
    FormatLength(c.value, 2);
    FormatLength(c.address, 8);
    assert Pow16(2) == 256;
  }

  /** Exactly 21 characters long precisely when the address fits in 32 bits. */
  lemma TextLength(c: ByteCommand)
    ensures |Text(c)| == 21 <==> c.address < AddressLimit
    ensures |Text(c)| >= 21
  {
    TextParts(c);
    FormatLength(c.address, 8);
    assert Pow16(8) == AddressLimit;
  }

  /** `DecodeText` reads back every command text whose address fits in 32 bits, and no other. */
  lemma DecodeTextOfText(c: ByteCommand)
    ensures DecodeText(Text(c)) == (if c.address < AddressLimit then Some(c) else None)
  {
    TextParts(c);
    TextLength(c);
    if c.address < AddressLimit {
      var t := Text(c);
      FormatIsHex(c.address, 8);
      FormatIsHex(c.value, 2);
      FormatValue(c.address, 8);
      FormatValue(c.value, 2);
      assert t[7..15] == Format(c.address, 8);
      assert t[18..20] == Format(c.value, 2);
    }
  }

  /** Round trip: the bytes sent for `c` decode to `c` exactly when its address is below 2^32. */
  lemma DecodeEncode(c: ByteCommand)
    ensures Decode(Encode(c)) == Some(c) <==> c.address < AddressLimit
    ensures c.address >= AddressLimit ==> Decode(Encode(c)) == None
  {
    DecodeTextOfText(c);
  }

  /** The other round trip: every line the decoder accepts is the encoding of what it decodes to. */
  lemma EncodeDecode(line: seq<Byte>)
    requires Decode(line).Some?
    ensures Encode(Decode(line).value) == line
  {
    var t := Chars(line);
    var c := Decode(line).value;
    var a := t[7..15];
    var v := t[18..20];
    FormatCanonical(a);
    FormatCanonical(v);
    assert t == "mw.b 0x" + a + " 0x" + v + "\n";
    assert Text(c) == t;
    var e := Encode(c);
    assert |e| == |line|;
    forall i | 0 <= i < |line|
      ensures e[i] == line[i]
    {
      assert Chars(e)[i] == Chars(line)[i];
    }
  }

  /** Different commands are sent as different bytes, whatever their addresses. */
  lemma EncodeInjective(c: ByteCommand, d: ByteCommand)
    requires Encode(c) == Encode(d)
    ensures c == d
  {
    TextParts(c);
    TextParts(d);
    var tc, td := Text(c), Text(d);
    assert tc == td;
    var ac, ad := Format(c.address, 8), Format(d.address, 8);
    assert |ac| == |ad|;
    assert ac == tc[7..7 + |ac|];
    FormatInjective(c.address, d.address, 8);
    assert Format(c.value, 2) == tc[10 + |ac|..12 + |ac|];
    FormatInjective(c.value, d.value, 2);
  }

  /** An example line: the byte 0xab at index 16 above the load address. */
  lemma ExampleText()
    ensures Text(ByteCommand(0x4400_0010, 0xab)) == "mw.b 0x44000010 0xab\n"
  {
    ExampleAddress();
    assert Format(0xa, 1) == [Digit(10)] == "a";
    assert Format(0xab, 2) == Format(0xa, 1) + [Digit(11)] == "ab";
  }

  lemma ExampleAddress()
    ensures Format(0x4400_0010, 8) == "44000010"
  {
    assert Format(0x4, 1) == [Digit(4)] == "4";
    assert Format(0x44, 2) == Format(0x4, 1) + [Digit(4)] == "44";
    assert Format(0x440, 3) == Format(0x44, 2) + [Digit(0)] == "440";
    assert Format(0x4400, 4) == Format(0x440, 3) + [Digit(0)] == "4400";
    assert Format(0x44000, 5) == Format(0x4400, 4) + [Digit(0)] == "44000";
    assert Format(0x440000, 6) == Format(0x44000, 5) + [Digit(0)] == "440000";
    assert Format(0x4400001, 7) == Format(0x440000, 6) + [Digit(1)] == "4400001";
    assert Format(0x44000010, 8) == Format(0x4400001, 7) + [Digit(0)] == "44000010";
  }
}
