/** The text of Intel HEX records (Hexadecimal Object File Format Specification, revision A, sections 2, 3, 5, 8). */
module HexFormat {

  type byte = b: int | 0 <= b < 256

  const DATA_RECORD: byte := 0
  const END_OF_FILE_RECORD: byte := 1
  const EXTENDED_SEGMENT_ADDRESS_RECORD: byte := 2
  const EXTENDED_LINEAR_ADDRESS_RECORD: byte := 4

  const LINE_MAX_LENGTH := 255
  const DEFAULT_OUTPUT_LINE_LENGTH := 32
  /** `IHEX_WRITE_BUFFER_LENGTH`, with a newline string of one character and its terminator. */
  const WRITE_BUFFER_LENGTH := 1 + 2 + 4 + 2 + LINE_MAX_LENGTH * 2 + 2 + 2

  const SIXTEEN_BITS := 0x1_0000
  const THIRTY_TWO_BITS := 0x1_0000_0000

  lemma Assoc(s: string, t: string, u: string)
    ensures s + t + u == s + (t + u)
  {
  }

  function HexDigit(n: nat): char
    requires n < 16
  {
    if n < 10 then (n + '0' as int) as char else (n + ('A' as int - 10)) as char
  }

  function HexByte(b: byte): string { [HexDigit(b / 16), HexDigit(b % 16)] }

  function HexWord(w: nat): string
    requires w < SIXTEEN_BITS
  {
    HexByte(w / 256) + HexByte(w % 256)
  }

  function HexBytes(s: seq<byte>): string {
    if s == [] then "" else HexByte(s[0]) + HexBytes(s[1..])
  }

  function Sum(s: seq<byte>): nat {
    if s == [] then 0 else s[0] + Sum(s[1..])
  }

  /** The two's complement of the low byte of `sum`. */
  function Checksum(sum: nat): byte { (256 - sum % 256) % 256 }

  /** A sum kept in eight bits. */
  function Low(sum: nat): byte { sum % 256 }

  function Complement(sum: byte): byte { (255 - sum + 1) % 256 }

  lemma LowAdd(a: nat, b: nat)
    ensures Low(Low(a) + b) == Low(a + b)
  {
  }

  lemma ComplementLow(sum: nat)
    ensures Complement(Low(sum)) == Checksum(sum)
  {
  }

  /** The line of a record that ends with `check`, right or wrong. */
  function RecordLine(address: nat, kind: byte, data: seq<byte>, check: byte): string
    requires address < SIXTEEN_BITS && |data| <= LINE_MAX_LENGTH
  {
    [':'] + HexByte(|data|) + HexWord(address) + HexByte(kind) + HexBytes(data) + HexByte(check) + "\n"
  }

  /** The checksum of a record. */
  function CheckOf(address: nat, kind: byte, data: seq<byte>): byte
    requires address < SIXTEEN_BITS
  {
    Checksum(|data| + address / 256 + address % 256 + kind + Sum(data))
  }

  function Record(address: nat, kind: byte, data: seq<byte>): string
    requires address < SIXTEEN_BITS && |data| <= LINE_MAX_LENGTH
  {
    RecordLine(address, kind, data, CheckOf(address, kind, data))
  }

  lemma {:induction false} HexBytesAppend(s: seq<byte>, b: byte)
    ensures HexBytes(s + [b]) == HexBytes(s) + HexByte(b)
    ensures Sum(s + [b]) == Sum(s) + b
  {
    if s != [] {
      HexBytesAppend(s[1..], b);
      assert (s + [b])[1..] == s[1..] + [b];
    }
  }

  lemma TwoBytes(a: byte, b: byte)
    ensures HexBytes([a, b]) == HexByte(a) + HexByte(b) && Sum([a, b]) == a + b
  {
    HexBytesAppend([], a);
    HexBytesAppend([a], b);
    assert [a] + [b] == [a, b] && [] + [a] == [a];
  }

  lemma {:induction false} HexBytesLength(s: seq<byte>)
    ensures |HexBytes(s)| == 2 * |s|
  {
    if s != [] { HexBytesLength(s[1..]); }
  }

  /** A record fits the write buffer, terminator included. */
  lemma RecordFits(address: nat, kind: byte, data: seq<byte>)
    requires address < SIXTEEN_BITS && |data| <= LINE_MAX_LENGTH
    ensures |Record(address, kind, data)| == 12 + 2 * |data| < WRITE_BUFFER_LENGTH
  {
    HexBytesLength(data);
  }

  /** A checksum is the one byte that brings the sum of a record's bytes to zero. */
  lemma ChecksumCancels(sum: nat, b: byte)
    ensures b == Checksum(sum) <==> (sum + b) % 256 == 0
  {
  }
}
