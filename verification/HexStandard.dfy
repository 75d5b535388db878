/** The texts, letter by letter as in the standard (Hexadecimal Object File Format Specification, revision A, sections
    2 to 5): what is written, and what each kind of line does to the reader. */
module HexStandard {
  import opened HexFormat
  import W = HexWriter
  import R = HexReader
  import opened HexRoundTrip

  const DIGITS := "0123456789ABCDEF"
  const SMALL_DIGITS := "0123456789abcdef"

  /** A byte in two hexadecimal digits. */
  function Hex(b: byte): string { [DIGITS[b / 16], DIGITS[b % 16]] }

  function HexOf(s: seq<byte>): string {
    if s == [] then "" else Hex(s[0]) + HexOf(s[1..])
  }

  function Total(s: seq<byte>): nat {
    if s == [] then 0 else s[0] + Total(s[1..])
  }

  /** A line: colon, the bytes, and the byte that brings their sum to zero. */
  ghost predicate IsLine(text: string, bytes: seq<byte>) {
    exists check: byte :: (Total(bytes) + check) % 256 == 0 && text == ":" + HexOf(bytes) + Hex(check) + "\n"
  }

  /** A record: length, two address bytes, type, data. */
  function Bytes(address: nat, kind: byte, data: seq<byte>): seq<byte>
    requires address < 0x1_0000 && |data| <= 255
  {
    [|data|, address / 256, address % 256, kind] + data
  }

  lemma SameHex(b: byte)
    ensures Hex(b) == HexByte(b)
  {
    assert DIGITS == ['0', '1', '2', '3', '4', '5', '6', '7', '8', '9', 'A', 'B', 'C', 'D', 'E', 'F'];
    SameDigit(b / 16);
    SameDigit(b % 16);
  }

  lemma SameDigit(n: nat)
    requires n < 16
    ensures DIGITS[n] == HexDigit(n)
  {
  }

  lemma {:induction false} SameHexOf(s: seq<byte>)
    ensures HexOf(s) == HexBytes(s) && Total(s) == Sum(s)
  {
    hide Hex, HexByte;
    if s != [] {
      SameHex(s[0]);
      SameHexOf(s[1..]);
    }
  }

  lemma HexOfOne(a: byte, s: seq<byte>)
    ensures HexOf([a] + s) == Hex(a) + HexOf(s) && Total([a] + s) == a + Total(s)
  {
    hide Hex;
    assert ([a] + s)[1..] == s;
  }

  lemma HexOfFour(a: byte, b: byte, c: byte, d: byte, s: seq<byte>)
    ensures HexOf([a, b, c, d] + s) == Hex(a) + Hex(b) + Hex(c) + Hex(d) + HexOf(s)
    ensures Total([a, b, c, d] + s) == a + b + c + d + Total(s)
  {
    hide Hex, HexOf, Total;
    HexOfOne(d, s);
    HexOfOne(c, [d] + s);
    HexOfOne(b, [c] + ([d] + s));
    HexOfOne(a, [b] + ([c] + ([d] + s)));
    assert [a, b, c, d] + s == [a] + ([b] + ([c] + ([d] + s)));
  }

  /** A record line, right or wrong, is its bytes in hexadecimal digits. */
  lemma RecordLineText(address: nat, kind: byte, data: seq<byte>, check: byte)
    requires address < 0x1_0000 && |data| <= 255
    ensures RecordLine(address, kind, data, check) == ":" + HexOf(Bytes(address, kind, data)) + Hex(check) + "\n"
    ensures check == CheckOf(address, kind, data) <==> (Total(Bytes(address, kind, data)) + check) % 256 == 0
  {
    hide Hex, HexByte, HexBytes, HexOf, Checksum;
    HexOfFour(|data|, address / 256, address % 256, kind, data);
    SameHex(|data|);
    SameHex(address / 256);
    SameHex(address % 256);
    SameHex(kind);
    SameHexOf(data);
    SameHex(check);
    ChecksumCancels(|data| + address / 256 + address % 256 + kind + Sum(data), check);
    assert [':'] == ":";
  }

  // ---------- what is written ----------

  /** Type 00: the data record. */
  lemma DataText(low: nat, data: seq<byte>)
    requires low < 0x1_0000 && |data| <= 255
    ensures IsLine(Record(low, DATA_RECORD, data), [|data|, low / 256, low % 256, 0] + data)
  {
    hide HexOf, RecordLine, Total, CheckOf;
    RecordLineText(low, 0, data, CheckOf(low, 0, data));
  }

  /** Type 04: the upper half of the address. */
  lemma AnnouncementText(high: nat)
    requires high < 0x1_0000
    ensures IsLine(W.Announcement(high), [2, 0, 0, 4, high / 256, high % 256])
    ensures W.Announcement(high)[..9] == ":02000004"
  {
    hide HexOf, RecordLine, Total, CheckOf;
    var data: seq<byte> := [high / 256, high % 256];
    RecordLineText(0, 4, data, CheckOf(0, 4, data));
    assert Bytes(0, 4, data) == [2, 0, 0, 4, high / 256, high % 256];
    HexOfFour(2, 0, 0, 4, data);
    assert [2, 0, 0, 4] + data == [2, 0, 0, 4, high / 256, high % 256];
    assert ":" + (Hex(2) + Hex(0) + Hex(0) + Hex(4)) == ":02000004";
  }

  /** Type 01: the end of the file. */
  lemma EndText()
    ensures Record(0, END_OF_FILE_RECORD, []) == ":00000001FF\n"
  {
    assert HexOf([]) == "";
    hide HexOf, RecordLine;
    RecordLineText(0, 1, [], CheckOf(0, 1, []));
    HexOfFour(0, 0, 0, 1, []);
    assert Bytes(0, 1, []) == [0, 0, 0, 1] + [];
    assert CheckOf(0, 1, []) == 255;
    assert ":" + (Hex(0) + Hex(0) + Hex(0) + Hex(1)) + Hex(255) + "\n" == ":00000001FF\n";
  }

  /** Contiguous bytes from `address` on: lines of at most `lineLength` bytes, each after a line for the upper half of
      its address if that is not the one announced last. */
  ghost predicate IsBody(text: string, announced: int, address: nat, bytes: seq<byte>, lineLength: nat)
    requires lineLength > 0
    decreases |bytes|
  {
    if bytes == [] then text == ""
    else
      var n := if |bytes| <= lineLength then |bytes| else lineLength;
      var high, low := address / 0x1_0000, address % 0x1_0000;
      exists first, line, rest :: text == first + line + rest
        && (if high == announced then first == "" else high < 0x1_0000 && IsLine(first, [2, 0, 0, 4, high / 256, high % 256]))
        && n <= 255 && IsLine(line, [n, low / 256, low % 256, 0] + bytes[..n])
        && IsBody(rest, high, address + n, bytes[n..], lineLength)
  }

  /** One flush writes the line of the buffered bytes, after an announcement if an overflow is pending. */
  lemma FlushText(p: W.State) returns (first: string, line: string)
    requires p.Valid() && p.rest != []
    ensures W.Flush(p).text == p.text + first + line
    ensures if p.overflow then W.High(p.address) < 0x1_0000 && var h := W.High(p.address); IsLine(first, [2, 0, 0, 4, h / 256, h % 256])
            else first == ""
    ensures var low := p.address % 0x1_0000; |p.rest| <= 255 && IsLine(line, [|p.rest|, low / 256, low % 256, 0] + p.rest)
  {
    hide IsLine, Record;
    var high, low := W.High(p.address), p.address % 0x1_0000;
    first := if p.overflow then W.Announcement(high) else "";
    line := Record(low, DATA_RECORD, p.rest);
    if p.overflow { AnnouncementText(high); }
    DataText(low, p.rest);
  }

  lemma BodyEmpty(announced: int, address: nat, lineLength: nat)
    requires lineLength > 0
    ensures IsBody("", announced, address, [], lineLength)
  {
  }

  lemma BodyLine(first: string, line: string, rest: string, announced: int, address: nat, bytes: seq<byte>, lineLength: nat, n: nat)
    requires 0 < lineLength <= 255 && bytes != [] && n == if |bytes| <= lineLength then |bytes| else lineLength
    requires var high, low := address / 0x1_0000, address % 0x1_0000;
      && (if high == announced then first == "" else high < 0x1_0000 && IsLine(first, [2, 0, 0, 4, high / 256, high % 256]))
      && IsLine(line, [n, low / 256, low % 256, 0] + bytes[..n])
      && IsBody(rest, high, address + n, bytes[n..], lineLength)
    ensures IsBody(first + line + rest, announced, address, bytes, lineLength)
  {
    hide IsLine;
  }

  lemma {:induction false} BodyText(q: W.State, s: seq<byte>, lineLength: nat, announced: int) returns (body: string)
    requires q.Valid() && q.rest == [] && 0 < lineLength <= 255 && q.address + |s| <= 0x1_0000_0000
    requires q.overflow <==> announced != W.High(q.address)
    ensures W.Finish(W.PutAll(q, s, lineLength)) == q.text + body + ":00000001FF\n"
    ensures IsBody(body, announced, q.address, s, lineLength)
    decreases |s|
  {
    hide W.Flush, W.PutAll, IsLine, IsBody, Record;
    EndText();
    if s == [] {
      W.PutNone(q, lineLength);
      BodyEmpty(announced, q.address, lineLength);
      body := "";
      FlushEmpty(q);
      assert q.text + "" == q.text;
    } else {
      var n := if |s| <= lineLength then |s| else lineLength;
      var p := q.(rest := s[..n]);
      var first, line := FlushText(p);
      var rest := "";
      if |s| > lineLength {
        W.PutLine(q, s, lineLength);
        FlushedState(p);
        rest := BodyText(W.Flush(p), s[n..], lineLength, W.High(q.address));
      } else {
        W.PutFits(q, s, lineLength);
        assert q.rest + s == s && s[..n] == s && s[n..] == [];
        BodyEmpty(W.High(q.address), q.address + n, lineLength);
      }
      body := first + line + rest;
      BodyLine(first, line, rest, announced, q.address, s, lineLength, n);
      assert q.text + first + line + rest == q.text + body;
    }
  }

  lemma FlushEmpty(q: W.State)
    requires q.Valid() && q.rest == []
    ensures W.Flush(q) == q
  {
  }

  lemma FlushedState(p: W.State)
    requires p.Valid() && p.rest != [] && p.address + |p.rest| < 0x1_0000_0000
    ensures var q := W.Flush(p);
      q.rest == [] && q.address == p.address + |p.rest| && (q.overflow <==> W.High(p.address) != W.High(q.address))
  {
    hide Record, W.Announcement;
    var low := p.address % 0x1_0000;
    assert p.address == W.High(p.address) * 0x1_0000 + low;
    if low + |p.rest| < 0x1_0000 {
      assert p.address + |p.rest| == W.High(p.address) * 0x1_0000 + (low + |p.rest|);
    } else {
      assert p.address + |p.rest| == (W.High(p.address) + 1) * 0x1_0000 + (low + |p.rest| - 0x1_0000);
    }
  }

  /** The whole text of one region, from the start of the writer. */
  lemma RegionText(address: nat, bytes: seq<byte>, lineLength: nat, forced: bool) returns (body: string)
    requires 0 < lineLength <= 255 && address < 0x1_0000_0000 && address + |bytes| <= 0x1_0000_0000
    ensures var q := W.Seek(W.Start(), address);
      W.Finish(W.PutAll(if forced then q.(overflow := true) else q, bytes, lineLength)) == body + ":00000001FF\n"
    ensures IsBody(body, if forced then -1 else 0, address, bytes, lineLength)
  {
    hide W.PutAll, W.Finish, IsBody;
    var q := W.Seek(W.Start(), address);
    var q1 := if forced then q.(overflow := true) else q;
    body := BodyText(q1, bytes, lineLength, if forced then -1 else 0);
    assert "" + body == body;
  }

  // ---------- what is read ----------

  /** The reader of a line with right or wrong last byte. */
  lemma ReadText(r: R.State, address: nat, kind: byte, data: seq<byte>, check: byte)
    requires r.AtRest() && address < 0x1_0000 && |data| <= 255
    requires kind < 8 && (kind == 0 ==> data != []) && (kind in {2, 4} ==> |data| >= 2)
    ensures var text := ":" + HexOf(Bytes(address, kind, data)) + Hex(check) + "\n";
      var r', a := R.ReadAll(r, text), r.address - r.address % 0x1_0000 + address;
      var right := (Total(Bytes(address, kind, data)) + check) % 256 == 0;
      && r'.AtRest()
      // it is handed over with its type and data, and with an error exactly if the bytes do not sum to zero
      && r'.events == r.events + [R.Event(kind, a, r.segment, data, |data|, !right)]
      // type 04 sets the upper half of the address, type 02 the segment, and nothing else does
      && r'.address == (if right && kind == 4 then (data[0] * 256 + data[1]) * 0x1_0000 + address else a)
      && r'.segment == (if right && kind == 2 then data[0] * 256 + data[1] else r.segment)
  {
    hide HexOf, RecordLine, Total, CheckOf, Hex, R.ReadAll;
    RecordLineText(address, kind, data, check);
    R.ReadLine(r, address, kind, data, check);
  }

  /** The bytes of a right data line are stored from the sum of the linear address and sixteen times the segment on,
      in 32 bits (section 3); those of a wrong one are not. */
  lemma StoredText(r: R.State, address: nat, data: seq<byte>, check: byte)
    requires r.AtRest() && address < 0x1_0000 && 0 < |data| <= 255
    ensures var r' := R.ReadAll(r, ":" + HexOf(Bytes(address, 0, data)) + Hex(check) + "\n");
      var from := (r.address - r.address % 0x1_0000 + address + 16 * r.segment) % 0x1_0000_0000;
      Stored(r'.events) == Stored(r.events)
        + if (Total(Bytes(address, 0, data)) + check) % 256 == 0 then seq(|data|, i requires 0 <= i < |data| => (from + i, data[i])) else []
  {
    hide HexOf, Total, Hex, R.ReadAll, Stored, Bytes;
    ReadText(r, address, 0, data, check);
    var right := (Total(Bytes(address, 0, data)) + check) % 256 == 0;
    StoredGrow(r.events, R.Event(0, r.address - r.address % 0x1_0000 + address, r.segment, data, |data|, !right));
  }

  /** Digits count in both cases; characters other than these and the colon are skipped. */
  lemma ReadDigits(r: R.State, c: char)
    requires r.Valid()
    ensures forall n :: 0 <= n < 16 ==> R.Nybble(DIGITS[n]) == n && R.Nybble(SMALL_DIGITS[n]) == n
    ensures c !in DIGITS && c !in SMALL_DIGITS && c != ':' ==> R.ReadChar(r, c) == r
  {
    hide R.EndRead, R.TakeByte;
    forall n | 0 <= n < 16 ensures R.Nybble(DIGITS[n]) == n && R.Nybble(SMALL_DIGITS[n]) == n {
      SameDigit(n);
      R.DigitRead(n);
    }
    if R.Nybble(c) >= 0 {
      var n := R.Nybble(c);
      assert c == DIGITS[n] || c == SMALL_DIGITS[n];
      assert DIGITS[n] in DIGITS && SMALL_DIGITS[n] in SMALL_DIGITS;
    }
  }
}
