/** The Intel HEX writer: bytes are buffered and leave as records of at most one line length. */
module HexWriter {
  import opened HexFormat

  /** `struct ihex_state` as the writer uses it, with the text flushed so far. `rest` is the buffered data;
      `announced` is the upper half of the address in the last extended linear address record, zero before. */
  datatype State = State(text: string, address: nat, overflow: bool, rest: seq<byte>, announced: nat)
  {
    ghost predicate Valid() {
      address < THIRTY_TWO_BITS && |rest| <= LINE_MAX_LENGTH
    }
  }

  function High(address: nat): nat { address / SIXTEEN_BITS }

  function Start(): State { State("", 0, false, [], 0) }

  /** The extended linear address record for `high`. */
  function Announcement(high: nat): string
    requires high < SIXTEEN_BITS
  {
    Record(0, EXTENDED_LINEAR_ADDRESS_RECORD, [high / 256, high % 256])
  }

  /** `ihex_write_data`: the buffered bytes leave as one record, after the upper half of the address when that
      has changed. */
  function Flush(p: State): (p': State)
    requires p.Valid()
    ensures p'.Valid() && p'.rest == []
  {
    if p.rest == [] then p
    else State(p.text + (if p.overflow then Announcement(High(p.address)) else "")
                 + Record(p.address % SIXTEEN_BITS, DATA_RECORD, p.rest),
               (p.address + |p.rest|) % THIRTY_TWO_BITS, 0xFFFF - p.address % SIXTEEN_BITS < |p.rest|, [],
               if p.overflow then High(p.address) else p.announced)
  }

  /** `ihex_write_byte`: a full line leaves before the next byte is buffered. */
  function Put(p: State, b: byte, lineLength: nat): (p': State)
    requires p.Valid() && 0 < lineLength <= LINE_MAX_LENGTH
    ensures p'.Valid()
  {
    if lineLength <= |p.rest| then Flush(p).(rest := [b]) else p.(rest := p.rest + [b])
  }

  function PutAll(p: State, s: seq<byte>, lineLength: nat): (p': State)
    requires p.Valid() && 0 < lineLength <= LINE_MAX_LENGTH
    ensures p'.Valid()
    decreases |s|
  {
    if s == [] then p else PutAll(Put(p, s[0], lineLength), s[1..], lineLength)
  }

  /** `ihex_write_at_address`. */
  function Seek(p: State, address: nat): (p': State)
    requires p.Valid() && address < THIRTY_TWO_BITS
    ensures p'.Valid() && p'.rest == []
  {
    var q := Flush(p);
    q.(address := address, overflow := High(q.address) != High(address))
  }

  /** `ihex_end_write`: the last bytes, and the end of file record. */
  function Finish(p: State): string
    requires p.Valid()
  {
    Flush(p).text + Record(0, END_OF_FILE_RECORD, [])
  }

  /** Only the bytes matter, not how they are split over calls. */
  lemma {:induction false} PutSplit(p: State, s: seq<byte>, t: seq<byte>, lineLength: nat)
    requires p.Valid() && 0 < lineLength <= LINE_MAX_LENGTH
    ensures PutAll(p, s + t, lineLength) == PutAll(PutAll(p, s, lineLength), t, lineLength)
    decreases |s|
  {
    if s == [] {
      assert s + t == t;
    } else {
      assert (s + t)[1..] == s[1..] + t;
      PutSplit(Put(p, s[0], lineLength), s[1..], t, lineLength);
    }
  }

  lemma PutNone(p: State, lineLength: nat)
    requires p.Valid() && 0 < lineLength <= LINE_MAX_LENGTH
    ensures PutAll(p, [], lineLength) == p
  {
  }

  /** Bytes that fit the line are only buffered. */
  lemma {:induction false} PutFits(p: State, s: seq<byte>, lineLength: nat)
    requires p.Valid() && 0 < lineLength <= LINE_MAX_LENGTH && |p.rest| + |s| <= lineLength
    ensures PutAll(p, s, lineLength) == p.(rest := p.rest + s)
    decreases |s|
  {
    if s == [] {
      assert p.rest + s == p.rest;
    } else {
      PutFits(Put(p, s[0], lineLength), s[1..], lineLength);
      assert p.rest + [s[0]] + s[1..] == p.rest + s;
    }
  }

  /** Bytes beyond the line make it leave as a record of exactly the line length. */
  lemma PutLine(p: State, s: seq<byte>, lineLength: nat)
    requires p.Valid() && p.rest == [] && 0 < lineLength <= LINE_MAX_LENGTH && |s| > lineLength
    ensures PutAll(p, s, lineLength) == PutAll(Flush(p.(rest := s[..lineLength])), s[lineLength..], lineLength)
  {
    hide Flush, Put, PutAll;
    var line, more := s[..lineLength], s[lineLength..];
    PutSplit(p, line, more, lineLength);
    assert s == line + more;
    PutFits(p, line, lineLength);
    assert p.rest + line == line;
    FlushFirst(p.(rest := line), more, lineLength);
  }

  /** A full line may as well leave before more bytes come. */
  lemma FlushFirst(p: State, s: seq<byte>, lineLength: nat)
    requires p.Valid() && 0 < lineLength <= LINE_MAX_LENGTH && |p.rest| == lineLength && s != []
    ensures PutAll(Flush(p), s, lineLength) == PutAll(p, s, lineLength)
  {
    hide Flush;
    assert Flush(p).rest + [s[0]] == [s[0]];
  }

  // ---------- the writer itself ----------

  class Writer {
    var address: nat
    var overflow: bool
    var lineLength: nat
    var length: nat
    const data: array<byte>
    /** What `ihex_flush_buffer` has been given so far. */
    var output: string
    ghost var announced: nat

    ghost function Now(): State
      requires length <= data.Length
      reads this, data
    {
      State(output, address, overflow, data[..length], announced)
    }

    ghost predicate Valid()
      reads this, data
    {
      && data.Length == LINE_MAX_LENGTH + 1
      && 0 < lineLength <= LINE_MAX_LENGTH && length <= lineLength && address < THIRTY_TWO_BITS
    }

    /** `ihex_init`. */
    constructor ()
      ensures Valid() && fresh(data) && Now() == Start() && lineLength == DEFAULT_OUTPUT_LINE_LENGTH
    {
      address, overflow, lineLength, length, output := 0, false, DEFAULT_OUTPUT_LINE_LENGTH, 0, "";
      data := new byte[LINE_MAX_LENGTH + 1];
      announced := 0;
    }

    /** `ihex_write_extended_address` for a linear address. */
    method WriteExtendedAddress(high: nat, kind: byte)
      requires high < SIXTEEN_BITS
      modifies this`output
      ensures output == old(output) + Record(0, kind, [high / 256, high % 256])
    {
      hide HexByte, HexBytes, Sum, Low, Complement, Checksum;
      var b1: byte, b0: byte := high / 256, high % 256;
      var sum := Low(kind + 2);
      var line := [':'] + HexByte(2) + HexByte(0) + HexByte(0) + HexByte(kind);
      line := line + HexByte(b1);
      LowAdd(kind + 2, b1);
      sum := Low(sum + b1);
      LowAdd(kind + 2 + b1, b0);
      sum := Low(sum + b0);
      line := line + HexByte(b0);
      ComplementLow(kind + 2 + b1 + b0);
      line := line + HexByte(Complement(sum)) + "\n";
      TwoBytes(b1, b0);
      assert [':'] + HexByte(2) + HexByte(0) + HexByte(0) == [':'] + HexByte(2) + HexWord(0);
      Assoc([':'] + HexByte(2) + HexWord(0) + HexByte(kind), HexByte(b1), HexByte(b0));
      assert Checksum(kind + 2 + b1 + b0) == Checksum(2 + 0 / 256 + 0 % 256 + kind + Sum([b1, b0]));
      output := output + line;
    }

    /** The buffered bytes, appended to the line and to the checksum. */
    method BufferData(line0: string, sum0: nat) returns (line: string, sum: byte)
      requires length <= data.Length
      ensures line == line0 + HexBytes(data[..length]) && sum == Low(sum0 + Sum(data[..length]))
    {
      hide HexByte, Low;
      var i := 0;
      line, sum := line0, Low(sum0);
      assert line0 + "" == line0;
      while i < length
        invariant 0 <= i <= length && line == line0 + HexBytes(data[..i]) && sum == Low(sum0 + Sum(data[..i]))
      {
        HexBytesAppend(data[..i], data[i]);
        LowAdd(sum0 + Sum(data[..i]), data[i]);
        Assoc(line0, HexBytes(data[..i]), HexByte(data[i]));
        assert data[..i + 1] == data[..i] + [data[i]];
        sum := Low(sum + data[i]);
        line := line + HexByte(data[i]);
        i := i + 1;
      }
    }

    /** The line of a data record for the buffered bytes; it fits the write buffer. */
    method DataLine(low: nat) returns (line: string)
      requires length <= LINE_MAX_LENGTH <= data.Length && low < SIXTEEN_BITS
      ensures line == Record(low, DATA_RECORD, data[..length]) && |line| < WRITE_BUFFER_LENGTH
    {
      hide HexByte, HexWord, HexBytes, Sum, Low, Complement, Checksum;
      RecordFits(low, DATA_RECORD, data[..length]);
      line := [':'] + HexByte(length) + HexWord(low) + HexByte(DATA_RECORD);
      var sum := length + low / 256 + low % 256;
      line, sum := BufferData(line, sum);
      ComplementLow(length + low / 256 + low % 256 + Sum(data[..length]));
      line := line + HexByte(Complement(sum)) + "\n";
    }

    /** `ihex_write_data`. */
    method WriteData()
      requires Valid()
      modifies this`output, this`address, this`overflow, this`length, this`announced
      ensures Valid() && Now() == Flush(old(Now())) && length == 0
    {
      hide Record;
      if length == 0 { return; }
      if overflow {
        WriteExtendedAddress(High(address), EXTENDED_LINEAR_ADDRESS_RECORD);
        announced := High(address);
        overflow := false;
      } else {
        assert output + "" == output;
      }
      var low := address % SIXTEEN_BITS;
      address := (address + length) % THIRTY_TWO_BITS;
      if 0xFFFF - low < length { overflow := true; }
      var line := DataLine(low);
      output := output + line;
      length := 0;
    }

    /** `ihex_set_output_line_length`; zero stands for the default. */
    method SetOutputLineLength(wanted: byte)
      requires Valid() && length == 0
      modifies this`lineLength
      ensures Valid() && lineLength == if wanted == 0 then DEFAULT_OUTPUT_LINE_LENGTH else wanted
    {
      lineLength := if wanted == 0 then DEFAULT_OUTPUT_LINE_LENGTH else wanted;
    }

    /** `ihex_write_at_address`. */
    method WriteAtAddress(target: nat)
      requires Valid() && target < THIRTY_TWO_BITS
      modifies this
      ensures Valid() && Now() == Seek(old(Now()), target) && lineLength == old(lineLength)
    {
      hide Record, Announcement;
      if length > 0 { WriteData(); }
      assert data[..length] == [];
      overflow := High(address) != High(target);
      address := target;
      SetOutputLineLength(lineLength);
    }

    /** `ihex_write_byte`. */
    method WriteByte(b: byte)
      requires Valid()
      modifies this, data
      ensures Valid() && Now() == Put(old(Now()), b, lineLength) && lineLength == old(lineLength)
    {
      hide Flush;
      if lineLength <= length { WriteData(); }
      ghost var rest := data[..length];
      data[length] := b;
      length := length + 1;
      assert data[..length] == rest + [b];
      assert [] + [b] == [b];
    }

    /** The inner loop of `ihex_write_bytes`: `src` is copied behind the buffered bytes. */
    method Copy(src: seq<byte>)
      requires Valid() && length + |src| <= lineLength
      modifies this`length, data
      ensures Valid() && Now() == old(Now()).(rest := old(Now()).rest + src) && length == old(length) + |src|
    {
      var w, i := length, 0;
      length := length + |src|;
      while i < |src|
        invariant 0 <= i <= |src| && data[..w + i] == old(data[..length]) + src[..i]
        modifies data
      {
        data[w + i] := src[i];
        assert data[..w + i + 1] == data[..w + i] + [src[i]];
        i := i + 1;
      }
      assert src[..i] == src;
    }

    /** `ihex_write_bytes`: as much as fits the line is copied at once. */
    method WriteBytes(buf: seq<byte>)
      requires Valid()
      modifies this, data
      ensures Valid() && Now() == PutAll(old(Now()), buf, lineLength) && lineLength == old(lineLength)
    {
      hide Flush, PutAll, Put;
      var done := 0;
      assert buf[0..] == buf;
      while done < |buf|
        invariant 0 <= done <= |buf| && Valid() && lineLength == old(lineLength)
        invariant PutAll(Now(), buf[done..], lineLength) == PutAll(old(Now()), buf, lineLength)
        decreases |buf| - done, length
      {
        ghost var p := Now();
        if lineLength > length {
          var i := if lineLength - length > |buf| - done then |buf| - done else lineLength - length;
          PutSplit(p, buf[done..done + i], buf[done + i..], lineLength);
          assert buf[done..] == buf[done..done + i] + buf[done + i..];
          PutFits(p, buf[done..done + i], lineLength);
          Copy(buf[done..done + i]);
          done := done + i;
        } else {
          FlushFirst(p, buf[done..], lineLength);
          WriteData();
        }
      }
      assert buf[done..] == [];
      PutNone(Now(), lineLength);
    }

    /** `ihex_end_write`. */
    method EndWrite()
      requires Valid()
      modifies this`output, this`address, this`overflow, this`length, this`announced
      ensures Valid() && length == 0 && output == Finish(old(Now()))
    {
      hide Flush;
      WriteData();
      var line := [':'] + "00" + "0000" + "01" + "FF" + "\n";
      assert line == Record(0, END_OF_FILE_RECORD, []);
      output := output + line;
    }
  }
}
