/** The Intel HEX reader: a state machine fed one character at a time. */
module HexReader {
  import opened Bits
  import opened HexFormat

  // What the reader waits for; a high nybble in the odd states, the matching low nybble in the state after it. States
  // 3, 5 and 7 are only ever passed through.
  const READ_WAIT_FOR_START := 0
  const READ_COUNT_HIGH := 1
  const READ_COUNT_LOW := 2
  const READ_ADDRESS_MSB_LOW := 4
  const READ_ADDRESS_LSB_LOW := 6
  const READ_RECORD_TYPE_LOW := 8
  const READ_DATA_HIGH := 9
  const READ_DATA_LOW := 10

  /** What one call of `ihex_data_read` is given. */
  datatype Event = Event(kind: byte, address: nat, segment: nat, data: seq<byte>, lineLength: nat, mismatch: bool)
  {
    /** `IHEX_LINEAR_ADDRESS`, in 32 bits. */
    function Linear(): nat { (address + 16 * segment) % THIRTY_TWO_BITS }

    /** The answer of the documented handler. */
    predicate Accepted() { !mismatch && |data| >= lineLength }
  }

  /** `struct ihex_state` as the reader uses it; `state` and `kind` are the two fields packed into `flags`. */
  datatype State = State(address: nat, segment: nat, state: nat, kind: byte, lineLength: nat, length: nat,
                         data: seq<byte>, events: seq<Event>)
  {
    /** Every index stays inside `data`. */
    ghost predicate Valid() {
      && |data| == LINE_MAX_LENGTH + 1 && 0 <= lineLength <= LINE_MAX_LENGTH && kind < 8
      && state <= READ_DATA_LOW
      && (if state < READ_DATA_HIGH then length == 0 else length <= lineLength)
      && address < THIRTY_TWO_BITS && segment < SIXTEEN_BITS
    }

    /** Between records. */
    ghost predicate AtRest() {
      Valid() && state == READ_WAIT_FOR_START && kind == DATA_RECORD
    }
  }

  /** A low nybble joins the high one. */
  lemma OrHigh(a: nat, b: nat)
    requires b < 16
    ensures Or(a * 16, b) == a * 16 + b
  {
    hide Or;
    OrZero(a);
    OrDouble(8 * a, b);
    OrDouble(4 * a, b / 2);
    OrDouble(2 * a, b / 2 / 2);
    OrDouble(a, b / 2 / 2 / 2);
    assert b / 2 / 2 / 2 / 2 == 0;
  }

  function Nybble(c: char): int {
    if '0' <= c <= '9' then c as int - '0' as int
    else if 'A' <= c <= 'F' then c as int - ('A' as int - 10)
    else if 'a' <= c <= 'f' then c as int - ('a' as int - 10)
    else -1
  }

  /** Two bytes joined bitwise make a byte. */
  function OrBytes(a: byte, b: byte): byte {
    assert Power2(8) == 256;
    OrBounded(a, b, 8);
    Or(a, b)
  }

  // ---------- one character ----------

  /** `ihex_end_read`: the record read so far, if any, goes to the handler. */
  function EndRead(r: State): State
    requires r.Valid()
  {
    if r.length == 0 && r.kind == DATA_RECORD then r
    else
      var sum := r.length + r.kind + r.address % 256 + r.address / 256 % 256 + Sum(r.data[..r.length]);
      var e := Event(r.kind, r.address, r.segment, r.data[..r.length], r.lineLength, Checksum(sum) != r.data[r.length]);
      r.(address := if e.Accepted() && r.kind == EXTENDED_LINEAR_ADDRESS_RECORD
                    then r.data[0] * 0x100_0000 + r.data[1] * SIXTEEN_BITS + r.address % SIXTEEN_BITS else r.address,
         segment := if e.Accepted() && r.kind == EXTENDED_SEGMENT_ADDRESS_RECORD
                    then r.data[0] * 256 + r.data[1] else r.segment,
         length := 0, state := READ_WAIT_FOR_START, kind := DATA_RECORD, events := r.events + [e])
  }

  /** The low nybble of byte `v`, whose high nybble is in `data[length]`, has arrived. */
  function TakeByte(r: State, v: byte): State
    requires r.Valid()
  {
    var state := r.state + 1;
    var r1 := r.(data := r.data[r.length := v]);
    match state / 2
    case 1 => r1.(lineLength := v, state := state)
    case 2 => r1.(address := r.address - r.address % SIXTEEN_BITS + v * 256, state := state)
    case 3 => r1.(address := r.address - r.address % 256 + OrBytes(r.address % 256, v), state := state)
    case 4 => if v >= 8 then r1.(state := READ_WAIT_FOR_START) else r1.(kind := v, state := state)
    case 5 =>
      if r.length < r.lineLength then r1.(length := r.length + 1, state := READ_DATA_HIGH)
      else EndRead(r1).(state := READ_WAIT_FOR_START)
    case _ => r1.(state := READ_WAIT_FOR_START)
  }

  /** `ihex_read_byte`. */
  function ReadChar(r: State, c: char): State
    requires r.Valid()
  {
    if c == ':' then EndRead(r).(state := READ_COUNT_HIGH)
    else if Nybble(c) < 0 then r
    else if r.state % 2 == 1 then r.(data := r.data[r.length := Nybble(c) * 16], state := r.state + 1)
    else TakeByte(r, OrBytes(r.data[r.length], Nybble(c)))
  }

  lemma EndReadValid(r: State)
    requires r.Valid()
    ensures EndRead(r).Valid() && EndRead(r).length == 0
  {
    hide Or, Sum;
  }

  lemma TakeByteValid(r: State, v: byte)
    requires r.Valid()
    ensures TakeByte(r, v).Valid()
  {
    hide OrBytes, Sum, EndRead;
    var r1 := r.(data := r.data[r.length := v]);
    assert r1.Valid();
    EndReadValid(r1);
    HighKept(r.address, v * 256);
    if (r.state + 1) / 2 == 3 {
      var low := OrBytes(r.address % 256, v);
      assert r.address - r.address % 256 + low < THIRTY_TWO_BITS;
    }
  }

  lemma HighKept(a: nat, low: nat)
    requires a < THIRTY_TWO_BITS && low < SIXTEEN_BITS
    ensures a - a % SIXTEEN_BITS + low < THIRTY_TWO_BITS
  {
  }

  /** No character ever leads out of the buffer. */
  lemma ReadCharValid(r: State, c: char)
    requires r.Valid()
    ensures ReadChar(r, c).Valid()
  {
    hide OrBytes, Sum, EndRead, TakeByte;
    EndReadValid(r);
    if Nybble(c) >= 0 { TakeByteValid(r, OrBytes(r.data[r.length], Nybble(c))); }
  }

  // ---------- many characters ----------

  /** `ihex_read_bytes`. */
  function ReadAll(r: State, s: string): (r': State)
    requires r.Valid()
    ensures r'.Valid()
    decreases |s|
  {
    if s == "" then r else ReadCharValid(r, s[0]); ReadAll(ReadChar(r, s[0]), s[1..])
  }

  lemma {:induction false} ReadConcat(r: State, s: string, t: string)
    requires r.Valid()
    ensures ReadAll(r, s + t) == ReadAll(ReadAll(r, s), t)
    decreases |s|
  {
    if s == "" {
      assert s + t == t;
    } else {
      ReadCharValid(r, s[0]);
      assert (s + t)[1..] == s[1..] + t;
      ReadConcat(ReadChar(r, s[0]), s[1..], t);
    }
  }

  lemma ReadNone(r: State)
    requires r.Valid()
    ensures ReadAll(r, "") == r
  {
  }

  lemma ReadFour(r: State, s: string, t: string, u: string, v: string)
    requires r.Valid()
    ensures ReadAll(r, s + t + u + v) == ReadAll(ReadAll(ReadAll(ReadAll(r, s), t), u), v)
  {
    hide ReadAll;
    ReadConcat(r, s, t);
    ReadConcat(r, s + t, u);
    ReadConcat(r, s + t + u, v);
  }

  /** What has been handed over stays handed over. */
  lemma {:induction false} EventsGrow(r: State, s: string)
    requires r.Valid()
    ensures r.events <= ReadAll(r, s).events
    decreases |s|
  {
    if s != "" {
      ReadCharValid(r, s[0]);
      EventsGrow(ReadChar(r, s[0]), s[1..]);
    }
  }

  function Begin(): (r: State)
    ensures r.AtRest() && r.events == []
  {
    State(0, 0, READ_WAIT_FOR_START, DATA_RECORD, 0, 0, seq(LINE_MAX_LENGTH + 1, i => 0 as byte), [])
  }

  // ---------- reading back what was written ----------

  lemma DigitRead(n: nat)
    requires n < 16
    ensures Nybble(HexDigit(n)) == n && HexDigit(n) != ':'
  {
  }

  /** Two digits are one byte, whatever `data[length]` held before. */
  lemma ReadHexByte(r: State, b: byte)
    requires r.Valid() && r.state % 2 == 1
    ensures r.(state := r.state + 1).Valid() && ReadAll(r, HexByte(b)) == TakeByte(r.(state := r.state + 1), b)
  {
    hide Or, Sum, EndRead;
    var hi, lo := b / 16, b % 16;
    DigitRead(hi);
    DigitRead(lo);
    OrHigh(hi, lo);
    var r1 := r.(data := r.data[r.length := hi * 16], state := r.state + 1);
    assert ReadChar(r, HexDigit(hi)) == r1;
    ReadCharValid(r, HexDigit(hi));
    assert OrBytes(hi * 16, lo) == b;
    var r2 := ReadChar(r1, HexDigit(lo));
    assert r2 == TakeByte(r1, b);
    assert r1.data[r.length := b] == r.data[r.length := b];
    assert r2 == TakeByte(r.(state := r.state + 1), b);
    var s := HexByte(b);
    assert s[0] == HexDigit(hi) && s[1..] == [HexDigit(lo)];
    assert ReadAll(r1, s[1..]) == ReadAll(r2, s[1..][1..]) by { ReadCharValid(r1, HexDigit(lo)); }
    assert s[1..][1..] == "";
  }

  /** The data bytes fill the buffer in order. */
  lemma {:induction false} ReadData(r: State, s: seq<byte>)
    requires r.Valid() && r.state == READ_DATA_HIGH && r.length + |s| <= r.lineLength
    ensures ReadAll(r, HexBytes(s))
         == r.(length := r.length + |s|, data := r.data[..r.length] + s + r.data[r.length + |s|..])
    decreases |s|
  {
    hide Or, Sum, EndRead, ReadChar;
    if s == [] {
      assert r.data[..r.length] + s + r.data[r.length..] == r.data;
    } else {
      ReadHexByte(r, s[0]);
      var r1 := TakeByte(r.(state := READ_DATA_LOW), s[0]);
      assert r1 == r.(data := r.data[r.length := s[0]], length := r.length + 1);
      ReadConcat(r, HexByte(s[0]), HexBytes(s[1..]));
      ReadData(r1, s[1..]);
      assert r1.data[..r1.length] + s[1..] + r1.data[r1.length + |s[1..]|..]
          == r.data[..r.length] + s + r.data[r.length + |s|..];
    }
  }

  lemma LowBytes(high: nat, low: nat)
    requires low < SIXTEEN_BITS
    ensures var a, b := high - high % SIXTEEN_BITS + low, high - high % SIXTEEN_BITS + low / 256 * 256;
      && a % 256 == low % 256 && a / 256 % 256 == low / 256 && a % SIXTEEN_BITS == low
      && b % 256 == 0 && b + low % 256 == a
  {
    var q, c, d := high / SIXTEEN_BITS, low / 256, low % 256;
    var a, e := high - high % SIXTEEN_BITS + low, 256 * q + c;
    assert a == 256 * e + d;
    assert a / 256 == e;
    assert e % 256 == c;
    assert a == SIXTEEN_BITS * q + low;
  }

  /** The four header bytes after the colon. */
  lemma ReadHeader(r: State, count: byte, address: nat, kind: byte)
    requires r.AtRest() && address < SIXTEEN_BITS && kind < 8
    ensures var r' := ReadAll(r, [':'] + HexByte(count) + HexWord(address) + HexByte(kind));
      && r'.Valid() && r'.state == READ_DATA_HIGH && r'.length == 0 && r'.lineLength == count && r'.kind == kind
      && r'.address == r.address - r.address % SIXTEEN_BITS + address
      && r'.segment == r.segment && r'.events == r.events
  {
    hide Or, Sum, HexByte;
    var r1 := ReadChar(r, ':');
    assert r1 == r.(state := READ_COUNT_HIGH);
    var r2 := TakeByte(r1.(state := READ_COUNT_LOW), count);
    var r3 := TakeByte(r2.(state := READ_ADDRESS_MSB_LOW), address / 256);
    var r4 := TakeByte(r3.(state := READ_ADDRESS_LSB_LOW), address % 256);
    var r5 := TakeByte(r4.(state := READ_RECORD_TYPE_LOW), kind);
    LowBytes(r.address, address);
    assert r3.address % 256 == 0;
    ZeroOr(address % 256);
    assert ReadAll(r, [':']) == r1;
    ReadHexByte(r1, count);
    ReadHexByte(r2, address / 256);
    ReadHexByte(r3, address % 256);
    ReadHexByte(r4, kind);
    ReadFour(r, [':'], HexByte(count), HexByte(address / 256), HexByte(address % 256));
    assert [':'] + HexByte(count) + HexByte(address / 256) + HexByte(address % 256)
        == [':'] + HexByte(count) + HexWord(address);
    ReadConcat(r, [':'] + HexByte(count) + HexWord(address), HexByte(kind));
  }

  lemma ReadNewline(r: State)
    requires r.Valid()
    ensures ReadAll(r, "\n") == r
  {
    hide EndRead, TakeByte;
    assert ReadChar(r, '\n') == r;
    assert "\n"[1..] == "";
  }

  /** What a complete record that ends with `check` does: it is handed over, with a mismatch unless `check` is its
      checksum, and an extended address takes effect if it is right. */
  function Taken(r: State, data: seq<byte>, check: byte): State
    requires r.kind in {2, 4} ==> |data| >= 2
  {
    var wrong := check != Checksum(|data| + r.kind + r.address % 256 + r.address / 256 % 256 + Sum(data));
    r.(address := if !wrong && r.kind == EXTENDED_LINEAR_ADDRESS_RECORD
                  then data[0] * 0x100_0000 + data[1] * SIXTEEN_BITS + r.address % SIXTEEN_BITS else r.address,
       segment := if !wrong && r.kind == EXTENDED_SEGMENT_ADDRESS_RECORD then data[0] * 256 + data[1] else r.segment,
       events := r.events + [Event(r.kind, r.address, r.segment, data, |data|, wrong)])
  }

  /** Between records, having handed over the same and knowing the same addresses. */
  ghost predicate Rests(r: State, like: State) {
    r.AtRest() && r.address == like.address && r.segment == like.segment && r.events == like.events
  }

  /** The data and checksum after the header. */
  lemma ReadBody(r: State, data: seq<byte>, check: byte)
    requires r.Valid() && r.state == READ_DATA_HIGH && r.length == 0 && r.lineLength == |data|
    requires (r.kind == DATA_RECORD ==> data != []) && (r.kind in {2, 4} ==> |data| >= 2)
    ensures Rests(ReadAll(ReadAll(ReadAll(r, HexBytes(data)), HexByte(check)), "\n"), Taken(r, data, check))
  {
    hide Or, Sum, Checksum, HexByte, HexBytes, ReadChar, ReadAll, TakeByte;
    ReadData(r, data);
    var r2 := ReadAll(r, HexBytes(data));
    assert r2.data[..|data|] == data;
    ReadHexByte(r2, check);
    CheckedEnd(r2, data, check);
    ReadNewline(ReadAll(r2, HexByte(check)));
  }

  /** Reading the line of a record hands over exactly its contents, once, and ends between records; whether the
      checksum matches is found out. */
  lemma ReadLine(r: State, address: nat, kind: byte, data: seq<byte>, check: byte)
    requires r.AtRest() && address < SIXTEEN_BITS && |data| <= LINE_MAX_LENGTH
    requires kind < 8 && (kind == DATA_RECORD ==> data != []) && (kind in {2, 4} ==> |data| >= 2)
    ensures var r', a := ReadAll(r, RecordLine(address, kind, data, check)), r.address - r.address % SIXTEEN_BITS + address;
      var wrong := check != CheckOf(address, kind, data);
      && r'.AtRest()
      && r'.events == r.events + [Event(kind, a, r.segment, data, |data|, wrong)]
      && r'.address == (if !wrong && kind == EXTENDED_LINEAR_ADDRESS_RECORD
                        then data[0] * 0x100_0000 + data[1] * SIXTEEN_BITS + address else a)
      && r'.segment == (if !wrong && kind == EXTENDED_SEGMENT_ADDRESS_RECORD then data[0] * 256 + data[1] else r.segment)
  {
    hide Or, Sum, Checksum, HexByte, HexWord, HexBytes, ReadChar, ReadAll, TakeByte;
    var header := [':'] + HexByte(|data|) + HexWord(address) + HexByte(kind);
    ReadHeader(r, |data|, address, kind);
    ReadFour(r, header, HexBytes(data), HexByte(check), "\n");
    var r1 := ReadAll(r, header);
    LowBytes(r.address, address);
    ReadBody(r1, data, check);
  }

  /** A written record is read back with a matching checksum. */
  lemma ReadRecord(r: State, address: nat, kind: byte, data: seq<byte>)
    requires r.AtRest() && address < SIXTEEN_BITS && |data| <= LINE_MAX_LENGTH
    requires kind < 8 && (kind == DATA_RECORD ==> data != []) && (kind in {2, 4} ==> |data| >= 2)
    ensures var r', a := ReadAll(r, Record(address, kind, data)), r.address - r.address % SIXTEEN_BITS + address;
      && r'.AtRest()
      && r'.events == r.events + [Event(kind, a, r.segment, data, |data|, false)]
      && r'.address == (if kind == EXTENDED_LINEAR_ADDRESS_RECORD
                        then data[0] * 0x100_0000 + data[1] * SIXTEEN_BITS + address else a)
      && r'.segment == (if kind == EXTENDED_SEGMENT_ADDRESS_RECORD then data[0] * 256 + data[1] else r.segment)
  {
    hide RecordLine, CheckOf, ReadAll;
    ReadLine(r, address, kind, data, CheckOf(address, kind, data));
  }

  lemma CheckedEnd(r: State, data: seq<byte>, check: byte)
    requires r.Valid() && r.state == READ_DATA_HIGH && r.length == r.lineLength == |data| && r.data[..|data|] == data
    requires (r.kind == DATA_RECORD ==> data != []) && (r.kind in {2, 4} ==> |data| >= 2)
    ensures Rests(TakeByte(r.(state := READ_DATA_LOW), check), Taken(r, data, check))
  {
    hide Or, Sum, Checksum;
    var r1 := r.(data := r.data[r.length := check], state := READ_DATA_LOW);
    assert r1.data[..|data|] == data;
  }

  // ---------- the reader itself ----------

  class Reader {
    var address: nat
    var segment: nat
    var state: nat
    var kind: byte
    var lineLength: nat
    var length: nat
    const data: array<byte>
    /** The calls of `ihex_data_read` so far. */
    var events: seq<Event>

    ghost function Now(): State
      reads this, data
    {
      State(address, segment, state, kind, lineLength, length, data[..], events)
    }

    ghost predicate Valid()
      reads this, data
    {
      data.Length == LINE_MAX_LENGTH + 1 && Now().Valid()
    }

    /** `ihex_begin_read`, on a cleared buffer. */
    constructor ()
      ensures Valid() && fresh(data) && Now() == Begin()
    {
      address, segment, state, kind, lineLength, length, events := 0, 0, READ_WAIT_FOR_START, DATA_RECORD, 0, 0, [];
      data := new byte[LINE_MAX_LENGTH + 1](_ => 0);
    }

    /** The sum over the first `n` buffered bytes. */
    method SumData(n: nat) returns (sum: nat)
      requires n <= data.Length
      ensures sum == Sum(data[..n])
    {
      var i := 0;
      sum := 0;
      while i < n
        invariant 0 <= i <= n && sum == Sum(data[..i])
      {
        HexBytesAppend(data[..i], data[i]);
        assert data[..i + 1] == data[..i] + [data[i]];
        sum := sum + data[i];
        i := i + 1;
      }
    }

    /** `ihex_end_read`. */
    method Finish()
      requires Valid()
      modifies this
      ensures Valid() && Now() == EndRead(old(Now()))
    {
      hide Sum, Checksum;
      EndReadValid(Now());
      if length == 0 && kind == DATA_RECORD { return; }
      var sum := SumData(length);
      sum := sum + length + kind + address % 256 + address / 256 % 256;
      var e := Event(kind, address, segment, data[..length], lineLength, Checksum(sum) != data[length]);
      assert data[..length] == Now().data[..length];
      events := events + [e];
      if e.Accepted() {
        if kind == EXTENDED_LINEAR_ADDRESS_RECORD {
          var b0: int, b1: int := data[0], data[1];
          address := address % SIXTEEN_BITS;
          address := address + b0 * 0x100_0000 + b1 * SIXTEEN_BITS;
        } else if kind == EXTENDED_SEGMENT_ADDRESS_RECORD {
          var b0: int, b1: int := data[0], data[1];
          segment := b0 * 256 + b1;
        }
      }
      length, state, kind := 0, READ_WAIT_FOR_START, DATA_RECORD;
    }

    /** The switch on a complete byte. */
    method Accept(v: byte)
      requires Valid() && data[length] == v
      modifies this
      ensures Valid() && Now() == TakeByte(old(Now()), v)
    {
      hide Sum, Checksum, EndRead, Or;
      TakeByteValid(Now(), v);
      assert data[..][length := v] == data[..];
      var next := state + 1;
      match next / 2
      case 1 => lineLength, state := v, next;
      case 2 =>
        address := address - address % SIXTEEN_BITS;
        address, state := address + v * 256, next;
      case 3 => address, state := address - address % 256 + OrBytes(address % 256, v), next;
      case 4 =>
        if v >= 8 {
          state := READ_WAIT_FOR_START;
        } else {
          kind, state := v, next;
        }
      case 5 =>
        if length < lineLength {
          length, state := length + 1, READ_DATA_HIGH;
        } else {
          Finish();
          state := READ_WAIT_FOR_START;
        }
      case _ => state := READ_WAIT_FOR_START;
    }

    method ReadByte(c: char)
      requires Valid()
      modifies this, data
      ensures Valid() && Now() == ReadChar(old(Now()), c)
    {
      hide Sum, Checksum, EndRead, Or, TakeByte;
      ReadCharValid(Now(), c);
      var b := Nybble(c);
      if c == ':' {
        Finish();
        state := READ_COUNT_HIGH;
      } else if b >= 0 {
        if state % 2 == 1 {
          data[length] := b * 16;
          assert data[..] == old(data[..])[length := b * 16];
          state := state + 1;
        } else {
          ghost var r := Now();
          var v := OrBytes(data[length], b);
          data[length] := v;
          assert data[..] == r.data[length := v];
          Accept(v);
          TakeByteOver(r, v);
        }
      }
    }

    method ReadBytes(s: string)
      requires Valid()
      modifies this, data
      ensures Valid() && Now() == ReadAll(old(Now()), s)
    {
      hide EndRead, TakeByte, ReadChar;
      var i := 0;
      while i < |s|
        invariant 0 <= i <= |s| && Valid() && Now() == ReadAll(old(Now()), s[..i])
      {
        ReadConcat(old(Now()), s[..i], [s[i]]);
        assert s[..i + 1] == s[..i] + [s[i]];
        ReadOne(Now(), s[i]);
        ReadByte(s[i]);
        i := i + 1;
      }
      assert s[..|s|] == s;
    }
  }

  /** `TakeByte` does not depend on what `data[length]` held. */
  lemma TakeByteOver(r: State, v: byte)
    requires r.Valid()
    ensures TakeByte(r.(data := r.data[r.length := v]), v) == TakeByte(r, v)
  {
    hide EndRead, Or;
    assert r.data[r.length := v][r.length := v] == r.data[r.length := v];
  }

  lemma ReadOne(r: State, c: char)
    requires r.Valid()
    ensures ReadChar(r, c).Valid() && ReadAll(r, [c]) == ReadChar(r, c)
  {
    ReadCharValid(r, c);
    hide ReadChar;
    assert [c][1..] == "";
  }
}
