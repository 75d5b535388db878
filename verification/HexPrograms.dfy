/** The two programs around the library: from bytes to Intel HEX, and back. */
module HexPrograms {
  import opened HexFormat
  import W = HexWriter
  import R = HexReader
  import opened HexRoundTrip
  import opened HexStandard

  function Concat(chunks: seq<seq<byte>>): seq<byte> {
    if chunks == [] then [] else Concat(chunks[..|chunks| - 1]) + chunks[|chunks| - 1]
  }

  /** `bin2ihex`: the input arrives in chunks of any size. */
  method BinToHex(address: nat, forced: bool, chunks: seq<seq<byte>>) returns (output: string)
    requires Region(address, Concat(chunks)).Fits()
    ensures Memory(output) == Placed(address, Concat(chunks))
    ensures Intact(Reading(output).events) && Reading(output).AtRest()
    // lines of 32 bytes, letter by letter as in the standard, the first announcement forced or not
    ensures exists body :: IsBody(body, if forced then -1 else 0, address, Concat(chunks), 32) && output == body + ":00000001FF\n"
  {
    hide Memory, IsBody, W.Finish, W.PutAll, Intact, Reading, W.Seek;
    var ihex := new W.Writer();
    ihex.WriteAtAddress(address);
    if forced { ihex.overflow := true; }
    ghost var p := ihex.Now();
    var i := 0;
    W.PutNone(p, ihex.lineLength);
    while i < |chunks|
      invariant 0 <= i <= |chunks| && ihex.Valid() && fresh(ihex) && fresh(ihex.data)
      invariant ihex.lineLength == DEFAULT_OUTPUT_LINE_LENGTH
      invariant ihex.Now() == W.PutAll(p, Concat(chunks[..i]), DEFAULT_OUTPUT_LINE_LENGTH)
    {
      W.PutSplit(p, Concat(chunks[..i]), chunks[i], DEFAULT_OUTPUT_LINE_LENGTH);
      assert chunks[..i + 1][..i] == chunks[..i];
      ihex.WriteBytes(chunks[i]);
      i := i + 1;
    }
    assert chunks[..i] == chunks;
    ihex.EndWrite();
    output := ihex.output;
    RoundTripOne(address, Concat(chunks), DEFAULT_OUTPUT_LINE_LENGTH, forced);
    ghost var body := RegionText(address, Concat(chunks), DEFAULT_OUTPUT_LINE_LENGTH, forced);
  }

  /** `ihex2bin`: reading in pieces of any size and ending hands over every record of the text, and nothing else. */
  method HexToBin(pieces: seq<string>) returns (events: seq<R.Event>)
    ensures events == R.EndRead(Reading(Joined(pieces))).events
  {
    hide R.EndRead, R.ReadAll;
    var ihex := new R.Reader();
    var i := 0;
    R.ReadNone(R.Begin());
    while i < |pieces|
      invariant 0 <= i <= |pieces| && ihex.Valid() && fresh(ihex) && fresh(ihex.data)
      invariant ihex.Now() == Reading(Joined(pieces[..i]))
    {
      AppendRead(Joined(pieces[..i]), pieces[i]);
      assert pieces[..i + 1][..i] == pieces[..i];
      ihex.ReadBytes(pieces[i]);
      i := i + 1;
    }
    assert pieces[..i] == pieces;
    ihex.Finish();
    events := ihex.events;
  }

  function Joined(pieces: seq<string>): string {
    if pieces == [] then "" else Joined(pieces[..|pieces| - 1]) + pieces[|pieces| - 1]
  }
}
