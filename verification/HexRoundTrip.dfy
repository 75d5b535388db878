/** What is written as Intel HEX is read back: exactly when no pending address overflow is forgotten. */
module HexRoundTrip {
  import opened HexFormat
  import W = HexWriter
  import R = HexReader

  /** Bytes at consecutive addresses. */
  function Placed(address: nat, s: seq<byte>): seq<(nat, byte)> {
    seq(|s|, i requires 0 <= i < |s| => (address + i, s[i]))
  }

  /** The bytes the documented handler stores, in order, at the linear addresses it stores them to. */
  function Stored(events: seq<R.Event>): seq<(nat, byte)> {
    if events == [] then []
    else
      var e := events[|events| - 1];
      Stored(events[..|events| - 1])
      + if e.kind == DATA_RECORD && e.Accepted() then Placed(e.Linear(), e.data) else []
  }

  ghost predicate Intact(events: seq<R.Event>) {
    forall e :: e in events ==> e.Accepted()
  }

  ghost function Reading(text: string): R.State { R.ReadAll(R.Begin(), text) }

  ghost function Memory(text: string): seq<(nat, byte)> { Stored(Reading(text).events) }

  /** Where the next record's bytes will be read to. */
  function Target(p: W.State): nat {
    (if p.overflow then W.High(p.address) else p.announced) * SIXTEEN_BITS + p.address % SIXTEEN_BITS
  }

  /** The reader of the text so far is between records, has found no error, and knows the announced upper half. */
  ghost predicate Followed(p: W.State) {
    && p.Valid() && p.announced < SIXTEEN_BITS
    && var r := Reading(p.text);
       r.AtRest() && r.segment == 0 && r.address / SIXTEEN_BITS == p.announced && Intact(r.events)
  }

  lemma FollowedFacts(p: W.State)
    requires Followed(p)
    ensures p.Valid() && p.announced < SIXTEEN_BITS
  {
  }

  lemma FollowedFlag(p: W.State)
    requires Followed(p)
    ensures Followed(p.(overflow := true))
  {
  }

  lemma TargetBuffer(p: W.State, s: seq<byte>)
    ensures Target(p.(rest := s)) == Target(p)
  {
  }

  lemma AppendRead(text: string, line: string)
    ensures Reading(text + line) == R.ReadAll(Reading(text), line)
  {
    R.ReadConcat(R.Begin(), text, line);
  }

  lemma StoredGrow(events: seq<R.Event>, e: R.Event)
    ensures Stored(events + [e])
         == Stored(events) + if e.kind == DATA_RECORD && e.Accepted() then Placed(e.Linear(), e.data) else []
  {
    assert (events + [e])[..|events|] == events;
  }

  /** An announcement changes only the upper half the reader knows. */
  lemma ReadAnnouncement(r: R.State, high: nat)
    requires r.AtRest() && r.segment == 0 && Intact(r.events) && high < SIXTEEN_BITS
    ensures var r' := R.ReadAll(r, W.Announcement(high));
      && r'.AtRest() && r'.segment == 0 && Intact(r'.events)
      && r'.address / SIXTEEN_BITS == high && Stored(r'.events) == Stored(r.events)
  {
    hide Record, R.ReadAll;
    R.ReadRecord(r, 0, EXTENDED_LINEAR_ADDRESS_RECORD, [high / 256, high % 256]);
    var a := r.address - r.address % SIXTEEN_BITS;
    StoredGrow(r.events, R.Event(EXTENDED_LINEAR_ADDRESS_RECORD, a, 0, [high / 256, high % 256], 2, false));
  }

  lemma ReadDataRecord(r: R.State, low: nat, s: seq<byte>)
    requires r.AtRest() && r.segment == 0 && Intact(r.events) && low < SIXTEEN_BITS && 0 < |s| <= LINE_MAX_LENGTH
    ensures var r', a := R.ReadAll(r, Record(low, DATA_RECORD, s)), r.address / SIXTEEN_BITS * SIXTEEN_BITS + low;
      && r'.AtRest() && r'.segment == 0 && Intact(r'.events)
      && r'.address / SIXTEEN_BITS == r.address / SIXTEEN_BITS && Stored(r'.events) == Stored(r.events) + Placed(a, s)
  {
    hide Record, R.ReadAll, Stored;
    R.ReadRecord(r, low, DATA_RECORD, s);
    R.HighKept(r.address, low);
    var a := r.address - r.address % SIXTEEN_BITS + low;
    StoredGrow(r.events, R.Event(DATA_RECORD, a, 0, s, |s|, false));
  }

  /** What flushing adds for the reader: the buffered bytes, at the target address. */
  lemma FlushRead(p: W.State)
    requires Followed(p)
    ensures Followed(W.Flush(p)) && Memory(W.Flush(p).text) == Memory(p.text) + Placed(Target(p), p.rest)
  {
    hide Record, R.ReadAll, Stored, W.Announcement;
    if p.rest == [] {
      assert Memory(p.text) + Placed(Target(p), p.rest) == Memory(p.text);
    } else {
      var high, low := W.High(p.address), p.address % SIXTEEN_BITS;
      var announcement := if p.overflow then W.Announcement(high) else "";
      var text1 := p.text + announcement;
      AppendRead(p.text, announcement);
      if p.overflow { ReadAnnouncement(Reading(p.text), high); } else { assert text1 == p.text; }
      AppendRead(text1, Record(low, DATA_RECORD, p.rest));
      ReadDataRecord(Reading(text1), low, p.rest);
    }
  }

  // ---------- one region of consecutive bytes ----------

  /** The stored bytes, with the buffered ones to come, are `want`. */
  ghost predicate Tracks(p: W.State, want: seq<(nat, byte)>) {
    && Followed(p) && p.address + |p.rest| <= THIRTY_TWO_BITS
    && (p.rest != [] ==> Target(p) == p.address)
    && Memory(p.text) + Placed(p.address, p.rest) == want
  }

  lemma PlacedAppend(address: nat, s: seq<byte>, t: seq<byte>)
    ensures Placed(address, s + t) == Placed(address, s) + Placed(address + |s|, t)
  {
  }

  /** Flushing keeps the target right as long as the address does not run over. */
  lemma FlushTarget(p: W.State)
    requires p.Valid() && p.announced < SIXTEEN_BITS && Target(p) == p.address && p.address + |p.rest| < THIRTY_TWO_BITS
    ensures var q := W.Flush(p); q.address == p.address + |p.rest| && Target(q) == q.address
  {
    hide Record, W.Announcement;
    var q, low := W.Flush(p), p.address % SIXTEEN_BITS;
    if p.rest != [] && low + |p.rest| < SIXTEEN_BITS {
      assert p.address + |p.rest| == W.High(p.address) * SIXTEEN_BITS + (low + |p.rest|);
    }
  }

  lemma PutTracks(p: W.State, b: byte, lineLength: nat, want: seq<(nat, byte)>)
    requires Tracks(p, want) && Target(p) == p.address && p.address + |p.rest| < THIRTY_TWO_BITS
    requires 0 < lineLength <= LINE_MAX_LENGTH
    ensures var q := W.Put(p, b, lineLength);
      && Tracks(q, want + [(p.address + |p.rest|, b)]) && Target(q) == q.address
      && q.address + |q.rest| == p.address + |p.rest| + 1
  {
    hide W.Flush, Followed;
    assert Placed(p.address + |p.rest|, [b]) == [(p.address + |p.rest|, b)];
    FollowedFacts(p);
    if lineLength <= |p.rest| {
      FlushRead(p);
      FlushTarget(p);
      var f := W.Flush(p);
      FollowedBuffer(f, [b]);
    } else {
      PlacedAppend(p.address, p.rest, [b]);
      FollowedBuffer(p, p.rest + [b]);
    }
  }

  lemma FollowedBuffer(p: W.State, s: seq<byte>)
    requires Followed(p) && |s| <= LINE_MAX_LENGTH
    ensures Followed(p.(rest := s))
  {
  }

  lemma {:induction false} PutAllTracks(p: W.State, s: seq<byte>, lineLength: nat, want: seq<(nat, byte)>)
    requires Tracks(p, want) && Target(p) == p.address && p.address + |p.rest| + |s| <= THIRTY_TWO_BITS
    requires 0 < lineLength <= LINE_MAX_LENGTH
    ensures Tracks(W.PutAll(p, s, lineLength), want + Placed(p.address + |p.rest|, s))
    decreases |s|
  {
    hide Target, Followed, W.Put, Memory;
    FollowedFacts(p);
    var a := p.address + |p.rest|;
    if s == [] {
      assert want + Placed(a, s) == want;
    } else {
      PutTracks(p, s[0], lineLength, want);
      PutAllTracks(W.Put(p, s[0], lineLength), s[1..], lineLength, want + [(a, s[0])]);
      assert want + [(a, s[0])] + Placed(a + 1, s[1..]) == want + Placed(a, s) by {
        PlacedAppend(a, [s[0]], s[1..]);
        assert [s[0]] + s[1..] == s;
      }
    }
  }

  // ---------- any number of regions ----------

  /** `bytes` written at `address`. */
  datatype Region = Region(address: nat, bytes: seq<byte>)
  {
    predicate Fits() { address < THIRTY_TWO_BITS && address + |bytes| <= THIRTY_TWO_BITS }
  }

  predicate AllFit(regions: seq<Region>) {
    forall i :: 0 <= i < |regions| ==> regions[i].Fits()
  }

  /** The writer after the given regions, each started with `ihex_write_at_address`. */
  function WriteRegions(p: W.State, regions: seq<Region>, lineLength: nat): (p': W.State)
    requires p.Valid() && 0 < lineLength <= LINE_MAX_LENGTH && AllFit(regions)
    ensures p'.Valid()
    decreases |regions|
  {
    if regions == [] then p
    else
      var g := regions[0];
      WriteRegions(W.PutAll(W.Seek(p, g.address), g.bytes, lineLength), regions[1..], lineLength)
  }

  /** What the regions ask to have stored. */
  function Contents(regions: seq<Region>): seq<(nat, byte)> {
    if regions == [] then [] else Placed(regions[0].address, regions[0].bytes) + Contents(regions[1..])
  }

  /** When the first byte of each region is written, its upper half is announced or about to be: this fails when
      `ihex_write_at_address` clears a pending overflow flag because the upper halves already agree. */
  ghost predicate Announced(p: W.State, regions: seq<Region>, lineLength: nat)
    requires p.Valid() && 0 < lineLength <= LINE_MAX_LENGTH && AllFit(regions)
    decreases |regions|
  {
    regions == []
    || (var g := regions[0];
        var q := W.Seek(p, g.address);
        && (g.bytes == [] || q.overflow || q.announced == W.High(g.address))
        && Announced(W.PutAll(q, g.bytes, lineLength), regions[1..], lineLength))
  }

  lemma TargetRight(q: W.State)
    requires q.Valid() && q.announced < SIXTEEN_BITS
    ensures Target(q) == q.address <==> q.overflow || q.announced == W.High(q.address)
  {
  }

  lemma SeekTracks(p: W.State, address: nat, want: seq<(nat, byte)>)
    requires Tracks(p, want) && address < THIRTY_TWO_BITS
    ensures Tracks(W.Seek(p, address), want)
  {
    hide W.Flush, Memory, Target;
    FlushRead(p);
    var q := W.Seek(p, address);
    assert Placed(address, []) == [];
    assert Memory(q.text) + [] == Memory(q.text);
    if p.rest == [] { assert Placed(Target(p), p.rest) == Placed(p.address, p.rest); }
  }

  // ---------- text only grows ----------

  lemma FlushGrows(p: W.State)
    requires p.Valid()
    ensures p.text <= W.Flush(p).text
  {
    hide Record, W.Announcement;
  }

  lemma {:induction false} PutAllGrows(p: W.State, s: seq<byte>, lineLength: nat)
    requires p.Valid() && 0 < lineLength <= LINE_MAX_LENGTH
    ensures p.text <= W.PutAll(p, s, lineLength).text
    decreases |s|
  {
    hide W.Flush;
    if s != [] {
      FlushGrows(p);
      PutAllGrows(W.Put(p, s[0], lineLength), s[1..], lineLength);
    }
  }

  lemma {:induction false} RegionsGrow(p: W.State, regions: seq<Region>, lineLength: nat)
    requires p.Valid() && 0 < lineLength <= LINE_MAX_LENGTH && AllFit(regions)
    ensures W.Flush(p).text <= W.Finish(WriteRegions(p, regions, lineLength))
    decreases |regions|
  {
    hide W.Flush, W.PutAll;
    if regions != [] {
      var q := W.Seek(p, regions[0].address);
      var p1 := W.PutAll(q, regions[0].bytes, lineLength);
      PutAllGrows(q, regions[0].bytes, lineLength);
      FlushGrows(p1);
      RegionsGrow(p1, regions[1..], lineLength);
    }
  }

  lemma MemoryGrows(text: string, more: string)
    requires text <= more
    ensures Memory(text) <= Memory(more)
  {
    var rest := more[|text|..];
    assert more == text + rest;
    AppendRead(text, rest);
    R.EventsGrow(Reading(text), rest);
    StoredPrefix(Reading(text).events, Reading(more).events);
  }

  lemma {:induction false} StoredPrefix(events: seq<R.Event>, more: seq<R.Event>)
    requires events <= more
    ensures Stored(events) <= Stored(more)
    decreases |more|
  {
    if events == more {
    } else {
      StoredPrefix(events, more[..|more| - 1]);
    }
  }

  // ---------- the round trip ----------

  /** The first line of a region whose upper half is neither announced nor about to be is stored elsewhere. */
  lemma Misplaced(q: W.State, s: seq<byte>, regions: seq<Region>, lineLength: nat)
    requires Followed(q) && q.rest == [] && Target(q) != q.address && s != []
    requires 0 < lineLength <= LINE_MAX_LENGTH && AllFit(regions)
    ensures var end := Memory(W.Finish(WriteRegions(W.PutAll(q, s, lineLength), regions, lineLength)));
      |Memory(q.text)| < |end| && end[|Memory(q.text)|] == (Target(q), s[0])
  {
    hide W.Flush, Memory, Target, W.Finish, WriteRegions, Followed;
    FollowedFacts(q);
    var n := if |s| <= lineLength then |s| else lineLength;
    var q1 := q.(rest := s[..n]);
    FollowedBuffer(q, s[..n]);
    FlushRead(q1);
    TargetBuffer(q, s[..n]);
    var p := W.PutAll(q, s, lineLength);
    var end := W.Finish(WriteRegions(p, regions, lineLength));
    assert W.Flush(q1).text <= W.Flush(p).text by {
      if |s| > lineLength {
        W.PutLine(q, s, lineLength);
        PutAllGrows(W.Flush(q1), s[lineLength..], lineLength);
        FlushGrows(p);
      } else {
        W.PutFits(q, s, lineLength);
        assert q.rest + s == s && s[..n] == s;
      }
    }
    RegionsGrow(p, regions, lineLength);
    MemoryGrows(W.Flush(q1).text, end);
    assert Placed(Target(q), s[..n])[0] == (Target(q), s[0]);
  }

  lemma FinishTracks(p: W.State, want: seq<(nat, byte)>)
    requires Tracks(p, want)
    ensures Memory(W.Finish(p)) == want && Intact(Reading(W.Finish(p)).events) && Reading(W.Finish(p)).AtRest()
  {
    hide Record, W.Flush, R.ReadAll, Stored;
    FlushRead(p);
    if p.rest == [] { assert Placed(Target(p), p.rest) == Placed(p.address, p.rest); }
    var text := W.Flush(p).text;
    AppendRead(text, Record(0, END_OF_FILE_RECORD, []));
    var r := Reading(text);
    R.ReadRecord(r, 0, END_OF_FILE_RECORD, []);
    var e := R.Event(END_OF_FILE_RECORD, r.address - r.address % SIXTEEN_BITS, 0, [], 0, false);
    StoredGrow(r.events, e);
  }

  /** For any regions, from any state the reader has followed: what is read back is what was written, if and only
      if no region is written while its upper half is unannounced. */
  lemma {:induction false} RoundTripFrom(p: W.State, regions: seq<Region>, lineLength: nat, want: seq<(nat, byte)>)
    requires Tracks(p, want) && 0 < lineLength <= LINE_MAX_LENGTH && AllFit(regions)
    ensures Memory(W.Finish(WriteRegions(p, regions, lineLength))) == want + Contents(regions)
        <==> Announced(p, regions, lineLength)
    decreases |regions|
  {
    hide W.Flush, W.PutAll, Memory, Target, W.Finish, Followed;
    if regions == [] {
      FinishTracks(p, want);
      assert want + [] == want;
    } else {
      var g, rest := regions[0], regions[1..];
      assert AllFit(rest) && g.Fits();
      FollowedFacts(p);
      var q := W.Seek(p, g.address);
      SeekTracks(p, g.address, want);
      FollowedFacts(q);
      TargetRight(q);
      var p1 := W.PutAll(q, g.bytes, lineLength);
      var placed := Placed(g.address, g.bytes);
      assert want + (placed + Contents(rest)) == want + placed + Contents(rest);
      if g.bytes == [] {
        W.PutNone(q, lineLength);
        assert want + placed == want;
        RoundTripFrom(p1, rest, lineLength, want);
      } else if Target(q) == q.address {
        PutAllTracks(q, g.bytes, lineLength, want);
        RoundTripFrom(p1, rest, lineLength, want + placed);
      } else {
        Misplaced(q, g.bytes, rest, lineLength);
        assert Memory(q.text) == want by { assert Placed(q.address, []) == []; }
        assert (want + placed + Contents(rest))[|want|] == (g.address, g.bytes[0]);
      }
    }
  }

  lemma StartTracks()
    ensures Tracks(W.Start(), []) && Target(W.Start()) == 0
  {
    assert Placed(0, []) == [];
    assert Stored([]) + [] == [];
  }

  /** For any regions of 32-bit addresses and any line length. */
  lemma RoundTripExactly(regions: seq<Region>, lineLength: nat)
    requires 0 < lineLength <= LINE_MAX_LENGTH && AllFit(regions)
    ensures Memory(W.Finish(WriteRegions(W.Start(), regions, lineLength))) == Contents(regions)
        <==> Announced(W.Start(), regions, lineLength)
  {
    hide WriteRegions, Contents, Announced, Memory, W.Finish, Tracks;
    StartTracks();
    RoundTripFrom(W.Start(), regions, lineLength, []);
    assert [] + Contents(regions) == Contents(regions);
  }

  /** `ihex_write_at_address` is never called with an overflow pending for the upper half it names. */
  ghost predicate NoneForgotten(p: W.State, regions: seq<Region>, lineLength: nat)
    requires p.Valid() && 0 < lineLength <= LINE_MAX_LENGTH && AllFit(regions)
    decreases |regions|
  {
    regions == []
    || (var g, f := regions[0], W.Flush(p);
        && !(f.overflow && W.High(f.address) == W.High(g.address))
        && NoneForgotten(W.PutAll(W.Seek(p, g.address), g.bytes, lineLength), regions[1..], lineLength))
  }

  /** The upper half of the writer's address is announced, or a flag says that it is not. */
  ghost predicate Current(p: W.State) {
    p.Valid() && p.announced < SIXTEEN_BITS && p.address + |p.rest| <= THIRTY_TWO_BITS && Target(p) == p.address
  }

  lemma FlushCurrent(p: W.State)
    requires Current(p)
    ensures Target(W.Flush(p)) == W.Flush(p).address && W.Flush(p).announced < SIXTEEN_BITS
  {
    hide Record, W.Announcement;
    if p.address + |p.rest| < THIRTY_TWO_BITS { FlushTarget(p); }
  }

  lemma {:induction false} PutAllCurrent(p: W.State, s: seq<byte>, lineLength: nat)
    requires Current(p) && p.address + |p.rest| + |s| <= THIRTY_TWO_BITS && 0 < lineLength <= LINE_MAX_LENGTH
    ensures Current(W.PutAll(p, s, lineLength))
    decreases |s|
  {
    if s != [] {
      assert Current(W.Put(p, s[0], lineLength))
          && W.Put(p, s[0], lineLength).address + |W.Put(p, s[0], lineLength).rest| == p.address + |p.rest| + 1 by {
        FlushTarget(p);
        FlushCurrent(p);
      }
      hide W.Put, Current;
      PutAllCurrent(W.Put(p, s[0], lineLength), s[1..], lineLength);
    }
  }

  /** Once the buffer has left, a pending overflow flag is true to its word: that upper half has not been announced. */
  ghost predicate Sharp(p: W.State)
    requires p.Valid()
  {
    W.Flush(p).overflow ==> W.Flush(p).announced != W.High(W.Flush(p).address)
  }

  lemma BufferSharp(p: W.State)
    requires Current(p) && p.rest != []
    ensures Sharp(p)
  {
    hide Record, W.Announcement;
    var low := p.address % SIXTEEN_BITS;
    if 0xFFFF - low < |p.rest| {
      assert p.address == W.High(p.address) * SIXTEEN_BITS + low;
    }
  }

  lemma {:induction false} PutAllFills(p: W.State, s: seq<byte>, lineLength: nat)
    requires p.Valid() && 0 < lineLength <= LINE_MAX_LENGTH && (p.rest != [] || s != [])
    ensures W.PutAll(p, s, lineLength).rest != []
    decreases |s|
  {
    hide W.Flush;
    if s != [] { PutAllFills(W.Put(p, s[0], lineLength), s[1..], lineLength); }
  }

  /** Without empty regions the guard is exact: every upper half is announced in time if and only if no seek clears a
      pending flag. */
  lemma {:induction false} NoneForgottenAnnounced(p: W.State, regions: seq<Region>, lineLength: nat)
    requires Current(p) && Sharp(p) && 0 < lineLength <= LINE_MAX_LENGTH && AllFit(regions)
    requires forall i :: 0 <= i < |regions| ==> regions[i].bytes != []
    ensures NoneForgotten(p, regions, lineLength) <==> Announced(p, regions, lineLength)
    decreases |regions|
  {
    hide W.Flush, W.PutAll;
    if regions != [] {
      var g := regions[0];
      var q := W.Seek(p, g.address);
      FlushCurrent(p);
      TargetRight(W.Flush(p));
      TargetRight(q);
      if q.overflow || q.announced == W.High(g.address) {
        PutAllCurrent(q, g.bytes, lineLength);
        PutAllFills(q, g.bytes, lineLength);
        BufferSharp(W.PutAll(q, g.bytes, lineLength));
        NoneForgottenAnnounced(W.PutAll(q, g.bytes, lineLength), regions[1..], lineLength);
      }
    }
  }

  /** So what is read back is what was written if and only if no seek clears a pending overflow flag. */
  lemma RoundTripGuard(regions: seq<Region>, lineLength: nat)
    requires 0 < lineLength <= LINE_MAX_LENGTH && AllFit(regions)
    requires forall i :: 0 <= i < |regions| ==> regions[i].bytes != []
    ensures Memory(W.Finish(WriteRegions(W.Start(), regions, lineLength))) == Contents(regions)
        <==> NoneForgotten(W.Start(), regions, lineLength)
  {
    hide WriteRegions, Contents, Announced, NoneForgotten, Memory, W.Finish;
    RoundTripExactly(regions, lineLength);
    NoneForgottenAnnounced(W.Start(), regions, lineLength);
  }

  /** One byte up to a 64 KiB boundary, the next byte written with its own call of `ihex_write_at_address`: it is
      read back at address 0. */
  lemma ForgottenOverflow()
    ensures var regions := [Region(0xFFFF, [1]), Region(SIXTEEN_BITS, [2])];
      !Announced(W.Start(), regions, DEFAULT_OUTPUT_LINE_LENGTH)
      && Memory(W.Finish(WriteRegions(W.Start(), regions, DEFAULT_OUTPUT_LINE_LENGTH))) != Contents(regions)
  {
    var first, second := Region(0xFFFF, [1]), Region(SIXTEEN_BITS, [2]);
    var regions := [first, second];
    assert regions[1..] == [second] && [second][1..] == [];
    var q := W.Seek(W.Start(), 0xFFFF);
    assert q == W.State("", 0xFFFF, false, [], 0);
    W.PutFits(q, [1], DEFAULT_OUTPUT_LINE_LENGTH);
    var p := q.(rest := [1]);
    assert q.rest + [1] == [1];
    assert W.PutAll(q, [1], DEFAULT_OUTPUT_LINE_LENGTH) == p;
    assert !W.Seek(p, SIXTEEN_BITS).overflow && W.Seek(p, SIXTEEN_BITS).announced == 0;
    assert !Announced(p, [second], DEFAULT_OUTPUT_LINE_LENGTH);
    assert !Announced(W.Start(), regions, DEFAULT_OUTPUT_LINE_LENGTH);
    RoundTripExactly(regions, DEFAULT_OUTPUT_LINE_LENGTH);
  }

  /** One start address followed by contiguous bytes always comes back, with no checksum error, whether or not the
      first announcement is forced. */
  lemma RoundTripOne(address: nat, bytes: seq<byte>, lineLength: nat, forced: bool)
    requires 0 < lineLength <= LINE_MAX_LENGTH && Region(address, bytes).Fits()
    ensures var q := W.Seek(W.Start(), address);
      var text := W.Finish(W.PutAll(if forced then q.(overflow := true) else q, bytes, lineLength));
      Memory(text) == Placed(address, bytes) && Intact(Reading(text).events) && Reading(text).AtRest()
  {
    hide Memory, Followed, W.Finish, W.PutAll, Intact, Reading;
    StartTracks();
    SeekTracks(W.Start(), address, []);
    var q := W.Seek(W.Start(), address);
    var q1 := if forced then q.(overflow := true) else q;
    FollowedFlag(q);
    FollowedFacts(q1);
    assert Target(q1) == q1.address;
    assert Tracks(q1, []);
    PutAllTracks(q1, bytes, lineLength, []);
    assert [] + Placed(address, bytes) == Placed(address, bytes);
    FinishTracks(W.PutAll(q1, bytes, lineLength), Placed(address, bytes));
  }
}
