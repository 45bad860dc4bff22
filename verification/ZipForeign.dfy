/** What the reader makes of archives that other programs wrote: any methods, flags, times and extra fields. */
module ZipForeign {
  import opened Common
  import opened Zip
  import opened ZipRoundTrip

  /** A local file of section 4.3.7: what its header says beside the lengths, and its three variable parts. */
  datatype Record = Record(version: nat, flags: nat, compression: nat, time: nat, date: nat, check: nat, size: nat,
                           name: Bytes, extra: Bytes, data: Bytes)

  predicate FitsRecord(r: Record) {
    && Fits16(r.version) && Fits16(r.flags) && Fits16(r.compression) && Fits16(r.time) && Fits16(r.date) && Fits32(r.check)
    && Fits32(r.size) && Fits16(|r.name|) && Fits16(|r.extra|) && Fits32(|r.data|)
  }

  function HeaderOf(r: Record): (h: Bytes)
    ensures |h| == 30
  {
    U32(0x04034b50) + U16(r.version) + U16(r.flags) + U16(r.compression) + U16(r.time) + U16(r.date) + U32(r.check)
    + U32(|r.data|) + U32(r.size) + U16(|r.name|) + U16(|r.extra|)
  }

  function Octets(r: Record): Bytes {
    HeaderOf(r) + r.name + r.extra + r.data
  }

  function AllOctets(rs: seq<Record>): Bytes {
    if rs == [] then [] else Octets(rs[0]) + AllOctets(rs[1..])
  }

  lemma HeaderFields(r: Record)
    requires FitsRecord(r)
    ensures var h := HeaderOf(r);
            Read32(h, 0) == 0x04034b50 && Read16(h, 8) == r.compression && Read32(h, 18) == |r.data| &&
            Read16(h, 26) == |r.name| && Read16(h, 28) == |r.extra|
  {
    hide Le, Read16, Read32;
    var h := HeaderOf(r);
    FieldAt32(h, 0, 0x04034b50);
    FieldAt16(h, 8, r.compression);
    FieldAt32(h, 18, |r.data|);
    FieldAt16(h, 26, |r.name|);
    FieldAt16(h, 28, |r.extra|);
  }

  lemma RecordIsRead(b: Bytes, pos: nat, r: Record)
    requires At(b, pos, Octets(r)) && FitsRecord(r)
    ensures AtLocal(b, pos) && ReadLocal(b, pos) == LocalRecord(r.compression, r.name, r.data, pos + |Octets(r)|)
  {
    hide HeaderOf, Read16, Read32;
    var h := HeaderOf(r);
    HeaderFields(r);
    AtParts(b, pos, h + r.name + r.extra, r.data);
    AtParts(b, pos, h + r.name, r.extra);
    AtParts(b, pos, h, r.name);
    ReadInside(b, pos, h);
  }

  /** What a name holds after the records: the octets of the last one with that name, inflated or still to be. */
  function Held(rs: seq<Record>, name: Bytes): Option<Content> {
    if rs == [] then None
    else
      var r := rs[|rs| - 1];
      if r.name != name then Held(rs[..|rs| - 1], name)
      else Some(if r.compression == 0 then Stored(r.data) else Deflated(r.data))
  }

  function Find(found: Entries, name: Bytes): Option<Content> {
    if name in found then Some(found[name]) else None
  }

  /** With a first record in front. */
  lemma {:induction false} HeldAfter(r: Record, rs: seq<Record>, name: Bytes)
    ensures Held([r] + rs, name) == if Held(rs, name).Some? then Held(rs, name) else Held([r], name)
    decreases |rs|
  {
    if rs == [] {
      assert [r] + rs == [r];
    } else {
      assert ([r] + rs)[..|rs|] == [r] + rs[..|rs| - 1];
      HeldAfter(r, rs[..|rs| - 1], name);
    }
  }

  lemma {:induction false} RecordsAreTaken(b: Bytes, pos: nat, rs: seq<Record>, found: Entries)
    requires At(b, pos, AllOctets(rs)) && !AtLocal(b, pos + |AllOctets(rs)|)
    requires forall r :: r in rs ==> FitsRecord(r) && r.compression in {0, 8}
    ensures var read := ReadFrom(b, pos, found);
            read.Ok? && forall name :: Find(read.value, name) ==
                          if Held(rs, name).Some? then Held(rs, name) else Find(found, name)
    decreases |rs|
  {
    hide AtLocal, ReadLocal, Octets, At, FitsRecord, Held;
    if rs == [] {
      forall name ensures Held(rs, name) == None { NothingHeld(name); }
    } else {
      var r, rest := rs[0], rs[1..];
      assert rs == [r] + rest;
      AtParts(b, pos, Octets(r), AllOctets(rest));
      RecordIsRead(b, pos, r);
      var content := if r.compression == 0 then Stored(r.data) else Deflated(r.data);
      RecordsAreTaken(b, pos + |Octets(r)|, rest, found[r.name := content]);
      forall name ensures Held(rs, name) == if Held(rest, name).Some? then Held(rest, name) else Held([r], name) {
        HeldAfter(r, rest, name);
      }
      forall name ensures Held([r], name) == if r.name == name then Some(content) else None { OneHeld(r, name); }
    }
  }

  lemma NothingHeld(name: Bytes)
    ensures Held([], name) == None
  {
  }

  lemma OneHeld(r: Record, name: Bytes)
    ensures Held([r], name) ==
            if r.name == name then Some(if r.compression == 0 then Stored(r.data) else Deflated(r.data)) else None
  {
    assert [r][..0] == [];
  }

  /**
   * From any archive whose files are stored or deflated the reader takes exactly their names and octets, the last of
   * those with one name; version, flags, times, check values, uncompressed sizes and extra fields do not matter.
   */
  lemma ForeignIsRead(rs: seq<Record>, tail: Bytes)
    requires forall r :: r in rs ==> FitsRecord(r) && r.compression in {0, 8}
    requires !AtLocal(AllOctets(rs) + tail, |AllOctets(rs)|)
    ensures var read := ReadFrom(AllOctets(rs) + tail, 0, map[]);
            read.Ok? && forall name :: Find(read.value, name) == Held(rs, name)
  {
    hide AtLocal, FitsRecord, Held, AllOctets;
    var b := AllOctets(rs) + tail;
    assert b[0..|AllOctets(rs)|] == AllOctets(rs);
    RecordsAreTaken(b, 0, rs, map[]);
  }

  lemma {:induction false} BadMethodStopsAt(b: Bytes, pos: nat, rs: seq<Record>, bad: Record, found: Entries)
    requires At(b, pos, AllOctets(rs) + Octets(bad)) && FitsRecord(bad) && bad.compression !in {0, 8}
    requires forall r :: r in rs ==> FitsRecord(r) && r.compression in {0, 8}
    ensures ReadFrom(b, pos, found) == Err(bad.compression)
    decreases |rs|
  {
    hide AtLocal, ReadLocal, Octets, At, FitsRecord;
    if rs == [] {
      assert AllOctets(rs) + Octets(bad) == Octets(bad);
      RecordIsRead(b, pos, bad);
    } else {
      var r, rest := rs[0], rs[1..];
      assert AllOctets(rs) + Octets(bad) == Octets(r) + (AllOctets(rest) + Octets(bad));
      AtParts(b, pos, Octets(r), AllOctets(rest) + Octets(bad));
      RecordIsRead(b, pos, r);
      BadMethodStopsAt(b, pos + |Octets(r)|, rest, bad,
                       found[r.name := if r.compression == 0 then Stored(r.data) else Deflated(r.data)]);
    }
  }

  /** The first file with another method stops the reader with that method, whatever follows. */
  lemma BadMethodStops(rs: seq<Record>, bad: Record, tail: Bytes)
    requires forall r :: r in rs ==> FitsRecord(r) && r.compression in {0, 8}
    requires FitsRecord(bad) && bad.compression !in {0, 8}
    ensures ReadFrom(AllOctets(rs) + Octets(bad) + tail, 0, map[]) == Err(bad.compression)
  {
    hide AllOctets, Octets, FitsRecord;
    var b := AllOctets(rs) + Octets(bad) + tail;
    assert b[0..|AllOctets(rs) + Octets(bad)|] == AllOctets(rs) + Octets(bad);
    BadMethodStopsAt(b, 0, rs, bad, map[]);
  }
}
