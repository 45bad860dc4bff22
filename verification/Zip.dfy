/**
 * The ZIP writer and reader of the XLSX fixtures: stored entries, PKWARE APPNOTE.TXT sections 4.3.7 (local
 * header), 4.3.12 (central directory header) and 4.3.16 (end record). Names are their octets.
 */
module Zip {
  import opened Common
  import Crc32

  datatype Entry = Entry(name: Bytes, data: Bytes)

  const LOCAL_SIGNATURE := 0x04034b50
  const CENTRAL_SIGNATURE := 0x02014b50
  const END_SIGNATURE := 0x06054b50

  /** Octet `k` of a number, lowest first. */
  function Le(n: nat, k: nat): byte
    requires k < 4
  {
    if k == 0 then (n % 256) as byte
    else if k == 1 then (n / 256 % 256) as byte
    else if k == 2 then (n / 65536 % 256) as byte
    else (n / 16777216 % 256) as byte
  }

  function U16(n: nat): Bytes {
    [Le(n, 0), Le(n, 1)]
  }

  function U32(n: nat): Bytes {
    [Le(n, 0), Le(n, 1), Le(n, 2), Le(n, 3)]
  }

  function Read16(b: Bytes, pos: nat): nat
    requires pos + 2 <= |b|
  {
    b[pos] as nat + 256 * b[pos + 1] as nat
  }

  function Read32(b: Bytes, pos: nat): nat
    requires pos + 4 <= |b|
  {
    b[pos] as nat + 256 * b[pos + 1] as nat + 65536 * b[pos + 2] as nat + 16777216 * b[pos + 3] as nat
  }

  predicate Fits16(n: nat) {
    n < 0x1_0000
  }

  predicate Fits32(n: nat) {
    n < 0x1_0000_0000
  }

  /** The check value as the number that is stored. */
  function CheckValue(data: Bytes): nat {
    Crc32.NumberOf(Crc32.Crc(data))
  }

  // ----- the writer -----

  function LocalHeader(e: Entry): (h: Bytes)
    ensures |h| == 30
  {
    U32(LOCAL_SIGNATURE) + U16(20) + U16(0x0800) + U16(0) + U16(0) + U16(33) + U32(CheckValue(e.data))
    + U32(|e.data|) + U32(|e.data|) + U16(|e.name|) + U16(0)
  }

  function CentralHeader(e: Entry, offset: nat): (h: Bytes)
    ensures |h| == 46
  {
    U32(CENTRAL_SIGNATURE) + U16(20) + U16(20) + U16(0x0800) + U16(0) + U16(0) + U16(33) + U32(CheckValue(e.data))
    + U32(|e.data|) + U32(|e.data|) + U16(|e.name|) + U16(0) + U16(0) + U16(0) + U16(0) + U32(0) + U32(offset)
  }

  function EndRecord(count: nat, size: nat, offset: nat): (h: Bytes)
    ensures |h| == 22
  {
    U32(END_SIGNATURE) + U16(0) + U16(0) + U16(count) + U16(count) + U32(size) + U32(offset) + U16(0)
  }

  function Local(e: Entry): Bytes {
    LocalHeader(e) + e.name + e.data
  }

  function Locals(es: seq<Entry>): Bytes {
    if es == [] then [] else Local(es[0]) + Locals(es[1..])
  }

  /** The central directory of entries whose local headers start at `offset`. */
  function Central(es: seq<Entry>, offset: nat): Bytes {
    if es == [] then []
    else CentralHeader(es[0], offset) + es[0].name + Central(es[1..], offset + |Local(es[0])|)
  }

  function Archive(es: seq<Entry>): Bytes {
    Locals(es) + Central(es, 0) + EndRecord(|es|, |Central(es, 0)|, |Locals(es)|)
  }

  /** What `writeUInt16LE` and `writeUInt32LE` accept without a range error, entry by entry. */
  predicate EntriesFit(es: seq<Entry>, offset: nat) {
    es == [] ||
    (Fits32(|es[0].data|) && Fits16(|es[0].name|) && Fits32(offset) && EntriesFit(es[1..], offset + |Local(es[0])|))
  }

  predicate Fits(es: seq<Entry>) {
    EntriesFit(es, 0) && Fits16(|es|) && Fits32(|Central(es, 0)|) && Fits32(|Locals(es)|)
  }

  /** One entry further on: what is left to write, and whether it fits. */
  lemma WriteStep(es: seq<Entry>, offset: nat)
    requires es != []
    ensures Locals(es) == LocalHeader(es[0]) + es[0].name + es[0].data + Locals(es[1..])
    ensures Central(es, offset) ==
            CentralHeader(es[0], offset) + es[0].name + Central(es[1..], offset + 30 + |es[0].name| + |es[0].data|)
    ensures EntriesFit(es, offset) <==>
            Fits32(|es[0].data|) && Fits16(|es[0].name|) && Fits32(offset) &&
            EntriesFit(es[1..], offset + 30 + |es[0].name| + |es[0].data|)
  {
    hide LocalHeader, CentralHeader, Fits16, Fits32;
  }

  lemma Regroup(done: Bytes, a: Bytes, b: Bytes, rest: Bytes)
    ensures done + (a + b + rest) == (done + a + b) + rest
  {
  }

  lemma Regroup3(done: Bytes, a: Bytes, b: Bytes, c: Bytes, rest: Bytes)
    ensures done + (a + b + c + rest) == (done + (a + b + c)) + rest
  {
  }

  /** The writer; a value too wide for its field is a range error. */
  method Write(es: seq<Entry>) returns (archive: Option<Bytes>)
    ensures archive == if Fits(es) then Some(Archive(es)) else None
  {
    hide LocalHeader, CentralHeader, EndRecord, Locals, Central, EntriesFit, Fits16, Fits32;
    var localParts: Bytes, centralParts: Bytes, offset := [], [], 0;
    var i := 0;
    assert es[0..] == es;
    while i < |es|
      invariant 0 <= i <= |es|
      invariant offset == |localParts|
      invariant Locals(es) == localParts + Locals(es[i..])
      invariant Central(es, 0) == centralParts + Central(es[i..], offset)
      invariant EntriesFit(es, 0) <==> EntriesFit(es[i..], offset)
    {
      var e := es[i];
      WriteStep(es[i..], offset);
      assert es[i..][0] == e && es[i..][1..] == es[i + 1..];
      if !Fits32(|e.data|) || !Fits16(|e.name|) || !Fits32(offset) { return None; }
      var next := offset + 30 + |e.name| + |e.data|;
      Regroup3(localParts, LocalHeader(e), e.name, e.data, Locals(es[i + 1..]));
      Regroup(centralParts, CentralHeader(e, offset), e.name, Central(es[i + 1..], next));
      localParts := localParts + (LocalHeader(e) + e.name + e.data);
      centralParts := centralParts + CentralHeader(e, offset) + e.name;
      offset := next;
      i := i + 1;
    }
    assert es[i..] == [];
    NothingLeft(offset);
    assert Locals(es) == localParts && Central(es, 0) == centralParts;
    if !Fits16(|es|) || !Fits32(|centralParts|) || !Fits32(offset) { return None; }
    archive := Some(localParts + centralParts + EndRecord(|es|, |centralParts|, offset));
  }

  lemma NothingLeft(offset: nat)
    ensures Locals([]) == [] && Central([], offset) == [] && EntriesFit([], offset)
  {
  }

  // ----- the reader -----

  /** A stored entry, or one whose compressed octets still have to be inflated. */
  datatype Content = Stored(data: Bytes) | Deflated(compressed: Bytes)

  type Entries = map<Bytes, Content>

  /** `subarray`: bounds beyond the end mean the end. */
  function Slice(b: Bytes, from: nat, to: nat): Bytes
    requires from <= to
  {
    b[Min(from, |b|)..Min(to, |b|)]
  }

  datatype LocalRecord = LocalRecord(compression: nat, name: Bytes, content: Bytes, next: nat)

  predicate AtLocal(b: Bytes, offset: nat) {
    offset + 30 <= |b| && Read32(b, offset) == LOCAL_SIGNATURE
  }

  function ReadLocal(b: Bytes, offset: nat): (r: LocalRecord)
    requires offset + 30 <= |b|
    ensures r.next >= offset + 30
  {
    var nameStart := offset + 30;
    var dataStart := nameStart + Read16(b, offset + 26) + Read16(b, offset + 28);
    var dataEnd := dataStart + Read32(b, offset + 18);
    LocalRecord(Read16(b, offset + 8), Slice(b, nameStart, nameStart + Read16(b, offset + 26)),
                Slice(b, dataStart, dataEnd), dataEnd)
  }

  /** What reading on from an offset makes of the entries found so far; the error is the unknown method. */
  function ReadFrom(b: Bytes, offset: nat, found: Entries): Result<Entries, nat>
    decreases |b| - offset
  {
    if !AtLocal(b, offset) then Ok(found)
    else
      var r := ReadLocal(b, offset);
      if r.compression == 0 then ReadFrom(b, r.next, found[r.name := Stored(r.content)])
      else if r.compression == 8 then ReadFrom(b, r.next, found[r.name := Deflated(r.content)])
      else Err(r.compression)
  }

  /** The reader's loop, on any buffer whatsoever. */
  method Read(b: Bytes) returns (r: Result<Entries, nat>)
    ensures r == ReadFrom(b, 0, map[])
  {
    var entries: Entries := map[];
    var offset := 0;
    while AtLocal(b, offset)
      invariant ReadFrom(b, 0, map[]) == ReadFrom(b, offset, entries)
      decreases |b| - offset
    {
      var record := ReadLocal(b, offset);
      if record.compression == 0 {
        entries := entries[record.name := Stored(record.content)];
      } else if record.compression == 8 {
        entries := entries[record.name := Deflated(record.content)];
      } else {
        return Err(record.compression);
      }
      offset := record.next;
    }
    r := Ok(entries);
  }

  // ----- a reader that goes by the central directory -----

  datatype Listed = Listed(name: Bytes, check: nat, data: Bytes)

  /** Section 4.3.12: a central record repeats its local header field by field. */
  predicate Repeats(b: Bytes, pos: nat, local: nat)
    requires pos + 46 <= |b| && local + 30 <= |b|
  {
    Read16(b, pos + 6) == Read16(b, local + 4) && Read16(b, pos + 8) == Read16(b, local + 6) &&
    Read16(b, pos + 10) == Read16(b, local + 8) && Read16(b, pos + 12) == Read16(b, local + 10) &&
    Read16(b, pos + 14) == Read16(b, local + 12) && Read32(b, pos + 16) == Read32(b, local + 14) &&
    Read32(b, pos + 20) == Read32(b, local + 18) && Read32(b, pos + 24) == Read32(b, local + 22) &&
    Read16(b, pos + 28) == Read16(b, local + 26)
  }

  /** A stored entry with a UTF-8 name, on the only disk. */
  predicate IsPlainRecord(b: Bytes, pos: nat)
    requires pos + 46 <= |b|
  {
    Read16(b, pos + 6) == 20 && Read16(b, pos + 8) == 0x0800 && Read16(b, pos + 10) == 0 &&
    Read32(b, pos + 20) == Read32(b, pos + 24) && Read16(b, pos + 34) == 0
  }

  /** One central record and the entry it points at. */
  function ReadCentral(b: Bytes, pos: nat): Option<(Listed, nat)> {
    if pos + 46 > |b| || Read32(b, pos) != CENTRAL_SIGNATURE || !IsPlainRecord(b, pos) then None
    else
      var nameEnd := pos + 46 + Read16(b, pos + 28);
      var next := nameEnd + Read16(b, pos + 30) + Read16(b, pos + 32);
      var local := Read32(b, pos + 42);
      if next > |b| || !AtLocal(b, local) || !Repeats(b, pos, local) then None
      else
        var start := local + 30 + Read16(b, local + 26) + Read16(b, local + 28);
        var end := start + Read32(b, pos + 20);
        if end > |b| || ReadLocal(b, local).name != b[pos + 46..nameEnd] then None
        else Some((Listed(b[pos + 46..nameEnd], Read32(b, pos + 16), b[start..end]), next))
  }

  function ReadRecords(b: Bytes, pos: nat, count: nat): Option<(seq<Listed>, nat)>
    decreases count
  {
    if count == 0 then Some(([], pos))
    else
      match ReadCentral(b, pos)
      case None => None
      case Some((listed, next)) =>
        match ReadRecords(b, next, count - 1)
        case None => None
        case Some((rest, end)) => Some(([listed] + rest, end))
  }

  /** Read an archive from its end record, as section 4.3 of APPNOTE.TXT lays it out (no comment). */
  function ReadDirectory(b: Bytes): Option<seq<Listed>> {
    if |b| < 22 || Read32(b, |b| - 22) != END_SIGNATURE then None
    else
      var end := |b| - 22;
      var count, size, start := Read16(b, end + 10), Read32(b, end + 12), Read32(b, end + 16);
      if Read16(b, end + 4) != 0 || Read16(b, end + 6) != 0 || Read16(b, end + 8) != count || start + size != end ||
         Read16(b, end + 20) != 0 then None
      else
        match ReadRecords(b, start, count)
        case Some((listed, next)) => if next == end then Some(listed) else None
        case None => None
  }
}
