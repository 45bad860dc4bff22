/** Reading back what the writer wrote: entry after entry from the front, and by the central directory. */
module ZipRoundTrip {
  import opened Common
  import Crc32
  import opened Zip

  /** `x` stands in `b` at `pos`. */
  predicate At(b: Bytes, pos: nat, x: Bytes) {
    pos + |x| <= |b| && b[pos..pos + |x|] == x
  }

  lemma AtParts(b: Bytes, pos: nat, x: Bytes, y: Bytes)
    requires At(b, pos, x + y)
    ensures At(b, pos, x) && At(b, pos + |x|, y)
  {
    var whole := b[pos..pos + |x + y|];
    assert x == whole[..|x|] == b[pos..pos + |x|];
    assert y == whole[|x|..] == b[pos + |x|..pos + |x| + |y|];
  }

  /** The fields of a record are read the same way in the record and in the buffer around it. */
  lemma ReadInside(b: Bytes, pos: nat, x: Bytes)
    requires At(b, pos, x)
    ensures forall k: nat {:trigger Read16(x, k)} :: k + 2 <= |x| ==> Read16(b, pos + k) == Read16(x, k)
    ensures forall k: nat {:trigger Read32(x, k)} :: k + 4 <= |x| ==> Read32(b, pos + k) == Read32(x, k)
  {
    var part := b[pos..pos + |x|];
    assert forall i :: 0 <= i < |x| ==> part[i] == b[pos + i];
  }

  // ----- fields -----

  lemma OctetsOf16(n: nat)
    requires Fits16(n)
    ensures Le(n, 0) as nat + 256 * Le(n, 1) as nat == n
  {
  }

  lemma OctetsOf32(n: nat)
    requires Fits32(n)
    ensures Le(n, 0) as nat + 256 * Le(n, 1) as nat + 65536 * Le(n, 2) as nat + 16777216 * Le(n, 3) as nat == n
  {
    var high := n / 65536;
    assert n == 65536 * high + n % 65536;
    assert n / 16777216 == high / 256;
  }

  lemma FieldAt16(x: Bytes, k: nat, n: nat)
    requires k + 2 <= |x| && Fits16(n) && x[k] == Le(n, 0) && x[k + 1] == Le(n, 1)
    ensures Read16(x, k) == n
  {
    hide Le;
    OctetsOf16(n);
  }

  lemma FieldAt32(x: Bytes, k: nat, n: nat)
    requires k + 4 <= |x| && Fits32(n)
    requires x[k] == Le(n, 0) && x[k + 1] == Le(n, 1) && x[k + 2] == Le(n, 2) && x[k + 3] == Le(n, 3)
    ensures Read32(x, k) == n
  {
    hide Le;
    OctetsOf32(n);
  }

  /** The check value is a 32-bit number. */
  lemma CheckFits(data: Bytes)
    ensures Fits32(CheckValue(data))
  {
    assert Crc32.Power(32) == 0x1_0000_0000 by { PowerOf32(); }
  }

  lemma PowerOf32()
    ensures Crc32.Power(32) == 0x1_0000_0000
  {
    assert Crc32.Power(8) == 256;
    assert Crc32.Power(16) == 65536;
    assert Crc32.Power(24) == 16777216;
  }

  /** What the reader takes from a local header. */
  lemma LocalFields(e: Entry)
    requires Fits32(|e.data|) && Fits16(|e.name|)
    ensures var h := LocalHeader(e);
            Read32(h, 0) == LOCAL_SIGNATURE && Read16(h, 8) == 0 && Read32(h, 18) == |e.data| &&
            Read16(h, 26) == |e.name| && Read16(h, 28) == 0
  {
    hide Le, CheckValue, Read16, Read32;
    var h := LocalHeader(e);
    FieldAt32(h, 0, LOCAL_SIGNATURE);
    FieldAt16(h, 8, 0);
    FieldAt32(h, 18, |e.data|);
    FieldAt16(h, 26, |e.name|);
    FieldAt16(h, 28, 0);
  }

  /** What else is in it. */
  lemma LocalRest(e: Entry)
    requires Fits32(|e.data|)
    ensures var h := LocalHeader(e);
            Read16(h, 4) == 20 && Read16(h, 6) == 0x0800 && Read16(h, 10) == 0 && Read16(h, 12) == 33 &&
            Read32(h, 14) == CheckValue(e.data) && Read32(h, 22) == |e.data|
  {
    hide Le, CheckValue, Read16, Read32;
    var h := LocalHeader(e);
    CheckFits(e.data);
    FieldAt16(h, 4, 20);
    FieldAt16(h, 6, 0x0800);
    FieldAt16(h, 10, 0);
    FieldAt16(h, 12, 33);
    FieldAt32(h, 14, CheckValue(e.data));
    FieldAt32(h, 22, |e.data|);
  }

  lemma CentralFront(e: Entry, offset: nat)
    ensures var h := CentralHeader(e, offset);
            Read32(h, 0) == CENTRAL_SIGNATURE && Read16(h, 6) == 20 && Read16(h, 8) == 0x0800
  {
    hide Le, CheckValue, Read16, Read32;
    var h := CentralHeader(e, offset);
    FieldAt32(h, 0, CENTRAL_SIGNATURE);
    FieldAt16(h, 6, 20);
    FieldAt16(h, 8, 0x0800);
  }

  lemma CentralTimes(e: Entry, offset: nat)
    ensures var h := CentralHeader(e, offset);
            Read16(h, 10) == 0 && Read16(h, 12) == 0 && Read16(h, 14) == 33
  {
    hide Le, CheckValue, Read16, Read32;
    var h := CentralHeader(e, offset);
    FieldAt16(h, 10, 0);
    FieldAt16(h, 12, 0);
    FieldAt16(h, 14, 33);
  }

  lemma CentralMiddle(e: Entry, offset: nat)
    requires Fits32(|e.data|)
    ensures var h := CentralHeader(e, offset);
            Read32(h, 16) == CheckValue(e.data) && Read32(h, 20) == |e.data| && Read32(h, 24) == |e.data|
  {
    hide Le, CheckValue, Read16, Read32;
    var h := CentralHeader(e, offset);
    CheckFits(e.data);
    FieldAt32(h, 16, CheckValue(e.data));
    FieldAt32(h, 20, |e.data|);
    FieldAt32(h, 24, |e.data|);
  }

  lemma CentralBack(e: Entry, offset: nat)
    requires Fits16(|e.name|) && Fits32(offset)
    ensures var h := CentralHeader(e, offset);
            Read16(h, 28) == |e.name| && Read16(h, 30) == 0 && Read16(h, 32) == 0 && Read16(h, 34) == 0 &&
            Read32(h, 42) == offset
  {
    hide Le, CheckValue, Read16, Read32;
    var h := CentralHeader(e, offset);
    FieldAt16(h, 28, |e.name|);
    FieldAt16(h, 30, 0);
    FieldAt16(h, 32, 0);
    FieldAt16(h, 34, 0);
    FieldAt32(h, 42, offset);
  }

  lemma EndFields(count: nat, size: nat, offset: nat)
    requires Fits16(count) && Fits32(size) && Fits32(offset)
    ensures var h := EndRecord(count, size, offset);
            Read32(h, 0) == END_SIGNATURE && Read16(h, 4) == 0 && Read16(h, 6) == 0 && Read16(h, 8) == count &&
            Read16(h, 10) == count && Read32(h, 12) == size && Read32(h, 16) == offset && Read16(h, 20) == 0
  {
    hide Le, Read16, Read32;
    var h := EndRecord(count, size, offset);
    FieldAt32(h, 0, END_SIGNATURE);
    FieldAt16(h, 4, 0);
    FieldAt16(h, 6, 0);
    FieldAt16(h, 8, count);
    FieldAt16(h, 10, count);
    FieldAt32(h, 12, size);
    FieldAt32(h, 16, offset);
    FieldAt16(h, 20, 0);
  }

  // ----- reading from the front -----

  /** The entries a reader ends up with; of two with one name, the later. */
  function Store(es: seq<Entry>, found: Entries): Entries {
    if es == [] then found else Store(es[1..], found[es[0].name := Stored(es[0].data)])
  }

  lemma LocalIsRead(b: Bytes, pos: nat, e: Entry)
    requires At(b, pos, Local(e)) && Fits32(|e.data|) && Fits16(|e.name|)
    ensures AtLocal(b, pos)
    ensures ReadLocal(b, pos) == LocalRecord(0, e.name, e.data, pos + |Local(e)|)
    ensures Read16(b, pos + 26) == |e.name| && Read16(b, pos + 28) == 0
    ensures At(b, pos + 30 + |e.name|, e.data)
  {
    hide LocalHeader, Read16, Read32;
    var h := LocalHeader(e);
    LocalFields(e);
    AtParts(b, pos, h + e.name, e.data);
    AtParts(b, pos, h, e.name);
    ReadInside(b, pos, h);
  }

  lemma {:induction false} LocalsAreRead(b: Bytes, pos: nat, es: seq<Entry>, found: Entries)
    requires At(b, pos, Locals(es)) && EntriesFit(es, pos)
    requires !AtLocal(b, pos + |Locals(es)|)
    ensures ReadFrom(b, pos, found) == Ok(Store(es, found))
    decreases |es|
  {
    hide AtLocal, ReadLocal, Local, At;
    if es != [] {
      var e := es[0];
      AtParts(b, pos, Local(e), Locals(es[1..]));
      LocalIsRead(b, pos, e);
      LocalsAreRead(b, pos + |Local(e)|, es[1..], found[e.name := Stored(e.data)]);
    }
  }

  /** After the last entry comes a central header or the end record, whose signature stops the reader. */
  lemma ReaderStops(b: Bytes, es: seq<Entry>)
    requires Fits(es) && b == Archive(es)
    ensures !AtLocal(b, |Locals(es)|)
  {
    hide Locals, EndRecord, CentralHeader, Read32, Read16, Archive;
    var pos := |Locals(es)|;
    ArchiveParts(es);
    if es == [] {
      EndFields(|es|, |Central(es, 0)|, |Locals(es)|);
      ReadInside(b, pos, EndRecord(|es|, |Central(es, 0)|, |Locals(es)|));
    } else {
      CentralFront(es[0], 0);
      AtParts(b, pos, CentralHeader(es[0], 0) + es[0].name, Central(es[1..], |Local(es[0])|));
      AtParts(b, pos, CentralHeader(es[0], 0), es[0].name);
      ReadInside(b, pos, CentralHeader(es[0], 0));
    }
  }

  lemma ArchiveParts(es: seq<Entry>)
    ensures var b, size, start := Archive(es), |Central(es, 0)|, |Locals(es)|;
            |b| == start + size + 22 && At(b, 0, Locals(es)) && At(b, start, Central(es, 0)) &&
            At(b, start + size, EndRecord(|es|, size, start))
  {
    hide Locals, Central, EndRecord;
    var b, end := Archive(es), EndRecord(|es|, |Central(es, 0)|, |Locals(es)|);
    assert b[0..|b|] == b;
    AtParts(b, 0, Locals(es) + Central(es, 0), end);
    AtParts(b, 0, Locals(es), Central(es, 0));
  }

  /** The reader gives back every entry that was written, and stops at the end of the last. */
  lemma ReadAfterWrite(es: seq<Entry>)
    requires Fits(es)
    ensures ReadFrom(Archive(es), 0, map[]) == Ok(Store(es, map[]))
  {
    hide Archive, Locals, Central, EntriesFit, AtLocal, At;
    ArchiveParts(es);
    ReaderStops(Archive(es), es);
    LocalsAreRead(Archive(es), 0, es, map[]);
  }

  ghost predicate DistinctNames(es: seq<Entry>) {
    forall i, j :: 0 <= i < j < |es| ==> es[i].name != es[j].name
  }

  lemma {:induction false} StoredExactly(es: seq<Entry>, found: Entries)
    requires DistinctNames(es) && forall i :: 0 <= i < |es| ==> es[i].name !in found
    ensures forall i :: 0 <= i < |es| ==> es[i].name in Store(es, found)
    ensures forall i :: 0 <= i < |es| ==> Store(es, found)[es[i].name] == Stored(es[i].data)
    ensures forall n :: n in found ==> n in Store(es, found) && Store(es, found)[n] == found[n]
    ensures |Store(es, found)| == |found| + |es|
    decreases |es|
  {
    if es != [] {
      var more := found[es[0].name := Stored(es[0].data)];
      assert more.Keys == found.Keys + {es[0].name};
      assert forall i :: 0 <= i < |es[1..]| ==> es[1..][i] == es[i + 1];
      StoredExactly(es[1..], more);
      forall i | 0 <= i < |es|
        ensures es[i].name in Store(es, found) && Store(es, found)[es[i].name] == Stored(es[i].data)
      {
        if i > 0 {
          assert es[i] == es[1..][i - 1];
        } else {
          assert es[0].name in more && more[es[0].name] == Stored(es[0].data);
        }
      }
    }
  }

  /** With distinct names, exactly the written names come back, each with its own octets. */
  lemma RoundTrip(es: seq<Entry>)
    requires Fits(es) && DistinctNames(es)
    ensures ReadFrom(Archive(es), 0, map[]).Ok?
    ensures var m := ReadFrom(Archive(es), 0, map[]).value;
            |m| == |es| && forall i :: 0 <= i < |es| ==> es[i].name in m && m[es[i].name] == Stored(es[i].data)
  {
    hide Archive, ReadFrom, Store, Fits;
    ReadAfterWrite(es);
    StoredExactly(es, map[]);
  }

  // ----- reading by the central directory -----

  /** What the central directory should say of each entry. */
  function Listing(es: seq<Entry>): seq<Listed> {
    if es == [] then [] else [Listed(es[0].name, CheckValue(es[0].data), es[0].data)] + Listing(es[1..])
  }

  /** A central record and its local header, wherever they stand. */
  lemma HeadersAgree(b: Bytes, pos: nat, e: Entry, offset: nat)
    requires At(b, pos, CentralHeader(e, offset)) && At(b, offset, LocalHeader(e))
    requires Fits32(|e.data|) && Fits16(|e.name|) && Fits32(offset)
    ensures Read32(b, pos) == CENTRAL_SIGNATURE && IsPlainRecord(b, pos) && Repeats(b, pos, offset)
    ensures Read32(b, pos + 16) == CheckValue(e.data) && Read32(b, pos + 20) == |e.data| && Read16(b, pos + 28) == |e.name|
    ensures Read16(b, pos + 30) == 0 && Read16(b, pos + 32) == 0 && Read32(b, pos + 42) == offset
  {
    hide CentralHeader, LocalHeader, Read16, Read32, CheckValue, At;
    assert pos + 46 <= |b| && offset + 30 <= |b| by { AtIsInside(b, pos, CentralHeader(e, offset)); AtIsInside(b, offset, LocalHeader(e)); }
    CentralFront(e, offset);
    CentralTimes(e, offset);
    CentralMiddle(e, offset);
    CentralBack(e, offset);
    LocalFields(e);
    LocalRest(e);
    ReadInside(b, pos, CentralHeader(e, offset));
    ReadInside(b, offset, LocalHeader(e));
  }

  lemma AtIsInside(b: Bytes, pos: nat, x: Bytes)
    requires At(b, pos, x)
    ensures pos + |x| <= |b|
  {
  }

  lemma CentralIsRead(b: Bytes, pos: nat, e: Entry, offset: nat)
    requires At(b, pos, CentralHeader(e, offset) + e.name) && At(b, offset, Local(e))
    requires Fits32(|e.data|) && Fits16(|e.name|) && Fits32(offset)
    ensures ReadCentral(b, pos) == Some((Listed(e.name, CheckValue(e.data), e.data), pos + 46 + |e.name|))
  {
    hide CentralHeader, LocalHeader, Read16, Read32, AtLocal, ReadLocal, CheckValue, IsPlainRecord, Repeats;
    AtParts(b, pos, CentralHeader(e, offset), e.name);
    LocalIsRead(b, offset, e);
    AtParts(b, offset, LocalHeader(e) + e.name, e.data);
    AtParts(b, offset, LocalHeader(e), e.name);
    hide Local;
    HeadersAgree(b, pos, e, offset);
  }

  lemma {:induction false} RecordsAreRead(b: Bytes, pos: nat, es: seq<Entry>, offset: nat)
    requires At(b, pos, Central(es, offset)) && At(b, offset, Locals(es)) && EntriesFit(es, offset)
    ensures ReadRecords(b, pos, |es|) == Some((Listing(es), pos + |Central(es, offset)|))
    decreases |es|
  {
    hide CentralHeader, Local, At, ReadCentral, CheckValue;
    if es != [] {
      var e := es[0];
      AtParts(b, offset, Local(e), Locals(es[1..]));
      AtParts(b, pos, CentralHeader(e, offset) + e.name, Central(es[1..], offset + |Local(e)|));
      CentralIsRead(b, pos, e, offset);
      RecordsAreRead(b, pos + 46 + |e.name|, es[1..], offset + |Local(e)|);
    }
  }

  /**
   * The end record's count, size and offset are exact, every central record points at its own local header,
   * and the check values are those of the data: a reader that relies on all of them finds every entry.
   */
  lemma DirectoryIsExact(es: seq<Entry>)
    requires Fits(es)
    ensures ReadDirectory(Archive(es)) == Some(Listing(es))
  {
    hide Archive, Locals, Central, EndRecord, EntriesFit, At, Read16, Read32, ReadRecords, Listing;
    var b, size, start := Archive(es), |Central(es, 0)|, |Locals(es)|;
    ArchiveParts(es);
    EndFields(|es|, size, start);
    ReadInside(b, start + size, EndRecord(|es|, size, start));
    RecordsAreRead(b, start, es, 0);
  }
}
