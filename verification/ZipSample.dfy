/** The octets of an archive with one empty file named "a", as PKWARE APPNOTE.TXT lays them out. */
module ZipSample {
  import opened Common
  import opened Zip
  import Crc32

  const EMPTY_FILE := Entry([97], [])

  /** "PK" 3 4, version 2.0, names in UTF-8, stored, 1 January 1980, no check value and no octets, a name of one octet. */
  const LOCAL_HEADER: Bytes :=
    [0x50, 0x4B, 3, 4, 20, 0, 0, 8, 0, 0, 0, 0, 33, 0, 0] + [0, 0, 0, 0, 0, 0, 0, 0, 0, 0, 0, 1, 0, 0, 0]

  /** "PK" 1 2, made by and needed version 2.0, and the same again, nothing extra, at offset nought. */
  const CENTRAL_HEADER: Bytes :=
    [0x50, 0x4B, 1, 2, 20, 0, 20, 0, 0, 8, 0, 0, 0, 0, 33, 0] + [0, 0, 0, 0, 0, 0, 0, 0, 0, 0, 0, 0, 1, 0, 0] +
    [0, 0, 0, 0, 0, 0, 0, 0, 0, 0, 0, 0, 0, 0, 0]

  /** "PK" 5 6, one entry, 47 octets of directory from octet 31 on. */
  const END_RECORD: Bytes := [0x50, 0x4B, 5, 6, 0, 0, 0, 0, 1, 0, 1] + [0, 47, 0, 0, 0, 31, 0, 0, 0, 0, 0]

  lemma {:induction false} NumberOfZeros(b: Crc32.Bits)
    requires forall i :: 0 <= i < |b| ==> !b[i]
    ensures Crc32.NumberOf(b) == 0
    decreases |b|
  {
    if b != [] {
      NumberOfZeros(b[1..]);
    }
  }

  lemma NothingToCheck()
    ensures CheckValue([]) == 0
  {
    hide Crc32.BitsOf, Crc32.NumberOf;
    assert Crc32.MessageBits([]) == [];
    assert Crc32.Crc([]) == Crc32.Xor(Crc32.ONES, Crc32.ONES);
    NumberOfZeros(Crc32.Crc([]));
  }

  lemma Signatures()
    ensures U32(LOCAL_SIGNATURE) == [0x50, 0x4B, 3, 4] && U32(CENTRAL_SIGNATURE) == [0x50, 0x4B, 1, 2]
    ensures U32(END_SIGNATURE) == [0x50, 0x4B, 5, 6]
  {
  }

  lemma Small()
    ensures U16(0) == [0, 0] && U16(1) == [1, 0] && U16(20) == [20, 0] && U16(33) == [33, 0] && U16(0x0800) == [0, 8]
    ensures U32(0) == [0, 0, 0, 0] && U32(31) == [31, 0, 0, 0] && U32(47) == [47, 0, 0, 0]
  {
  }

  lemma SampleLocal()
    ensures LocalHeader(EMPTY_FILE) == LOCAL_HEADER
  {
    NothingToCheck();
    Signatures();
    Small();
    hide U16, U32, CheckValue;
  }

  lemma SampleCentral()
    ensures CentralHeader(EMPTY_FILE, 0) == CENTRAL_HEADER
  {
    NothingToCheck();
    Signatures();
    Small();
    hide U16, U32, CheckValue;
  }

  lemma SampleEnd()
    ensures EndRecord(1, 47, 31) == END_RECORD
  {
    Signatures();
    Small();
    hide U16, U32;
  }

  lemma SampleArchive()
    ensures Archive([EMPTY_FILE]) == LOCAL_HEADER + [97] + (CENTRAL_HEADER + [97]) + END_RECORD
  {
    SampleLocal();
    SampleCentral();
    SampleEnd();
    hide LocalHeader, CentralHeader, EndRecord, LOCAL_HEADER, CENTRAL_HEADER, END_RECORD;
    var es := [EMPTY_FILE];
    assert es[1..] == [];
    assert Locals(es) == Local(EMPTY_FILE) + [];
    assert Local(EMPTY_FILE) == LOCAL_HEADER + [97];
    assert Central(es, 0) == CENTRAL_HEADER + [97];
    assert |LOCAL_HEADER + [97]| == 31 && |CENTRAL_HEADER + [97]| == 47 by { Lengths(); }
  }

  lemma Lengths()
    ensures |LOCAL_HEADER| == 30 && |CENTRAL_HEADER| == 46
  {
  }
}
