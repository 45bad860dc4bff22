/** The byte stream a release is fingerprinted by: one framed record per entry, in path order. */
module ReleaseFraming {
  import opened Common
  import opened ReleaseTree
  import Numerals
  import TextOrder
  import Utf8

  datatype Record = Record(path: string, kind: string, mode: nat, payload: Bytes)

  /** What is fed to the digest about an entry; special files are refused. */
  function RecordOf(item: Item): Option<Record> {
    match item.node
    case File(mode, content) => Some(Record(Posix(item.path), "file", mode, content))
    case Link(mode, target, _) => Some(Record(Posix(item.path), "symlink", mode, Utf8.Encode(target)))
    case Directory(mode, _) => Some(Record(Posix(item.path), "directory", mode % 512, []))
    case Special(_) => None
  }

  function Records(items: seq<Item>): Option<seq<Record>> {
    if items == [] then Some([])
    else
      match (RecordOf(items[0]), Records(items[1..]))
      case (Some(r), Some(rest)) => Some([r] + rest)
      case _ => None
  }

  function ModeText(mode: nat): (s: string)
    ensures Numerals.AllDigits(s)
  {
    Numerals.Padded(Numerals.Digits(mode, 8), 4)
  }

  /** A field, closed by NUL, and what follows it. */
  function Field(text: string, rest: string): string {
    text + "\0" + rest
  }

  function Header(r: Record): string {
    Field(r.path, Field(r.kind, Field(ModeText(r.mode), Field(Numerals.Decimal(|r.payload|), ""))))
  }

  function Frame(r: Record): Bytes {
    Utf8.Encode(Header(r)) + r.payload + [0]
  }

  function Stream(records: seq<Record>): Bytes {
    if records == [] then [] else Frame(records[0]) + Stream(records[1..])
  }

  /** Insertion after everything not greater: what a stable sort by path does with the last element. */
  function InsertByPath(item: Item, sorted: seq<Item>): seq<Item> {
    if sorted != [] && TextOrder.Leq(Posix(sorted[0].path), Posix(item.path))
    then [sorted[0]] + InsertByPath(item, sorted[1..])
    else [item] + sorted
  }

  function SortByPath(items: seq<Item>): seq<Item> {
    if items == [] then [] else InsertByPath(items[|items| - 1], SortByPath(items[..|items| - 1]))
  }

  /** The whole input of the digest, or nothing when an entry is refused. */
  function DigestInput(items: seq<Item>): Option<Bytes> {
    match Records(SortByPath(items))
    case None => None
    case Some(records) => Some(Stream(records))
  }

  /** `_source_entries_sha256`: the digest is updated entry by entry. */
  method FeedDigest(items: seq<Item>) returns (fed: Option<Bytes>)
    ensures fed == DigestInput(items)
  {
    hide Header, Utf8.Encode, SortByPath, RecordOf, Stream;
    var sorted := SortByPath(items);
    var stream: Bytes := [];
    assert Stream([]) == [] by { NothingStreams(); }
    ghost var done: seq<Record> := [];
    var i := 0;
    assert sorted[0..] == sorted;
    if Records(sorted).Some? {
      assert done + Records(sorted).value == Records(sorted).value;
    }
    while i < |sorted|
      invariant 0 <= i <= |sorted|
      invariant stream == Stream(done)
      invariant Records(sorted) == match Records(sorted[i..]) case None => None case Some(rest) => Some(done + rest)
    {
      assert sorted[i..][0] == sorted[i] && sorted[i..][1..] == sorted[i + 1..];
      var record := RecordOf(sorted[i]);
      if record.None? { return None; }
      ghost var later := Records(sorted[i + 1..]);
      if later.Some? {
        assert done + ([record.value] + later.value) == done + [record.value] + later.value;
      }
      StreamExtends(done, record.value);
      var r := record.value;
      stream := stream + Utf8.Encode(Header(r));
      stream := stream + r.payload;
      stream := stream + [0];
      done := done + [r];
      i := i + 1;
    }
    assert done + [] == done;
    fed := Some(stream);
  }

  lemma NothingStreams()
    ensures Stream([]) == []
  {
  }

  lemma {:induction false} StreamExtends(records: seq<Record>, r: Record)
    ensures Stream(records + [r]) == Stream(records) + Utf8.Encode(Header(r)) + r.payload + [0]
    decreases |records|
  {
    hide Header, Utf8.Encode;
    if records == [] {
      assert records + [r] == [r] && [r][1..] == [];
    } else {
      assert (records + [r])[0] == records[0] && (records + [r])[1..] == records[1..] + [r];
      StreamExtends(records[1..], r);
      assert Frame(records[0]) + (Stream(records[1..]) + Utf8.Encode(Header(r)) + r.payload + [0]) ==
             Frame(records[0]) + Stream(records[1..]) + Utf8.Encode(Header(r)) + r.payload + [0];
    }
  }

  // ----- unique decoding -----

  /** Paths and kinds never contain NUL. */
  ghost predicate Clean(r: Record) {
    '\0' !in r.path && '\0' !in r.kind
  }

  lemma FieldOctets(text: string, rest: string)
    ensures Utf8.Encode(Field(text, rest)) == Utf8.Encode(text) + [0] + Utf8.Encode(rest)
  {
    NulIsZero();
    Utf8.EncodeConcat(text + "\0", rest);
    Utf8.EncodeConcat(text, "\0");
  }

  lemma FieldsOf(r: Record)
    ensures Utf8.Encode(Header(r)) ==
            Utf8.Encode(r.path) + [0] + (Utf8.Encode(r.kind) + [0] +
            (Utf8.Encode(ModeText(r.mode)) + [0] + (Utf8.Encode(Numerals.Decimal(|r.payload|)) + [0])))
  {
    hide Utf8.Encode, ModeText, Numerals.Decimal, Field;
    var m, n := ModeText(r.mode), Numerals.Decimal(|r.payload|);
    assert Utf8.Encode("") == [] by { NothingEncodes(); }
    FieldOctets(n, "");
    FieldOctets(m, Field(n, ""));
    FieldOctets(r.kind, Field(m, Field(n, "")));
    FieldOctets(r.path, Field(r.kind, Field(m, Field(n, ""))));
  }

  lemma NothingEncodes()
    ensures Utf8.Encode("") == []
  {
  }

  lemma NulIsZero()
    ensures Utf8.Encode("\0") == [0]
  {
    assert "\0"[1..] == [];
  }

  lemma SameText(a: string, b: string)
    requires Utf8.Encode(a) == Utf8.Encode(b)
    ensures a == b
  {
    Utf8.RoundTrip(a);
    Utf8.RoundTrip(b);
  }

  lemma NumeralsAreClean(s: string)
    requires Numerals.AllDigits(s)
    ensures 0 !in Utf8.Encode(s)
  {
    Numerals.DigitsAvoid(s, '\0');
    Utf8.NoNul(s);
  }

  lemma SameMode(a: nat, b: nat)
    requires ModeText(a) == ModeText(b)
    ensures a == b
  {
    Numerals.PaddingValue(Numerals.Digits(a, 8), 4, 8);
    Numerals.PaddingValue(Numerals.Digits(b, 8), 4, 8);
    Numerals.DigitsValue(a, 8);
    Numerals.DigitsValue(b, 8);
  }

  lemma SameLength(a: nat, b: nat)
    requires Numerals.Decimal(a) == Numerals.Decimal(b)
    ensures a == b
  {
    Numerals.DigitsValue(a, 10);
    Numerals.DigitsValue(b, 10);
  }

  /** Records read from the front of equal streams are equal, and so is what follows them. */
  lemma FrameIsPrefixFree(a: Record, x: Bytes, b: Record, y: Bytes)
    requires Clean(a) && Clean(b)
    requires Frame(a) + x == Frame(b) + y
    ensures a == b && x == y
  {
    hide Header, ModeText, Numerals.Decimal, Utf8.Encode;
    FieldsOf(a);
    FieldsOf(b);
    var pa, ka, ma, la := Utf8.Encode(a.path), Utf8.Encode(a.kind), Utf8.Encode(ModeText(a.mode)),
                          Utf8.Encode(Numerals.Decimal(|a.payload|));
    var pb, kb, mb, lb := Utf8.Encode(b.path), Utf8.Encode(b.kind), Utf8.Encode(ModeText(b.mode)),
                          Utf8.Encode(Numerals.Decimal(|b.payload|));
    var xa, xb := a.payload + [0] + x, b.payload + [0] + y;
    assert Frame(a) + x == pa + [0] + (ka + [0] + (ma + [0] + (la + [0] + xa)));
    assert Frame(b) + y == pb + [0] + (kb + [0] + (mb + [0] + (lb + [0] + xb)));
    Utf8.NoNul(a.path);
    Utf8.NoNul(b.path);
    SplitAtFirst(pa, ka + [0] + (ma + [0] + (la + [0] + xa)), pb, kb + [0] + (mb + [0] + (lb + [0] + xb)), 0);
    Utf8.NoNul(a.kind);
    Utf8.NoNul(b.kind);
    SplitAtFirst(ka, ma + [0] + (la + [0] + xa), kb, mb + [0] + (lb + [0] + xb), 0);
    NumeralsAreClean(ModeText(a.mode));
    NumeralsAreClean(ModeText(b.mode));
    SplitAtFirst(ma, la + [0] + xa, mb, lb + [0] + xb, 0);
    NumeralsAreClean(Numerals.Decimal(|a.payload|));
    NumeralsAreClean(Numerals.Decimal(|b.payload|));
    SplitAtFirst(la, xa, lb, xb, 0);
    SameText(a.path, b.path);
    SameText(a.kind, b.kind);
    SameText(ModeText(a.mode), ModeText(b.mode));
    SameMode(a.mode, b.mode);
    SameText(Numerals.Decimal(|a.payload|), Numerals.Decimal(|b.payload|));
    SameLength(|a.payload|, |b.payload|);
    assert a.payload == xa[..|a.payload|] && b.payload == xb[..|b.payload|];
    assert x == xa[|a.payload| + 1..] && y == xb[|b.payload| + 1..];
  }

  /** Unique framing: different lists of entries never give the same stream, whatever the payloads contain. */
  lemma {:induction false} StreamIsInjective(a: seq<Record>, b: seq<Record>)
    requires forall r :: r in a + b ==> Clean(r)
    requires Stream(a) == Stream(b)
    ensures a == b
    decreases |a|
  {
    hide Clean, Header;
    if a == [] || b == [] {
      assert |Stream(a)| == |Stream(b)|;
    } else {
      assert a[0] in a + b && b[0] in a + b;
      FrameIsPrefixFree(a[0], Stream(a[1..]), b[0], Stream(b[1..]));
      forall r | r in a[1..] + b[1..] ensures Clean(r) {
        assert r in a + b;
      }
      StreamIsInjective(a[1..], b[1..]);
      assert a == [a[0]] + a[1..] && b == [b[0]] + b[1..];
    }
  }
}
