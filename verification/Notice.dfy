/**
 Writing a notice as a nested document and reading it back: the reader does not
 clear its record between the documents of an array.
 */
module Notice {
  import opened Common
  import opened Bytes
  import opened CStrings

  /** A `std::map` of strings, listed in the order of its iteration. */
  datatype Entry = Entry(key: string, value: string)
  type Record = seq<Entry>

  /** One entry of the notice data: a name and a vector of maps. */
  datatype Group = Group(name: string, records: seq<Record>)

  /** A document is a list of fields; an array field holds documents; other types are not told apart. */
  datatype Value = Utf8(text: string) | Documents(docs: seq<Document>) | Other
  datatype Field = Field(key: string, value: Value)
  type Document = seq<Field>

  type Dict = map<string, string>

  // ------------------------------------------------------------------ writer

  function WriteRecord(r: Record): Document {
    seq(|r|, i requires 0 <= i < |r| => Field(CStr(r[i].key), Utf8(CStr(r[i].value))))
  }

  function WriteGroup(g: Group): Field {
    Field(CStr(g.name), Documents(seq(|g.records|, i requires 0 <= i < |g.records| => WriteRecord(g.records[i]))))
  }

  function WriteGroups(data: seq<Group>): Document {
    seq(|data|, i requires 0 <= i < |data| => WriteGroup(data[i]))
  }

  method AppendRecord(r: Record) returns (doc: Document)
    ensures doc == WriteRecord(r)
  {
    doc := [];
    for i := 0 to |r|
      invariant doc == WriteRecord(r[..i])
    {
      doc := doc + [Field(CStr(r[i].key), Utf8(CStr(r[i].value)))];
    }
    assert r[..|r|] == r;
  }

  /** `InsertNoticeColl` up to the insertion; no document is built from empty data. */
  method InsertNotice(id: Record, data: seq<Group>) returns (ok: bool, doc: Document)
    ensures ok <==> data != []
    ensures ok ==> doc == WriteRecord(id) + WriteGroups(data)
  {
    if |data| < 1 {
      return false, [];
    }
    doc := AppendRecord(id);
    ghost var head := doc;
    for i := 0 to |data|
      invariant doc == head + WriteGroups(data[..i])
    {
      var child, records := [], data[i].records;
      for j := 0 to |records|
        invariant child == seq(j, k requires 0 <= k < j => WriteRecord(records[k]))
      {
        var child2 := AppendRecord(records[j]);
        child := child + [child2];
      }
      assert child == WriteGroup(data[i]).value.docs;
      doc := doc + [Field(CStr(data[i].name), Documents(child))];
      assert WriteGroups(data[..i + 1]) == WriteGroups(data[..i]) + [WriteGroup(data[i])];
    }
    assert data[..|data|] == data;
    return true, doc;
  }

  // -------------------------------------------------------- the document

  /** The field of a document is a text: this key, this value, up to their first NULs. */
  predicate TextField(f: Field, e: Entry) {
    f.key == CStr(e.key) && f.value == Utf8(CStr(e.value))
  }

  predicate TextFields(d: Document, r: Record) {
    |d| == |r| && forall i :: 0 <= i < |r| ==> TextField(d[i], r[i])
  }

  /** The field of a document is a vector: under this name one document for each map. */
  predicate VectorField(f: Field, g: Group) {
    && f.key == CStr(g.name) && f.value.Documents? && |f.value.docs| == |g.records|
    && forall j :: 0 <= j < |g.records| ==> TextFields(f.value.docs[j], g.records[j])
  }

  /** The document of a notice, field by field: first the id's texts, then the vectors under their names. */
  lemma DocumentIs(id: Record, data: seq<Group>)
    ensures var doc := WriteRecord(id) + WriteGroups(data);
      && |doc| == |id| + |data|
      && TextFields(doc[..|id|], id)
      && forall i :: 0 <= i < |data| ==> VectorField(doc[|id| + i], data[i])
  {
    var doc := WriteRecord(id) + WriteGroups(data);
    assert doc[..|id|] == WriteRecord(id);
    forall i | 0 <= i < |data| ensures VectorField(doc[|id| + i], data[i]) {
      assert doc[|id| + i] == WriteGroup(data[i]);
    }
  }

  /** The first array of a document with a key. */
  function FindArray(d: Document, key: string): Option<Field> {
    if d == [] then None
    else if d[0].key == key && d[0].value.Documents? then Some(d[0])
    else FindArray(d[1..], key)
  }

  lemma {:induction false} FirstFound(d: Document, key: string, k: nat)
    requires k < |d| && d[k].key == key && d[k].value.Documents?
    requires forall j :: 0 <= j < k ==> d[j].key != key || !d[j].value.Documents?
    ensures FindArray(d, key) == Some(d[k])
  {
    if k > 0 {
      FirstFound(d[1..], key, k - 1);
    }
  }

  // ------------------------------------------------------------------ reader

  /** The reader's variables: the record under construction, the last text seen, and the records delivered. */
  datatype Reader = Reader(tmp: Dict, value: string, out: seq<Dict>)

  /** A field of an inner document; one that is not text is given the last text seen. */
  function ReadInner(r: Reader, f: Field): Reader {
    var value := if f.value.Utf8? then f.value.text else r.value;
    r.(tmp := r.tmp[f.key := value], value := value)
  }

  function ReadDocument(r: Reader, d: Document): Reader {
    if d == [] then r else ReadInner(ReadDocument(r, d[..|d| - 1]), d[|d| - 1])
  }

  function ReadDocuments(r: Reader, ds: seq<Document>): Reader {
    if ds == [] then r
    else
      var r' := ReadDocument(ReadDocuments(r, ds[..|ds| - 1]), ds[|ds| - 1]);
      r'.(out := r'.out + [r'.tmp])
  }

  function ReadField(r: Reader, f: Field): Reader {
    match f.value
    case Utf8(text) => r.(tmp := r.tmp[f.key := text], value := text)
    case Documents(docs) => ReadDocuments(r.(tmp := map[]), docs)
    case Other => r
  }

  function ReadFields(r: Reader, d: Document): Reader {
    if d == [] then r else ReadField(ReadFields(r, d[..|d| - 1]), d[|d| - 1])
  }

  method GetVecRecord(doc: Document, msgs0: seq<Dict>) returns (msgs: seq<Dict>)
    ensures msgs == ReadFields(Reader(map[], "", msgs0), doc).out
  {
    msgs := msgs0;
    var value, tmp: Dict := "", map[];
    for i := 0 to |doc|
      invariant Reader(tmp, value, msgs) == ReadFields(Reader(map[], "", msgs0), doc[..i])
    {
      ghost var before := Reader(tmp, value, msgs);
      assert doc[..i + 1][..i] == doc[..i];
      match doc[i].value
      case Utf8(text) =>
        value := text;
        tmp := tmp[doc[i].key := value];
      case Documents(docs) =>
        tmp := map[];
        for j := 0 to |docs|
          invariant Reader(tmp, value, msgs) == ReadDocuments(before.(tmp := map[]), docs[..j])
        {
          ghost var start := Reader(tmp, value, msgs);
          assert docs[..j + 1][..j] == docs[..j];
          for k := 0 to |docs[j]|
            invariant Reader(tmp, value, msgs) == ReadDocument(start, docs[j][..k])
          {
            assert docs[j][..k + 1][..k] == docs[j][..k];
            if docs[j][k].value.Utf8? {
              value := docs[j][k].value.text;
            }
            tmp := tmp[docs[j][k].key := value];
          }
          assert docs[j][..|docs[j]|] == docs[j];
          msgs := msgs + [tmp];
        }
        assert docs[..|docs|] == docs;
      case Other =>
    }
    assert doc[..|doc|] == doc;
  }

  // ------------------------------------------------- what comes back

  /** A record as a map; later entries win. */
  function ToDict(r: Record): Dict {
    if r == [] then map[] else ToDict(r[..|r| - 1])[r[|r| - 1].key := r[|r| - 1].value]
  }

  /** The first n maps of a vector merged, later ones overriding. */
  function Merged(rs: seq<Record>, n: nat): Dict
    requires n <= |rs|
  {
    if n == 0 then map[] else Merged(rs, n - 1) + ToDict(rs[n - 1])
  }

  /** For each group in order and each index, the merge of the maps up to that index. */
  function Merges(rs: seq<Record>): seq<Dict> {
    seq(|rs|, j requires 0 <= j < |rs| => Merged(rs, j + 1))
  }

  function AllMerges(data: seq<Group>): seq<Dict> {
    if data == [] then [] else AllMerges(data[..|data| - 1]) + Merges(data[|data| - 1].records)
  }

  /** The maps as they were. */
  function Originals(rs: seq<Record>): seq<Dict> {
    seq(|rs|, j requires 0 <= j < |rs| => ToDict(rs[j]))
  }

  function AllOriginals(data: seq<Group>): seq<Dict> {
    if data == [] then [] else AllOriginals(data[..|data| - 1]) + Originals(data[|data| - 1].records)
  }

  /** The data as it survives `c_str`. */
  function CutEntry(e: Entry): Entry {
    Entry(CStr(e.key), CStr(e.value))
  }

  function CutRecord(r: Record): Record {
    seq(|r|, i requires 0 <= i < |r| => CutEntry(r[i]))
  }

  function CutGroup(g: Group): Group {
    Group(CStr(g.name), seq(|g.records|, i requires 0 <= i < |g.records| => CutRecord(g.records[i])))
  }

  function Cut(data: seq<Group>): seq<Group> {
    seq(|data|, i requires 0 <= i < |data| => CutGroup(data[i]))
  }

  /** Each map of each vector has at least the keys of the map before it. */
  predicate KeysGrow(rs: seq<Record>) {
    forall j :: 0 < j < |rs| ==> ToDict(rs[j - 1]).Keys <= ToDict(rs[j]).Keys
  }

  lemma ReadSnoc(r: Reader, d: Document, e: Entry)
    ensures var r' := ReadDocument(r, d + [Field(e.key, Utf8(e.value))]);
      r'.tmp == ReadDocument(r, d).tmp[e.key := e.value] && r'.out == ReadDocument(r, d).out
  {
    assert (d + [Field(e.key, Utf8(e.value))])[..|d|] == d;
  }

  lemma ToDictSnoc(rec: Record, e: Entry)
    ensures ToDict(rec + [e]) == ToDict(rec)[e.key := e.value]
  {
    assert (rec + [e])[..|rec|] == rec;
  }

  lemma MergeUpdate(a: Dict, b: Dict, e: Entry)
    ensures a + b[e.key := e.value] == (a + b)[e.key := e.value]
  {
  }

  /** The last entry of a record is the last field written and the last entry cut. */
  lemma WriteSnoc(rec: Record)
    requires rec != []
    ensures var n := |rec| - 1;
      && WriteRecord(rec) == WriteRecord(rec[..n]) + [Field(CutEntry(rec[n]).key, Utf8(CutEntry(rec[n]).value))]
      && CutRecord(rec) == CutRecord(rec[..n]) + [CutEntry(rec[n])]
  {
  }

  lemma {:induction false} ReadWrittenRecord(r: Reader, rec: Record)
    ensures var r' := ReadDocument(r, WriteRecord(rec));
      r'.tmp == r.tmp + ToDict(CutRecord(rec)) && r'.out == r.out
  {
    if rec != [] {
      var front, last := rec[..|rec| - 1], rec[|rec| - 1];
      ReadWrittenRecord(r, front);
      WriteSnoc(rec);
      ReadSnoc(r, WriteRecord(front), CutEntry(last));
      ToDictSnoc(CutRecord(front), CutEntry(last));
      MergeUpdate(r.tmp, ToDict(CutRecord(front)), CutEntry(last));
    } else {
      assert r.tmp + map[] == r.tmp;
    }
  }

  lemma MergesSnoc(rs: seq<Record>, n: nat)
    requires 0 < n <= |rs|
    ensures Merges(rs)[..n] == Merges(rs)[..n - 1] + [Merged(rs, n)]
  {
  }

  /** Reading a written vector with an empty record delivers the successive merges. */
  lemma {:induction false} ReadWrittenVector(r: Reader, rs: seq<Record>, cut: seq<Record>, docs: seq<Document>, n: nat)
    requires r.tmp == map[] && n <= |rs| == |cut| == |docs|
    requires forall j :: 0 <= j < |rs| ==> docs[j] == WriteRecord(rs[j]) && cut[j] == CutRecord(rs[j])
    ensures var r' := ReadDocuments(r, docs[..n]);
      r'.tmp == Merged(cut, n) && r'.out == r.out + Merges(cut)[..n]
  {
    if n > 0 {
      ReadWrittenVector(r, rs, cut, docs, n - 1);
      var r' := ReadDocuments(r, docs[..n - 1]);
      assert docs[..n][..n - 1] == docs[..n - 1];
      ReadWrittenRecord(r', rs[n - 1]);
      MergesSnoc(cut, n);
      Assoc(r.out, Merges(cut)[..n - 1], [Merged(cut, n)]);
    }
  }

  lemma {:induction false} ReadFieldsAppend(r: Reader, a: Document, b: Document)
    ensures ReadFields(r, a + b) == ReadFields(ReadFields(r, a), b)
  {
    if b == [] {
      assert a + b == a;
    } else {
      ReadFieldsAppend(r, a, b[..|b| - 1]);
      assert (a + b)[..|a + b| - 1] == a + b[..|b| - 1];
    }
  }

  /** Top-level texts deliver nothing. */
  lemma {:induction false} ReadIdFields(r: Reader, id: Record)
    ensures ReadFields(r, WriteRecord(id)).out == r.out
  {
    if id != [] {
      ReadIdFields(r, id[..|id| - 1]);
      assert WriteRecord(id)[..|id| - 1] == WriteRecord(id[..|id| - 1]);
    }
  }

  lemma ReadWrittenGroup(r: Reader, g: Group)
    ensures ReadField(r, WriteGroup(g)).out == r.out + Merges(CutGroup(g).records)
  {
    var docs, cut := WriteGroup(g).value.docs, CutGroup(g).records;
    ReadWrittenVector(r.(tmp := map[]), g.records, cut, docs, |docs|);
    assert docs[..|docs|] == docs && Merges(cut)[..|cut|] == Merges(cut);
  }

  lemma {:induction false} ReadWrittenGroups(r: Reader, data: seq<Group>)
    ensures ReadFields(r, WriteGroups(data)).out == r.out + AllMerges(Cut(data))
  {
    if data != [] {
      var front, g := data[..|data| - 1], data[|data| - 1];
      ReadWrittenGroups(r, front);
      assert WriteGroups(data)[..|data| - 1] == WriteGroups(front);
      assert Cut(data)[..|data| - 1] == Cut(front);
      ReadWrittenGroup(ReadFields(r, WriteGroups(front)), g);
      Assoc(r.out, AllMerges(Cut(front)), Merges(CutGroup(g).records));
    } else {
      assert r.out + [] == r.out;
    }
  }

  /**
   What reading a written notice delivers, for all data: per group and index
   the merge of the maps so far, with every text cut at a NUL.
   */
  lemma WriteThenRead(id: Record, data: seq<Group>, msgs: seq<Dict>)
    ensures ReadFields(Reader(map[], "", msgs), WriteRecord(id) + WriteGroups(data)).out == msgs + AllMerges(Cut(data))
  {
    var r := Reader(map[], "", msgs);
    ReadFieldsAppend(r, WriteRecord(id), WriteGroups(data));
    ReadIdFields(r, id);
    ReadWrittenGroups(ReadFields(r, WriteRecord(id)), data);
  }

  /** A group is found under its own name, and reading that field alone gives its merges. */
  lemma GroupByName(id: Record, data: seq<Group>, i: nat, r: Reader)
    requires i < |data| && forall j :: 0 <= j < i ==> CStr(data[j].name) != CStr(data[i].name)
    ensures var found := FindArray(WriteRecord(id) + WriteGroups(data), CStr(data[i].name));
      found.Some? && ReadField(r, found.value).out == r.out + Merges(CutGroup(data[i]).records)
  {
    var doc := WriteRecord(id) + WriteGroups(data);
    DocumentIs(id, data);
    forall k | 0 <= k < |id| + i ensures doc[k].key != CStr(data[i].name) || !doc[k].value.Documents? {
      if k < |id| {
        assert TextField(doc[..|id|][k], id[k]);
      } else {
        assert VectorField(doc[|id| + (k - |id|)], data[k - |id|]);
      }
    }
    assert VectorField(doc[|id| + i], data[i]);
    FirstFound(doc, CStr(data[i].name), |id| + i);
    assert doc[|id| + i] == WriteGroup(data[i]);
    ReadWrittenGroup(r, data[i]);
  }

  /** An inner field that is not a text is given the last text read before it, even from another document. */
  lemma StaleText(key: string, first: string, second: string)
    requires first != second
    ensures var docs := [[Field(first, Utf8("1"))], [Field(second, Other)]];
      ReadFields(Reader(map[], "", []), [Field(key, Documents(docs))]).out
        == [map[first := "1"], map[first := "1", second := "1"]]
  {
    var r: Reader := Reader(map[], "", []);
    var d0: Document, d1: Document := [Field(first, Utf8("1"))], [Field(second, Other)];
    var docs := [d0, d1];
    var f := Field(key, Documents(docs));
    assert [f][..0] == [] && d0[..0] == [] && d1[..0] == [];
    assert docs[..1] == [d0] && [d0][..0] == [];
    var r1 := Reader(map[first := "1"], "1", []);
    assert ReadDocument(r, d0) == r1;
    assert ReadDocuments(r, [d0]) == r1.(out := [map[first := "1"]]);
    assert ReadDocument(r1.(out := [map[first := "1"]]), d1)
        == Reader(map[first := "1", second := "1"], "1", [map[first := "1"]]);
  }

  // ------------------------------------------------- when it is the original

  lemma {:induction false} MergedIsLast(rs: seq<Record>, n: nat)
    requires n < |rs| && forall j :: 0 < j <= n ==> ToDict(rs[j - 1]).Keys <= ToDict(rs[j]).Keys
    ensures Merged(rs, n + 1) == ToDict(rs[n])
  {
    if n > 0 {
      MergedIsLast(rs, n - 1);
    } else {
      assert map[] + ToDict(rs[0]) == ToDict(rs[0]);
    }
  }

  lemma VectorIsOriginal(rs: seq<Record>)
    ensures Merges(rs) == Originals(rs) <==> KeysGrow(rs)
  {
    if KeysGrow(rs) {
      forall j | 0 <= j < |rs| ensures Merged(rs, j + 1) == ToDict(rs[j]) {
        MergedIsLast(rs, j);
      }
    } else if Merges(rs) == Originals(rs) {
      forall j | 0 < j < |rs| ensures ToDict(rs[j - 1]).Keys <= ToDict(rs[j]).Keys {
        assert Merges(rs)[j - 1] == Originals(rs)[j - 1];
        assert Merges(rs)[j] == Originals(rs)[j];
      }
    }
  }

  /** The notice comes back as it was exactly if, in each vector, no map lacks a key of the one before it. */
  lemma {:induction false} ReadIsOriginal(data: seq<Group>)
    ensures |AllMerges(data)| == |AllOriginals(data)|
    ensures AllMerges(data) == AllOriginals(data)
       <==> forall i :: 0 <= i < |data| ==> KeysGrow(data[i].records)
  {
    if data != [] {
      var front, last := data[..|data| - 1], data[|data| - 1];
      ReadIsOriginal(front);
      VectorIsOriginal(last.records);
      assert data == front + [last];
      AppendEqual(AllMerges(front), Merges(last.records), AllOriginals(front), Originals(last.records));
    }
  }

  lemma AppendEqual<T>(a: seq<T>, b: seq<T>, c: seq<T>, d: seq<T>)
    requires |a| == |c|
    ensures a + b == c + d <==> a == c && b == d
  {
    if a + b == c + d {
      assert a == (a + b)[..|a|] && b == (a + b)[|a|..];
    }
  }

  predicate NulFree(data: seq<Group>) {
    forall i, j, k :: 0 <= i < |data| && 0 <= j < |data[i].records| && 0 <= k < |data[i].records[j]|
      ==> NUL !in data[i].records[j][k].key && NUL !in data[i].records[j][k].value
  }

  /** Without NULs nothing is cut from the maps. */
  lemma NothingCut(data: seq<Group>)
    requires NulFree(data)
    ensures AllMerges(Cut(data)) == AllMerges(data)
  {
    forall i | 0 <= i < |data| ensures CutGroup(data[i]).records == data[i].records {
      forall j | 0 <= j < |data[i].records| ensures CutRecord(data[i].records[j]) == data[i].records[j] {
        forall k | 0 <= k < |data[i].records[j]|
          ensures CutRecord(data[i].records[j])[k] == data[i].records[j][k]
        {
          CStrKeeps(data[i].records[j][k].key);
          CStrKeeps(data[i].records[j][k].value);
        }
      }
    }
    SameRecords(Cut(data), data);
  }

  lemma {:induction false} SameRecords(a: seq<Group>, b: seq<Group>)
    requires |a| == |b| && forall i :: 0 <= i < |a| ==> a[i].records == b[i].records
    ensures AllMerges(a) == AllMerges(b)
  {
    if a != [] {
      SameRecords(a[..|a| - 1], b[..|b| - 1]);
    }
  }

  /** Writing and reading a notice without NULs is the identity exactly if the keys grow along each vector. */
  lemma NoticeRoundTrip(id: Record, data: seq<Group>)
    requires NulFree(data)
    ensures ReadFields(Reader(map[], "", []), WriteRecord(id) + WriteGroups(data)).out == AllOriginals(data)
       <==> forall i :: 0 <= i < |data| ==> KeysGrow(data[i].records)
  {
    WriteThenRead(id, data, []);
    NothingCut(data);
    ReadIsOriginal(data);
  }
}
