/**
 * The ingestion job of backend/ingest.py: choosing the corpus files by
 * extension, turning each file with non-blank contents into a document,
 * and writing one record per chunk to the vector index in batches of 100.
 *
 * The file system walk and reads, the embedding model, the random record ids
 * and the chunker enter as parameters: `files` lists what the walk found with
 * each file's contents as read, `embed` stands for the embedding model,
 * `newId(k)` for the k-th uuid4 drawn, and `chunk` for chunk_text with its
 * defaults.
 */
module Ingest {
  import opened Strings

  /** A file the corpus walk found: its base name and its contents as read. */
  datatype FileEntry = FileEntry(name: string, contents: string)

  /** A corpus document: its stripped text and the file name it came from. */
  datatype Document = Document(text: string, source: string)

  /** The metadata stored beside each vector. */
  datatype Metadata = Metadata(text: string, source: string)

  /** One index record: an id, the chunk's vector and its metadata. */
  datatype Record<Id, V> = Record(id: Id, values: V, metadata: Metadata)

  /** main flushes its buffer once it holds this many records. */
  const BatchSize: nat := 100

  /** str.lower() on one character, for ASCII letters; other characters are kept. */
  function Lower(c: char): char {
    if 'A' <= c <= 'Z' then (c as int + 32) as char else c
  }

  function LowerCase(s: string): (r: string)
    ensures |r| == |s|
  {
    seq(|s|, i requires 0 <= i < |s| => Lower(s[i]))
  }

  predicate EndsWith(s: string, suffix: string) {
    |suffix| <= |s| && s[|s| - |suffix|..] == suffix
  }

  /** main's file test: the lower-cased name ends with ".txt" or ".md". */
  predicate IsCorpusFile(name: string) {
    EndsWith(LowerCase(name), ".txt") || EndsWith(LowerCase(name), ".md")
  }

  /**
   * The extension test character by character: a name is selected exactly
   * when it ends in a dot followed by t, x, t or by m, d, each letter in
   * either case.
   */
  lemma CorpusFileByLastCharacters(name: string)
    ensures IsCorpusFile(name) <==>
      (|name| >= 4 && name[|name| - 4] == '.' && name[|name| - 3] in "tT"
        && name[|name| - 2] in "xX" && name[|name| - 1] in "tT")
      || (|name| >= 3 && name[|name| - 3] == '.' && name[|name| - 2] in "mM" && name[|name| - 1] in "dD")
  {
    var l := LowerCase(name);
    var n := |name|;
    if n >= 4 {
      assert EndsWith(l, ".txt") <==> l[n - 4] == '.' && l[n - 3] == 't' && l[n - 2] == 'x' && l[n - 1] == 't' by {
        assert l[n - 4..] == [l[n - 4], l[n - 3], l[n - 2], l[n - 1]];
      }
    }
    if n >= 3 {
      assert EndsWith(l, ".md") <==> l[n - 3] == '.' && l[n - 2] == 'm' && l[n - 1] == 'd' by {
        assert l[n - 3..] == [l[n - 3], l[n - 2], l[n - 1]];
      }
    }
  }

  /** The files main keeps from the walk, in walk order. */
  function SelectFiles(files: seq<FileEntry>): (selected: seq<FileEntry>)
    ensures |selected| <= |files|
  {
    if files == [] then []
    else
      var kept := SelectFiles(files[..|files| - 1]);
      if IsCorpusFile(files[|files| - 1].name) then kept + [files[|files| - 1]] else kept
  }

  /** A file is selected exactly when its name passes the extension test. */
  lemma {:induction false} SelectFilesExactly(files: seq<FileEntry>)
    ensures |SelectFiles(files)| <= |files|
    ensures forall f :: f in SelectFiles(files) <==> f in files && IsCorpusFile(f.name)
  {
    if files != [] {
      var init := files[..|files| - 1];
      SelectFilesExactly(init);
      assert files == init + [files[|files| - 1]];
    }
  }

  /** read_files: the files whose stripped contents are non-empty, as documents named by the file. */
  function ReadDocuments(files: seq<FileEntry>): (docs: seq<Document>)
    ensures |docs| <= |files|
  {
    if files == [] then []
    else
      var text := Strip(files[0].contents);
      (if text != [] then [Document(text, files[0].name)] else []) + ReadDocuments(files[1..])
  }

  /** Every document read has non-empty text with no surrounding whitespace. */
  lemma {:induction false} ReadDocumentsNonBlank(files: seq<FileEntry>)
    ensures |ReadDocuments(files)| <= |files|
    ensures forall d :: d in ReadDocuments(files) ==> d.text != [] && Strip(d.text) == d.text
  {
    if files != [] {
      ReadDocumentsNonBlank(files[1..]);
      StripIdempotent(files[0].contents);
    }
  }

  /** Every file with non-blank contents yields a document of its stripped text, named by the file. */
  lemma {:induction false} ReadDocumentsComplete(files: seq<FileEntry>)
    ensures forall f :: f in files && Strip(f.contents) != [] ==> Document(Strip(f.contents), f.name) in ReadDocuments(files)
  {
    if files != [] {
      ReadDocumentsComplete(files[1..]);
      assert forall f :: f in files ==> f == files[0] || f in files[1..];
    }
  }

  /** Every document read comes from one of the files, as its stripped text and its name. */
  lemma {:induction false} ReadDocumentsSound(files: seq<FileEntry>, d: Document)
    requires d in ReadDocuments(files)
    ensures exists f :: f in files && d == Document(Strip(f.contents), f.name)
  {
    var text := Strip(files[0].contents);
    if text != [] && d == Document(text, files[0].name) {
      assert files[0] in files;
    } else {
      ReadDocumentsSound(files[1..], d);
      var f :| f in files[1..] && d == Document(Strip(f.contents), f.name);
      assert f in files;
    }
  }

  /** The metadata of one document's chunks, in chunk order. */
  function DocumentPayloads(d: Document, chunk: string -> seq<string>): seq<Metadata> {
    seq(|chunk(d.text)|, j requires 0 <= j < |chunk(d.text)| => Metadata(chunk(d.text)[j], d.source))
  }

  /** The metadata of every record main generates, document by document. */
  function Payloads(docs: seq<Document>, chunk: string -> seq<string>): seq<Metadata> {
    if docs == [] then []
    else Payloads(docs[..|docs| - 1], chunk) + DocumentPayloads(docs[|docs| - 1], chunk)
  }

  /** The k-th generated record: the k-th id drawn, the chunk's vector and its metadata. */
  function RecordAt<Id, V>(p: Metadata, k: nat, embed: string -> V, newId: nat -> Id): Record<Id, V> {
    Record(newId(k), embed(p.text), p)
  }

  /** One record per payload, the k-th carrying the k-th id drawn. */
  function RecordsOf<Id, V>(ps: seq<Metadata>, embed: string -> V, newId: nat -> Id): (rs: seq<Record<Id, V>>)
    ensures |rs| == |ps|
  {
    seq(|ps|, k requires 0 <= k < |ps| => RecordAt(ps[k], k, embed, newId))
  }

  lemma RecordsOfAppend<Id, V>(ps: seq<Metadata>, p: Metadata, embed: string -> V, newId: nat -> Id)
    ensures RecordsOf(ps + [p], embed, newId) == RecordsOf(ps, embed, newId) + [RecordAt(p, |ps|, embed, newId)]
  {
  }

  /** Every record main generates, in generation order. */
  function Records<Id, V>(docs: seq<Document>, chunk: string -> seq<string>, embed: string -> V, newId: nat -> Id): (rs: seq<Record<Id, V>>)
    ensures |rs| == |Payloads(docs, chunk)|
  {
    RecordsOf(Payloads(docs, chunk), embed, newId)
  }

  /** The concatenation of the batches, in order. */
  function Flatten<T>(batches: seq<seq<T>>): seq<T> {
    if batches == [] then [] else batches[0] + Flatten(batches[1..])
  }

  /** The upsert batches main sends for the record sequence s. */
  function Batches<T>(s: seq<T>): (batches: seq<seq<T>>)
    ensures batches == [] <==> s == []
    decreases |s|
  {
    if |s| == 0 then []
    else if |s| <= BatchSize then [s]
    else [s[..BatchSize]] + Batches(s[BatchSize..])
  }

  /**
   * The batches partition the records: concatenated in call order they give
   * exactly s, every batch but the last holds exactly 100 records, the last
   * holds 1 to 100, and there is no batch at all when there is no record.
   */
  lemma {:induction false} BatchesPartition<T>(s: seq<T>)
    ensures Flatten(Batches(s)) == s
    ensures forall i :: 0 <= i < |Batches(s)| - 1 ==> |Batches(s)[i]| == BatchSize
    ensures Batches(s) != [] ==> 0 < |Batches(s)[|Batches(s)| - 1]| <= BatchSize
    ensures Batches(s) == [] <==> s == []
    decreases |s|
  {
    if |s| > BatchSize {
      var rest := s[BatchSize..];
      BatchesPartition(rest);
      assert Batches(s) == [s[..BatchSize]] + Batches(rest);
      assert s == s[..BatchSize] + rest;
    } else if |s| > 0 {
      assert Flatten(Batches(s)[1..]) == [];
    }
  }

  /** One upsert per started hundred records: |s| / 100 rounded up. */
  lemma {:induction false} BatchesCount<T>(s: seq<T>)
    ensures |Batches(s)| == (|s| + BatchSize - 1) / BatchSize
    decreases |s|
  {
    if |s| > BatchSize {
      BatchesCount(s[BatchSize..]);
    }
  }

  /**
   * Flushing a buffer after a run of full batches adds exactly one batch: the
   * buffer, whether it is a full batch of 100 or the final partial one.
   */
  lemma {:induction false} BatchesAppend<T>(s: seq<T>, t: seq<T>, full: nat)
    requires |s| == full * BatchSize && 0 < |t| <= BatchSize
    ensures Batches(s + t) == Batches(s) + [t]
    decreases full
  {
    if full == 0 {
      assert s + t == t;
    } else {
      assert (s + t)[..BatchSize] == s[..BatchSize];
      assert (s + t)[BatchSize..] == s[BatchSize..] + t;
      BatchesAppend(s[BatchSize..], t, full - 1);
    }
  }

  /** The vector index as main uses it: the batches upserted so far, in call order. */
  class VectorIndex<R> {
    var upserts: seq<seq<R>>

    constructor ()
      ensures upserts == []
    {
      upserts := [];
    }

    method Upsert(vectors: seq<R>)
      modifies this
      ensures upserts == old(upserts) + [vectors]
    {
      upserts := upserts + [vectors];
    }
  }

  /** The walk over the data directory: the corpus files, in walk order. */
  method CorpusPaths(files: seq<FileEntry>) returns (paths: seq<FileEntry>)
    ensures paths == SelectFiles(files)
  {
    paths := [];
    for i := 0 to |files|
      invariant paths == SelectFiles(files[..i])
    {
      assert files[..i + 1][..i] == files[..i];
      if IsCorpusFile(files[i].name) {
        paths := paths + [files[i]];
      }
    }
    assert files[..|files|] == files;
  }

  /**
   * The inner loop of main for one document: one record per chunk, appended
   * to the buffer, which is upserted and emptied whenever it holds 100.
   * The ghost parameters say what was flushed before (full batches only) and
   * which payloads the buffer and the flushed records stand for.
   */
  method IngestDocument<Id, V>(index: VectorIndex<Record<Id, V>>, doc: Document,
                               chunk: string -> seq<string>, embed: string -> V, newId: nat -> Id,
                               vectors0: seq<Record<Id, V>>, drawn0: nat,
                               ghost flushed0: seq<Record<Id, V>>, ghost full0: nat,
                               ghost before: seq<Metadata>, ghost base: seq<seq<Record<Id, V>>>)
    returns (vectors: seq<Record<Id, V>>, drawn: nat, ghost flushed: seq<Record<Id, V>>, ghost full: nat)
    requires flushed0 + vectors0 == RecordsOf(before, embed, newId)
    requires drawn0 == |flushed0| + |vectors0|
    requires |flushed0| == full0 * BatchSize && |vectors0| < BatchSize
    requires index.upserts == base + Batches(flushed0)
    modifies index
    ensures flushed + vectors == RecordsOf(before + DocumentPayloads(doc, chunk), embed, newId)
    ensures drawn == |flushed| + |vectors|
    ensures |flushed| == full * BatchSize && |vectors| < BatchSize
    ensures index.upserts == base + Batches(flushed)
  {
    vectors, drawn, flushed, full := vectors0, drawn0, flushed0, full0;
    var chunks := chunk(doc.text);
    ghost var mine := DocumentPayloads(doc, chunk);
    for j := 0 to |chunks|
      invariant flushed + vectors == RecordsOf(before + mine[..j], embed, newId)
      invariant drawn == |flushed| + |vectors|
      invariant |flushed| == full * BatchSize && |vectors| < BatchSize
      invariant index.upserts == base + Batches(flushed)
    {
      var ch := chunks[j];
      assert before + mine[..j + 1] == (before + mine[..j]) + [Metadata(ch, doc.source)];
      RecordsOfAppend(before + mine[..j], Metadata(ch, doc.source), embed, newId);
      vectors := vectors + [Record(newId(drawn), embed(ch), Metadata(ch, doc.source))];
      drawn := drawn + 1;
      if |vectors| >= BatchSize {
        index.Upsert(vectors);
        BatchesAppend(flushed, vectors, full);
        flushed, full := flushed + vectors, full + 1;
        vectors := [];
      }
    }
    assert mine[..|chunks|] == mine;
  }

  /**
   * The outer loop of main: the documents in order, leaving in the buffer the
   * records generated since the last full batch was upserted.
   */
  method IngestDocuments<Id, V>(index: VectorIndex<Record<Id, V>>, docs: seq<Document>,
                                chunk: string -> seq<string>, embed: string -> V, newId: nat -> Id)
    returns (vectors: seq<Record<Id, V>>, ghost flushed: seq<Record<Id, V>>, ghost full: nat)
    modifies index
    ensures flushed + vectors == Records(docs, chunk, embed, newId)
    ensures |flushed| == full * BatchSize && |vectors| < BatchSize
    ensures index.upserts == old(index.upserts) + Batches(flushed)
  {
    vectors, flushed, full := [], [], 0;
    var drawn: nat := 0;
    for i := 0 to |docs|
      invariant flushed + vectors == RecordsOf(Payloads(docs[..i], chunk), embed, newId)
      invariant drawn == |flushed| + |vectors|
      invariant |flushed| == full * BatchSize && |vectors| < BatchSize
      invariant index.upserts == old(index.upserts) + Batches(flushed)
    {
      vectors, drawn, flushed, full :=
        IngestDocument(index, docs[i], chunk, embed, newId, vectors, drawn,
                       flushed, full, Payloads(docs[..i], chunk), old(index.upserts));
      assert docs[..i + 1][..i] == docs[..i];
    }
    assert docs[..|docs|] == docs;
  }

  /**
   * main: select the corpus files (returning without any upsert when there
   * are none), read them into documents, generate one record per chunk, and
   * upsert the records in batches of 100 with a final flush of the rest.
   */
  method Ingest<Id, V>(index: VectorIndex<Record<Id, V>>, files: seq<FileEntry>,
                       chunk: string -> seq<string>, embed: string -> V, newId: nat -> Id)
    modifies index
    ensures SelectFiles(files) == [] ==> index.upserts == old(index.upserts)
    ensures index.upserts
         == old(index.upserts) + Batches(Records(ReadDocuments(SelectFiles(files)), chunk, embed, newId))
  {
    var paths := CorpusPaths(files);
    if paths == [] {
      return;
    }

    var docs := ReadDocuments(paths);
    ghost var flushed, full;
    var vectors;
    vectors, flushed, full := IngestDocuments(index, docs, chunk, embed, newId);
    if |vectors| > 0 {
      index.Upsert(vectors);
      BatchesAppend(flushed, vectors, full);
    } else {
      assert flushed + vectors == flushed;
    }
  }
}
