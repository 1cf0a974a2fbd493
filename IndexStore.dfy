/** The retrieval index's life cycle: `persist_data` builds the index from
    the document corpus and persists it when the storage directory does not
    exist, and otherwise loads it from storage; `load_llama` memoises that,
    per pair of directories, for the life of the process. */
module IndexStore {
  import opened Wrappers

  /** One document of the corpus; its format is the reader's business. */
  datatype Document = Document(name: string, text: string)

  /** A retrieval index. Its vectors are opaque here and it is identified by
      the documents it was built from. */
  datatype Index = Index(documents: seq<Document>)

  /** `VectorStoreIndex.from_documents`. */
  function FromDocuments(docs: seq<Document>): Index
  {
    Index(docs)
  }

  datatype IndexError = CorpusUnavailable | StorageWriteFailed | StorageCorrupt

  /** The outcome of obtaining an index: the index or the error, what the
      storage directory holds afterwards, and how often the corpus was read
      and the storage written. */
  datatype Obtained = Obtained(
    result: Result<Index, IndexError>,
    present: bool,
    snapshot: Option<Index>,
    corpusReads: nat,
    storageWrites: nat)

  /** `persist_data` as a function of the storage directory (whether it
      exists, the index it holds, or `None` when that cannot be read back,
      and whether it can be written) and of the corpus (`None` when it
      cannot be read). */
  function ObtainIndex(present: bool, snapshot: Option<Index>, writable: bool, corpus: Option<seq<Document>>): (o: Obtained)
    ensures o.corpusReads == if present then 0 else 1
    ensures o.storageWrites == 1 <==> !present && o.result.Ok?
    ensures o.storageWrites <= 1
    ensures o.result.Ok? ==> o.present && o.snapshot == Some(o.result.value)
  {
    if !present then
      match corpus
      case None => Obtained(Err(CorpusUnavailable), present, snapshot, 1, 0)
      case Some(docs) =>
        var index := FromDocuments(docs);
        if writable then Obtained(Ok(index), true, Some(index), 1, 1)
        else Obtained(Err(StorageWriteFailed), present, snapshot, 1, 0)
    else
      match snapshot
      case None => Obtained(Err(StorageCorrupt), present, snapshot, 0, 0)
      case Some(index) => Obtained(Ok(index), present, snapshot, 0, 0)
  }

  /** Without storage the corpus is read once and the index built from all
      of it; a successful build is written once, after which the storage
      exists and holds that index. A failure leaves the storage as it was. */
  lemma BuildPath(snapshot: Option<Index>, writable: bool, corpus: Option<seq<Document>>)
    ensures var o := ObtainIndex(false, snapshot, writable, corpus);
            && o.corpusReads == 1
            && (o.result.Ok? <==> corpus.Some? && writable)
            && (o.result.Ok? ==>
                  && o.result.value == FromDocuments(corpus.value)
                  && o.present && o.snapshot == Some(o.result.value) && o.storageWrites == 1)
            && (o.result.Err? ==> !o.present && o.snapshot == snapshot && o.storageWrites == 0)
            && (corpus.None? ==> o.result == Err(CorpusUnavailable))
            && (corpus.Some? && !writable ==> o.result == Err(StorageWriteFailed))
  {
  }

  /** With storage the index is loaded from it: the corpus is not read, the
      storage is not written, and an unreadable snapshot is an error. */
  lemma LoadPath(snapshot: Option<Index>, writable: bool, corpus: Option<seq<Document>>)
    ensures var o := ObtainIndex(true, snapshot, writable, corpus);
            && o.corpusReads == 0 && o.storageWrites == 0
            && o.present && o.snapshot == snapshot
            && o.result == if snapshot.Some? then Ok(snapshot.value) else Err(StorageCorrupt)
  {
  }

  /** Building, persisting and then loading on the next start gives the same
      index as the build, and that second start neither reads the corpus nor
      writes the storage, even if the corpus has changed since. */
  lemma PersistThenLoad(snapshot: Option<Index>, writable: bool, corpus: Option<seq<Document>>, later: Option<seq<Document>>)
    requires ObtainIndex(false, snapshot, writable, corpus).result.Ok?
    ensures var first := ObtainIndex(false, snapshot, writable, corpus);
            var second := ObtainIndex(first.present, first.snapshot, writable, later);
            && second.result == first.result
            && second.corpusReads == 0 && second.storageWrites == 0
            && second.present == first.present && second.snapshot == first.snapshot
  {
  }

  /** The document directory. */
  class Corpus {
    const dir: string
    /** The documents under `dir`, or `None` when it cannot be read; a
        directory holding no files is `None` too, since the reader raises on it. */
    const files: Option<seq<Document>>
    ghost var readCount: nat

    constructor (dir: string, files: Option<seq<Document>>)
      ensures this.dir == dir && this.files == files && readCount == 0
    {
      this.dir := dir;
      this.files := files;
      readCount := 0;
    }

    /** `SimpleDirectoryReader(dir).load_data()`. */
    method LoadData() returns (docs: Result<seq<Document>, IndexError>)
      modifies this
      ensures readCount == old(readCount) + 1
      ensures docs == if files.Some? then Ok(files.value) else Err(CorpusUnavailable)
    {
      readCount := readCount + 1;
      docs := if files.Some? then Ok(files.value) else Err(CorpusUnavailable);
    }
  }

  /** The storage directory. */
  class Storage {
    const dir: string
    /** `os.path.exists(dir)`. */
    var present: bool
    /** The index the directory holds, or `None` when it cannot be read back. */
    var snapshot: Option<Index>
    const writable: bool
    ghost var writeCount: nat

    constructor (dir: string, present: bool, snapshot: Option<Index>, writable: bool)
      ensures this.dir == dir && this.present == present && this.snapshot == snapshot
      ensures this.writable == writable && writeCount == 0
    {
      this.dir := dir;
      this.present := present;
      this.snapshot := snapshot;
      this.writable := writable;
      writeCount := 0;
    }

    /** `index.storage_context.persist(persist_dir=dir)`. */
    method Persist(index: Index) returns (ok: bool)
      modifies this
      ensures ok == writable
      ensures ok ==> present && snapshot == Some(index) && writeCount == old(writeCount) + 1
      ensures !ok ==> present == old(present) && snapshot == old(snapshot) && writeCount == old(writeCount)
    {
      ok := writable;
      if ok {
        present, snapshot := true, Some(index);
        writeCount := writeCount + 1;
      }
    }

    /** `load_local_storage_index(dir)`. */
    method Load() returns (index: Result<Index, IndexError>)
      ensures index == if snapshot.Some? then Ok(snapshot.value) else Err(StorageCorrupt)
    {
      index := if snapshot.Some? then Ok(snapshot.value) else Err(StorageCorrupt);
    }
  }

  /** `persist_data(storage_dir, data_directory)`. */
  method PersistData(storage: Storage, corpus: Corpus) returns (index: Result<Index, IndexError>)
    modifies storage, corpus
    ensures var o := ObtainIndex(old(storage.present), old(storage.snapshot), storage.writable, corpus.files);
            && index == o.result
            && storage.present == o.present && storage.snapshot == o.snapshot
            && corpus.readCount == old(corpus.readCount) + o.corpusReads
            && storage.writeCount == old(storage.writeCount) + o.storageWrites
  {
    if !storage.present {
      var docs := corpus.LoadData();
      if docs.Err? {
        return Err(docs.error);
      }
      var built := FromDocuments(docs.value);
      var ok := storage.Persist(built);
      if !ok {
        return Err(StorageWriteFailed);
      }
      index := Ok(built);
    } else {
      index := storage.Load();
    }
  }

  /** The `st.cache_resource` memo of `load_llama`: one index per pair of
      directories, kept for the life of the process. A call that raised is
      not remembered. */
  class ResourceCache {
    var memo: map<(string, string), Index>

    constructor ()
      ensures memo == map[]
    {
      memo := map[];
    }

    /** `load_llama(storage_dir, data_directory)`. */
    method LoadLlama(storage: Storage, corpus: Corpus) returns (index: Result<Index, IndexError>)
      modifies this, storage, corpus
      ensures var key := (storage.dir, corpus.dir);
              if key in old(memo) then
                && index == Ok(old(memo)[key]) && memo == old(memo)
                && unchanged(storage) && unchanged(corpus)
              else
                var o := ObtainIndex(old(storage.present), old(storage.snapshot), storage.writable, corpus.files);
                && index == o.result
                && storage.present == o.present && storage.snapshot == o.snapshot
                && corpus.readCount == old(corpus.readCount) + o.corpusReads
                && storage.writeCount == old(storage.writeCount) + o.storageWrites
                && memo == if index.Ok? then old(memo)[key := index.value] else old(memo)
    {
      var key := (storage.dir, corpus.dir);
      if key in memo {
        return Ok(memo[key]);
      }
      index := PersistData(storage, corpus);
      if index.Ok? {
        memo := memo[key := index.value];
      }
    }
  }

  /** Two calls of `load_llama` for the same directories return the same
      result. A memoised pair touches neither directory; otherwise, when the
      first call succeeds, the corpus is read and the storage written once
      each if the storage was absent, and neither if it was present. */
  method LoadTwice(cache: ResourceCache, storage: Storage, corpus: Corpus)
    returns (first: Result<Index, IndexError>, second: Result<Index, IndexError>)
    modifies cache, storage, corpus
    ensures second == first
    ensures (storage.dir, corpus.dir) in old(cache.memo) ==>
              corpus.readCount == old(corpus.readCount) && storage.writeCount == old(storage.writeCount)
    ensures first.Ok? && (storage.dir, corpus.dir) !in old(cache.memo) ==>
              && corpus.readCount == old(corpus.readCount) + (if old(storage.present) then 0 else 1)
              && storage.writeCount == old(storage.writeCount) + (if old(storage.present) then 0 else 1)
  {
    first := cache.LoadLlama(storage, corpus);
    second := cache.LoadLlama(storage, corpus);
  }
}
