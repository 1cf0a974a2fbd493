# nfl-llm: answer cache and index persistence, modelled in Dafny

The repository is a Streamlit page for asking questions about the NFL rule
book. A llama_index retrieval index answers them, with OpenAI behind it. This
project models the logic of `pages/1_OpenAI_Llama.py` that has any behaviour
to state:

* **The answer cache** (lines 73-81). Each question is lower-cased and looked
  up in the session store (`st.session_state`). A hit returns the stored value
  and makes no call to the paid service. A miss calls the query engine once
  with the question as typed. It then stores `str(response)` under the
  lower-cased key, and after that the full response under the reserved key
  `last_llama_response`. A query that raises stores nothing.
* **The history listing** (lines 93-100). The loop walks the session entries
  in order and copies into a fresh `question_answer_dict` every entry except
  two: the reserved key, and, when a question was just submitted, the entry
  whose lower-cased key equals that question's lower-cased text.
* **Build or load** (`persist_data`, lines 18-29). When the storage directory
  does not exist, the corpus is read, an index is built and that index is
  persisted. Otherwise the index is loaded from storage. `load_llama` (lines
  32-35) memoises this for each pair of directories.
* **`stream_data`** (lines 43-47). The reply text is split on `' '`, and each
  piece is yielded with a trailing `' '`.

Layout, one module per file:

* `Wrappers`: Option and Result.
* `Text`: ASCII `lower()`.
* `Stream`: `split(' ')`, `' '.join` and `stream_data`.
* `OrderedMap`: a Python dict as the sequence of its entries in insertion
  order. `d[k] = v` overwrites an existing key where it stands and appends a
  new key at the end.
* `AnswerCache`: the cache step as a function on the session entries, and its
  lemmas.
* `History`: the listing filter as a function, and its lemmas.
* `ChatPage`: the imperative side. The class `QueryEngine` counts upstream
  calls. The class `Session` holds the session store; its method `Ask` is the
  cache block, `ListHistory` is the history loop, and `RunPage` is one run of the
  script.
* `IndexStore`: the document directory (`Corpus`) and the storage directory
  (`Storage`) as classes with ghost read and write counters; `persist_data` as
  the function `ObtainIndex` and the method `PersistData`; the
  `st.cache_resource` memo as the class `ResourceCache`.

The upstream service is an oracle `(prompt, n) -> Result<Response,
QueryError>`. It gives the answer to a prompt on the service's n-th call, so
repeated calls may answer differently or fail. `Err` stands for the exception
`query_engine.query` raises. The session value is either the answer text or
the full response, because the source stores both kinds in the same
dictionary.

Four behaviours of the code that a reader might not expect, modelled as
written:

* The history leaves out the question just asked, as well as the reserved key.
* On a miss the reply is the full response; on a later hit it is the stored
  text. Only the displayed text, `str(...)`, is the same in both cases
  (`CaseInsensitiveReuse`).
* The last full response shares the dictionary with the questions, so a
  question typed as any casing of `last_llama_response` collides with it.
  This is modelled as written: on a miss the second store wins, and right
  after another question is answered on a miss, such a prompt is a hit that
  returns that other question's full response (`CollisionReturnsOtherAnswer`).
* The error kinds `CorpusUnavailable`, `StorageWriteFailed` and
  `StorageCorrupt` stand for the exceptions the library calls raise. The code
  does not catch any of them.

## Model

| member | source | states |
|---|---|---|
| `Text.Lower` | pages/1_OpenAI_Llama.py:76 | `lower()` keeps the length, leaves no capital letter, and leaves every character that is not a capital letter as it is |
| `Text.LowerEqualIff` | pages/1_OpenAI_Llama.py:76 | two questions have the same cache key exactly when they have the same length and differ at most in the case of ASCII letters |
| `Text.LowerIdempotent` | pages/1_OpenAI_Llama.py:94 | lower-casing a stored key again changes nothing, so the history test on `old_question.lower()` sees the key itself |
| `Stream.StreamData` | pages/1_OpenAI_Llama.py:43-47 | `stream_data` yields at least one chunk, and every chunk is non-empty and ends with a space (its count and concatenation are in `ChunkCount` and `StreamConcat`) |
| `Stream.Split` | pages/1_OpenAI_Llama.py:45 | `split(' ')` always yields at least one piece, even for the empty text |
| `Stream.SplitHasNoSpace` | pages/1_OpenAI_Llama.py:45 | no piece of `split(' ')` contains a space |
| `Stream.SplitCount` | pages/1_OpenAI_Llama.py:45 | `split(' ')` yields one piece more than the text has spaces |
| `Stream.JoinSplit` | pages/1_OpenAI_Llama.py:45 | joining the pieces with single spaces gives back the text |
| `Stream.SplitJoin` | pages/1_OpenAI_Llama.py:45 | splitting a join of space-free words gives back the words, so split and join are mutually inverse |
| `Stream.ChunksEndWithSpace` | pages/1_OpenAI_Llama.py:45-46 | every chunk `stream_data` yields ends with a space, and that is its only space |
| `Stream.ChunkCount` | pages/1_OpenAI_Llama.py:45-46 | `stream_data` yields one chunk more than the text has spaces |
| `Stream.StreamConcat` | pages/1_OpenAI_Llama.py:45-46 | the chunks written out one after another spell the text followed by one space |
| `OrderedMap.Find` | pages/1_OpenAI_Llama.py:76-77 | a lookup that succeeds returns the value of an entry with that key, and a lookup fails exactly when no entry has the key |
| `OrderedMap.Put` | pages/1_OpenAI_Llama.py:80-81 | after `d[k] = v`, looking up `k` gives `v` (the effect on other keys and positions is in `PutFind`, `PutKeys` and `PutPosition`) |
| `OrderedMap.FindKeys` | pages/1_OpenAI_Llama.py:76 | a key is found in the session exactly when it is one of its keys |
| `OrderedMap.FindEntry` | pages/1_OpenAI_Llama.py:77 | with unique keys, the value looked up for a key is that of its one entry |
| `OrderedMap.PutFind` | pages/1_OpenAI_Llama.py:80-81 | after `d[k] = v`, `k` maps to `v` and every other key maps to what it did before |
| `OrderedMap.PutKeys` | pages/1_OpenAI_Llama.py:80-81 | `d[k] = v` adds `k` to the keys and no other key |
| `OrderedMap.PutUnique` | pages/1_OpenAI_Llama.py:80-81 | `d[k] = v` keeps the keys unique |
| `OrderedMap.PutPosition` | pages/1_OpenAI_Llama.py:80-81 | a new key is appended at the end; an existing key is overwritten in place and every other entry keeps its position |
| `AnswerCache.AskStep` | pages/1_OpenAI_Llama.py:76-81 | one question costs at most one upstream call, and it costs none exactly when its lower-cased key is already in the session |
| `AnswerCache.AskHit` | pages/1_OpenAI_Llama.py:76-77 | on a hit the stored value is returned, no upstream query is made and the session is unchanged |
| `AnswerCache.AskMiss` | pages/1_OpenAI_Llama.py:78-81 | on a miss exactly one query is made, with the prompt as typed. On failure nothing is stored and the error is returned. On success the key maps to `str(response)`, `last_llama_response` maps to the full response (also when the key is that string), the full response is returned, and every other key is unchanged |
| `AnswerCache.AskKeys` | pages/1_OpenAI_Llama.py:76-81 | keys are only ever added, a successful ask leaves its key populated, and the keys stay unique |
| `AnswerCache.CaseInsensitiveReuse` | pages/1_OpenAI_Llama.py:76-80 | after `p` is answered, asking any `q` with the same lower case makes no further query, leaves the session unchanged and displays the same text |
| `AnswerCache.FailureIsRetried` | pages/1_OpenAI_Llama.py:79-81 | a failed query leaves the session unchanged, and asking the same key again makes another upstream query |
| `AnswerCache.DisplayHitMatchesMiss` | pages/1_OpenAI_Llama.py:80-89 | the text shown on a miss, `str(response)`, is the text shown on a later hit on the stored `str(response)` |
| `AnswerCache.CollisionReturnsOtherAnswer` | pages/1_OpenAI_Llama.py:76-81 | right after a question is answered on a miss, asking any question whose lower case is `last_llama_response` is a hit that returns the first question's full response, with no query and no change to the session |
| `AnswerCache.CallsCountDistinctKeys` | pages/1_OpenAI_Llama.py:73-81 | over a run of passes through the cache block (the page makes one only for a non-empty prompt; the count holds for every prompt) with a service that always answers and no collision with the reserved key, the upstream call count equals the number of distinct lower-cased questions not already stored |
| `History.Filtered` | pages/1_OpenAI_Llama.py:93-100 | the listing has at most as many entries as the session, and every listed question passes the loop's test (`Listed`): it is not the reserved key and not the question just submitted |
| `History.FilteredConcat` | pages/1_OpenAI_Llama.py:93-100 | the listing keeps the session order: filtering distributes over concatenation |
| `History.FilteredMember` | pages/1_OpenAI_Llama.py:93-100 | an entry is listed exactly when it is in the session, its key is not `last_llama_response` and, when a prompt is present, its lower case differs from the prompt's |
| `History.FilteredFind` | pages/1_OpenAI_Llama.py:94-100 | every listed key carries its session value, and a key that the filter drops is absent from the listing |
| `History.FilteredUnique` | pages/1_OpenAI_Llama.py:100 | the listing has unique keys when the session does |
| `History.CurrentQuestionNotListed` | pages/1_OpenAI_Llama.py:94-95 | the key of the question just submitted, and the reserved key, are never listed |
| `ChatPage.QueryEngine.Query` | pages/1_OpenAI_Llama.py:79 | a query is one more upstream call, and it returns the oracle's answer for that call |
| `ChatPage.Session.Ask` | pages/1_OpenAI_Llama.py:73-81 | the cache block keeps the session keys unique, and it leaves the session, reply and call count exactly as `AskStep` gives them |
| `ChatPage.Session.ListHistory` | pages/1_OpenAI_Llama.py:93-100 | the loop, with its `continue` and dictionary stores, builds exactly `Filtered(entries, prompt)` |
| `ChatPage.Session.RunPage` | pages/1_OpenAI_Llama.py:67-100 | with no input or an empty one, nothing is asked and all entries except the reserved one are listed. Otherwise the question is asked; a raised error ends the run, and on success the reply is typed out as `stream_data(str(reply))` before the listing |
| `ChatPage.AskTwiceInTwoCases` | pages/1_OpenAI_Llama.py:73-100 | asking a non-empty question `p` into an empty session and then any `q` with the same lower case with a service that answers `p` makes one upstream call, shows the same typed reply twice, and the second run lists no earlier question (also when `p` is a casing of the reserved key) |
| `IndexStore.ObtainIndex` | pages/1_OpenAI_Llama.py:18-29 | `persist_data` reads the corpus exactly when the storage does not exist, writes the storage at most once and exactly when it built an index and the write succeeded, and after a success the storage holds the index returned |
| `IndexStore.BuildPath` | pages/1_OpenAI_Llama.py:20-25 | without storage the corpus is read once and the index is built from all of it. A successful build is written once, and the storage then exists and holds it. A failure leaves the storage unchanged and reports `CorpusUnavailable` when the corpus cannot be read and `StorageWriteFailed` when the write fails |
| `IndexStore.LoadPath` | pages/1_OpenAI_Llama.py:26-28 | with storage the index is loaded from it, the corpus is not read and storage is not written; an unreadable snapshot is an error |
| `IndexStore.PersistThenLoad` | pages/1_OpenAI_Llama.py:18-29 | a build followed by a later start loads the same index, reading no corpus (even a changed one) and writing nothing |
| `IndexStore.Corpus.LoadData` | pages/1_OpenAI_Llama.py:22 | reading the corpus counts one read and returns its documents or `CorpusUnavailable` |
| `IndexStore.Storage.Persist` | pages/1_OpenAI_Llama.py:25 | a write that succeeds makes the storage exist and hold the index, counting one write; a failed write changes nothing |
| `IndexStore.Storage.Load` | pages/1_OpenAI_Llama.py:12-15 | loading returns the stored index, or `StorageCorrupt` when it cannot be read back |
| `IndexStore.PersistData` | pages/1_OpenAI_Llama.py:18-29 | `persist_data` returns the index and leaves storage and the read and write counters as `ObtainIndex` gives them |
| `IndexStore.ResourceCache.LoadLlama` | pages/1_OpenAI_Llama.py:32-35 | a memoised pair of directories returns its index and touches neither directory; otherwise `persist_data` runs, and only a successful result is remembered |
| `IndexStore.LoadTwice` | pages/1_OpenAI_Llama.py:32-35 | two calls for the same directories return the same result. A memoised pair reads and writes nothing; otherwise, when the first call succeeds, the corpus is read once and the storage written once if the storage was absent, and neither if it was present |

## Left out

- Streamlit presentation: page configuration, containers, chat messages, `write_stream`, dividers, the expander, `st.table` and `st.write` (lines 59-61, 70-72, 83-89, 96-99, 103-118). It is rendering. The model keeps only what those calls are given: the typed chunks and the history entries.
- Home.py: it sets the page configuration and a title and has no logic.
- llama_index internals: `VectorStoreIndex.from_documents`, `SimpleDirectoryReader.load_data`, `StorageContext`, `load_index_from_storage` and the persisted index format. They are foreign code. An index is identified here by the documents it was built from, and the stored snapshot is the index itself or unreadable.
- `load_engine` / `as_query_engine` and `setup` (lines 38-40, 50-56, 64): their wiring is not modelled. The engine is given as an oracle and does not depend on the index. `setup` calls `load_llama` with its defaults, `./storage` and `data`.
- The OpenAI call and the format of `str(response)`: these are network and opaque output. `Str` is the answer field of an opaque response.
- `lower()` is modelled as ASCII case folding; Python also folds non-ASCII letters.
- `time.sleep` in `stream_data`, and the single-flight locking of `st.cache_resource` across threads: these are timing and concurrency.
- `FromDocuments` is total: `VectorStoreIndex.from_documents` (line 23) sends the documents to the embedding service and raises when that fails, and the model has no such failure between reading the corpus and writing the storage (in the program that failure, too, leaves the storage unwritten). A directory with no files, on which `SimpleDirectoryReader` (line 22) raises, is modelled only as `files == None`, that is `CorpusUnavailable`.
- `os.path.exists` is reduced to a flag. A persist that fails is modelled as changing nothing, although on disk it could leave a partly written directory that a later start would try to load.
- `st.session_state.to_dict()` is assumed to iterate in insertion order and to hold only the keys this page stores.

