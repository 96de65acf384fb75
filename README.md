# Onboarding-Buddy HR assistant: a verified model of its core

Onboarding-Buddy answers employees' HR questions. Answering a question goes like this:

- It looks the employee up in a Neo4j graph: name, employment type, department, manager, mentor and college.
- It retrieves policy chunks for the question from a Pinecone vector index.
- It builds a prompt that tells the model to answer only from the retrieved policy text.
- It asks a language model through Ollama, then returns the answer. In debug mode it also returns the raw chunks.

A separate batch ingester fills the vector index. It cuts every `.txt` policy document into overlapping word windows and stores one record per window.

The model has six modules, one file each:

- `pystr.dfy` (`PyStr`): the Python `str` operations the core relies on, written out.
  - `split()`, which splits on Python's whitespace set.
  - `sep.join`.
  - Slicing, including negative and out-of-range bounds.
  - `lower()` on ASCII.
  - `endswith`.
  - Left-to-right, non-overlapping `replace`.
- `vectorstore.dfy` (`VectorStore`): the chunk metadata, upsert records and search matches shared by the ingester and the pipeline.
- `graph.dfy` (`Graph`): `get_user_context` and `list_people_by_role` over an abstract session.
  - A session maps each Cypher query to the records it yields.
  - The ordering and column shape that the query text promises is the predicate `Conforms`. It is assumed where needed, never built in.
- `ingestion.dfy` (`Ingestion`): the chunker and the record assembly.
  - `chunk_text` is a `while`-loop method. It is proved equal to a closed form, `Chunks`, and the window properties are proved about that closed form.
  - `ingest_all_documents` is a pair of nested loops. They are proved equal to `Records(Metadata(docs))`.
- `orchestrator.dfy` (`Orchestrator`): `answer_question` as a function of its three collaborators, passed in as function values.
  - The reply records each collaborator call with its argument, so the short-circuit and the call order become statements about that log.
  - The prompt is the template's eighteen lines joined by newlines, which is exactly what the source's triple-quoted f-string spells.
- `chat.dfy` (`ChatApi`): the `/chat` handler. It builds its response map in place, as the source does.

Three behaviours of the code a reader might not expect, which the model keeps:

- With `debug` set and an unknown employee, the code returns `"context": null`; it does not omit `context`. `ChatApi.Chat` states this.
- The roster is not sorted by the client. Its order is the database's order, and it is ascending by id only because the query says `ORDER BY`. `Graph.RosterSortedById` needs `Conforms`.
- `name` and `employment_type` are read by subscript, so a record lacking them raises. This is the `Usable` precondition of `AnswerQuestion`, and `Orchestrator.GraphLookupIsUsable` shows that the graph client meets it on a database that conforms to its query.

## Model

| member | source | states |
|---|---|---|
| `PyStr.Lower` | backend/ingestion/ingest_docs.py:52 | `lower()` keeps the length, leaves no capital A–Z, moves each capital 32 code points up to its small letter and leaves every other character unchanged |
| `PyStr.IsSpace` | backend/ingestion/ingest_docs.py:33 | defines the characters Python's `str.isspace()` accepts, on which `split()` breaks |
| `PyStr.Split` | backend/ingestion/ingest_docs.py:33 | defines `str.split()` with no argument: the maximal runs of non-whitespace, in order |
| `PyStr.Join` | backend/ingestion/ingest_docs.py:38 | defines `sep.join(parts)`: the parts in order with `sep` between neighbours, `""` for no parts |
| `PyStr.EndsWith` | backend/ingestion/ingest_docs.py:52 | defines `s.endswith(suffix)`: the last `len(suffix)` characters are `suffix` |
| `PyStr.PySlice` | backend/ingestion/ingest_docs.py:38 | defines Python's `words[i:j]`: a negative bound counts from the end, an out-of-range bound is clamped, and the slice is empty when the start is not before the end |
| `PyStr.Replace` | backend/ingestion/ingest_docs.py:62 | defines `str.replace(pat, rep)`: one scan from the left, replacing non-overlapping occurrences |
| `PyStr.SplitYieldsWords` | backend/ingestion/ingest_docs.py:33 | every element of `split()` is non-empty and free of whitespace |
| `PyStr.SplitEmptyIffAllSpace` | backend/ingestion/ingest_docs.py:33 | `split()` is empty exactly when the text is empty or all whitespace |
| `PyStr.SplitJoinRoundTrip` | backend/ingestion/ingest_docs.py:33-38 | splitting the single-space join of words gives back the same words |
| `PyStr.PySliceWindow` | backend/ingestion/ingest_docs.py:38 | `words[i:i+size]` with `0 <= i <= n` is `words[i..min(i+size, n)]` |
| `PyStr.JoinPartAt` | backend/rag/orchestrator.py:25 | in `sep.join(parts)` every part sits at its offset, in order |
| `PyStr.JoinSepAt` | backend/rag/orchestrator.py:25 | the separator follows every part except the last |
| `PyStr.JoinEnd` | backend/rag/orchestrator.py:25 | the last part ends the joined string |
| `PyStr.PartSepAt` | backend/rag/orchestrator.py:27-44 | each non-final part and its separator sit at its offset, and the next part starts right after |
| `PyStr.ThreePartsAt` | backend/rag/orchestrator.py:39-41 | three consecutive parts and their separators appear together, in order |
| `PyStr.OffsetPrefix` | backend/rag/orchestrator.py:27-44 | a part's offset depends only on the parts before it |
| `PyStr.ReplaceAbsent` | backend/ingestion/ingest_docs.py:62 | `replace` leaves a string without the pattern unchanged |
| `PyStr.ReplaceTrailing` | backend/ingestion/ingest_docs.py:62 | for a pattern no proper prefix of which is also a suffix, replacing in `base + pat` replaces the trailing `pat` by itself |
| `Ingestion.IndexAfter` | backend/ingestion/ingest_docs.py:35-40 | defines the loop index `i` after `k` passes: `size - overlap` added `k` times to 0 |
| `Ingestion.Window` | backend/ingestion/ingest_docs.py:38 | defines `words[i:i + size]` for the index `i` of pass `k` |
| `Ingestion.Chunks` | backend/ingestion/ingest_docs.py:32-42 | defines what `chunk_text` returns: each word window joined with single spaces |
| `Ingestion.ChunkText` | backend/ingestion/ingest_docs.py:32-42 | the loop returns the closed form `Chunks`; needs only `size > overlap` (the loop's termination) |
| `Ingestion.ChunkCount` | backend/ingestion/ingest_docs.py:37-40 | the number of passes is the least `c` whose index `c·step` reaches the word count |
| `Ingestion.IndexAfterIsProduct` | backend/ingestion/ingest_docs.py:40 | after `k` passes the index is `k * (size - overlap)` |
| `Ingestion.ChunkCountIsCeiling` | backend/ingestion/ingest_docs.py:37-40 | there are exactly `ceil(n / step)` chunks |
| `Ingestion.ChunksEmptyIffBlank` | backend/ingestion/ingest_docs.py:33-37 | no chunks exactly when the text is empty or all whitespace |
| `Ingestion.WindowWords` | backend/ingestion/ingest_docs.py:38 | window `k` is `words[k·step .. min(k·step + size, n)]`, with its start inside the text |
| `Ingestion.WindowLength` | backend/ingestion/ingest_docs.py:38 | every window has between 1 and `size` words |
| `Ingestion.EveryWordCovered` | backend/ingestion/ingest_docs.py:37-40 | every word lies, at its own position, in some window |
| `Ingestion.ConsecutiveWindowsOverlap` | backend/ingestion/ingest_docs.py:38-40 | the last `overlap` words of a full window are the first `overlap` of the next |
| `Ingestion.ChunkSplitsToWindow` | backend/ingestion/ingest_docs.py:33-38 | splitting chunk `k` again yields exactly window `k` |
| `Ingestion.NoProgressWithoutPositiveStep` | backend/ingestion/ingest_docs.py:37-40 | with `size <= overlap` the index never reaches the end of a non-empty text, so the loop never ends |
| `Ingestion.AppendChunkRecords` | backend/ingestion/ingest_docs.py:72-81 | the inner loop appends one record per chunk, with the file name, policy type and chunk text |
| `Ingestion.IngestAllDocuments` | backend/ingestion/ingest_docs.py:51-84 | the upserted list is `Records(Metadata(docs))`: accepted files in listing order, chunks in order, the `j`-th id drawn for record `j` |
| `Ingestion.IsTextFile` | backend/ingestion/ingest_docs.py:52 | defines the filter `filename.lower().endswith(".txt")` |
| `Ingestion.PolicyType` | backend/ingestion/ingest_docs.py:62 | defines `filename.replace(".txt", "")` |
| `Ingestion.Metadata` | backend/ingestion/ingest_docs.py:51-81 | defines the records' metadata: per accepted file in listing order, one `{source_file, policy_type, text}` per chunk in chunk order |
| `Ingestion.Records` | backend/ingestion/ingest_docs.py:73-81 | defines the record dicts: record `j` has the `j`-th drawn id, the embedding of its chunk text and its metadata |
| `Ingestion.TextFileSuffix` | backend/ingestion/ingest_docs.py:52-53 | a file is processed exactly when its last four characters are `.` then `txt` in any case |
| `Ingestion.PolicyTypeOfTxtName` | backend/ingestion/ingest_docs.py:62 | `base.txt` with no `.txt` inside `base` has policy type `base` |
| `Ingestion.PolicyTypeWithoutLowerTxt` | backend/ingestion/ingest_docs.py:62 | a name without lower-case `.txt` (such as `A.TXT`) keeps its full name as policy type |
| `Ingestion.RecordCount` | backend/ingestion/ingest_docs.py:72-83 | the number of records is the sum of the chunk counts of the processed files |
| `Ingestion.RecordsComeFromTextFiles` | backend/ingestion/ingest_docs.py:51-81 | every record's metadata is `{source_file, policy_type, text}` of a processed file and one of its chunks |
| `Ingestion.EveryChunkRecorded` | backend/ingestion/ingest_docs.py:51-81 | chunk `k` of accepted file `i` is recorded, with that file's name and policy type, at position `TotalChunks(docs[..i]) + k` |
| `Graph.ToDict` | backend/graph/neo4j_client.py:42 | `dict(record)` has exactly the record's columns as keys |
| `Graph.ToDictAt` | backend/graph/neo4j_client.py:42 | with distinct columns each key holds its own column's value |
| `Graph.GetUserContext` | backend/graph/neo4j_client.py:18-42 | `None` exactly when the query yields no record or an empty first record; otherwise a non-empty dict |
| `Graph.ListPeopleByRole` | backend/graph/neo4j_client.py:47-77 | `[]` for a role outside the dispatch; otherwise one entry per record of the dispatched query |
| `Graph.RoleQuery` | backend/graph/neo4j_client.py:50-75 | defines the dispatch from role to query: exact comparison, `None` for any other role |
| `Graph.RoleDispatch` | backend/graph/neo4j_client.py:50-75 | exactly `intern`, `full_time`, `manager` and `mentor` run a query; the first two run the employment-type query with the role as its parameter |
| `Graph.UnlistedRoles` | backend/graph/neo4j_client.py:50-75 | `""`, `Intern`, `FULL_TIME` and `Manager` list nobody: the match is exact and case-sensitive |
| `Graph.UnknownRoleRunsNoQuery` | backend/graph/neo4j_client.py:74-75 | for an unknown role the result is `[]` whatever the database holds |
| `Graph.RosterReadsOnlyItsQuery` | backend/graph/neo4j_client.py:50-72 | the roster depends only on the records of the dispatched query |
| `Graph.RosterEntry` | backend/graph/neo4j_client.py:51-77 | on a conforming database, entry `i` is exactly `{id, name}` of record `i` |
| `Graph.RosterSortedById` | backend/graph/neo4j_client.py:51-72 | on a conforming database, the roster ascends by id |
| `Graph.ContextReadsOnlyItsQuery` | backend/graph/neo4j_client.py:35-37 | the lookup reads only the context query parameterised with the given id |
| `Graph.ContextRecordDict` | backend/graph/neo4j_client.py:26-42 | a six-column context record becomes a dict with exactly the six context keys and their values |
| `Graph.UserContextShape` | backend/graph/neo4j_client.py:18-42 | on a conforming database: `None` iff the employee is missing, else exactly the six keys with the returned values |
| `Orchestrator.IsFalsy` | backend/rag/orchestrator.py:19 | defines `not user`: no record, or an empty one |
| `Orchestrator.Render` | backend/rag/orchestrator.py:30-35 | defines how the f-string prints a value: the string itself, or `None` for a missing key or null property |
| `Orchestrator.Field` | backend/rag/orchestrator.py:32-35 | defines `user.get(key)`: the value if the key is present, else `None` |
| `Orchestrator.ChunkTexts` | backend/rag/orchestrator.py:25 | defines the list comprehension `[m["metadata"]["text"] for m in results]` |
| `Orchestrator.PolicyBlock` | backend/rag/orchestrator.py:25 | defines `docs`: the chunk texts joined with `\n\n` |
| `Orchestrator.PromptLines` | backend/rag/orchestrator.py:27-44 | defines the template's eighteen lines with their placeholders filled in |
| `Orchestrator.Prompt` | backend/rag/orchestrator.py:27-44 | defines the prompt: the template lines joined with newlines |
| `Orchestrator.AnswerQuestion` | backend/rag/orchestrator.py:17-51 | unknown user: `("User not found.", None)` after the lookup alone; else lookup, search with the question, one model call, answer = model output; context present iff debug and the user is known, with one text per result in order |
| `Orchestrator.PromptLineAt` | backend/rag/orchestrator.py:27-44 | every template line sits at its offset followed by a newline, and the next line starts after it; the prompt ends with the empty last line |
| `Orchestrator.AbsentFieldRendersNone` | backend/rag/orchestrator.py:32-35 | a missing or null manager, mentor, department or college shows as `<Label>: None` on its line |
| `Orchestrator.PromptFramesDocs` | backend/rag/orchestrator.py:39-41 | the policy text sits between the two dashed rules |
| `Orchestrator.PromptEndsWithQuestion` | backend/rag/orchestrator.py:43-44 | the prompt ends with `Question: <question>` and a newline |
| `Orchestrator.PromptPlaces` | backend/rag/orchestrator.py:27-44 | the policy text starts at a place fixed by the employee record, and the question line and the prompt's length follow from the text's and the question's lengths |
| `Orchestrator.PromptDeterminesDocs` | backend/rag/orchestrator.py:25-44 | for one employee and question, equal prompts mean equal policy texts |
| `Orchestrator.PromptDeterminesQuestion` | backend/rag/orchestrator.py:27-44 | for one employee and policy text, equal prompts mean equal questions |
| `Orchestrator.PolicyBlockInSearchOrder` | backend/rag/orchestrator.py:25 | the policy text holds each chunk text at its offset in search order, with a blank line after each but the last |
| `Orchestrator.ModelSeesGroundingPrompt` | backend/rag/orchestrator.py:23-46 | for a known user the call log is exactly lookup, search, one model call with the grounding prompt, and the answer is the model's reply to that prompt |
| `Orchestrator.EmptyRetrievalStillAsks` | backend/rag/orchestrator.py:23-49 | with no results the policy text is empty, the two rules are adjacent, the model is still asked, and a debug context is `[]` |
| `Orchestrator.UnknownUserConsultsNothing` | backend/rag/orchestrator.py:18-20 | for an unknown user the reply does not depend on the search or the model, and only the lookup is logged |
| `Orchestrator.GraphLookupIsUsable` | backend/rag/orchestrator.py:18-31 | the graph client's lookup on a conforming database never makes `answer_question` raise |
| `Orchestrator.LeaveScenario` | backend/test.py:156-198 | the leave-days scenario: the model's answer and no context; an unknown id gets `User not found.` |
| `Orchestrator.InternDebugScenario` | backend/test.py:249-283 | the intern scenario with debug: the context is both chunk texts, in order |
| `ChatApi.ContextJson` | backend/api/chat.py:21 | defines how `context` is serialised: `null` for `None`, else the list of texts |
| `ChatApi.Chat` | backend/api/chat.py:13-23 | the response holds `answer` (the orchestrator's answer) and, only with debug, `context` (its context, `null` for an unknown user, else one text per search result) |
| `ChatApi.DebugDefaultsOff` | backend/api/chat.py:7-10 | a request without `debug` does not ask for the context |

## Left out

- Network I/O to Neo4j, Pinecone and Ollama is left out: connection set-up, sessions, HTTP, the 120-second timeout, JSON decoding. The three collaborators are function parameters, and their failures (which propagate as exceptions) are not modelled.
- `ask_llm`'s request format (model name, URL, `stream: false`) is left out. The model is an arbitrary function from prompt to answer.
- `search` is an arbitrary function from question to an ordered list of matches. The top-5 limit and similarity ranking are the store's promise, not the core's.
- `embed` is a function from text to a vector of reals. Floating point is not modelled.
- `uuid.uuid4()` is modelled as `newId(j)`, the `j`-th identifier drawn. Uniqueness of identifiers is not claimed.
- `os.listdir`, `open` and `read` are left out. The listing with each file's text is the `docs` parameter, and the model follows its order, whatever order the file system gives.
- `graph.create_document_node` (backend/ingestion/ingest_docs.py:67) is left out. The graph client defines no such method, so the call raises an `AttributeError` before any record of the file is appended, and that exception ends the whole run. With any `.txt` file listed, `index.upsert` (backend/ingestion/ingest_docs.py:84) is never reached. The model describes the evident intent: records are appended for every accepted file. `Ingestion.IngestAllDocuments` therefore states the list the code is meant to upsert, not what it upserts as written.
- `index.upsert` and all `print` calls are left out. The model ends with the list that would be upserted.
- The Cypher semantics of the queries are left out. The shape and order they promise is the predicate `Graph.Conforms`, assumed where a lemma needs it.
- Property values other than strings and `null` are left out, and so are duplicate column names, which Cypher rejects.
- PyStr.Lower: restricted to ASCII letters, because the only use is the `.txt` filter. That filter compares the last characters with `.`, `t` and `x`. No non-ASCII character lower-cases to those, but characters whose lower case is longer than one character are not modelled.
- The `KeyError` that `answer_question` raises for a user record without `name` or `employment_type` (backend/rag/orchestrator.py:30-31) is not modelled. The `Usable` precondition of `Orchestrator.AnswerQuestion` and `ChatApi.Chat` excludes such records, and `Orchestrator.GraphLookupIsUsable` shows that a conforming database never yields one.
- Pydantic validation and the 422 response for missing fields are framework behaviour, and are left out.
- `backend/main.py`, `backend/api/users.py` and `frontend/app.py` are routing and UI, and are left out.
- Prompt determinism needs no lemma: `Prompt` is a function, so equal inputs give equal prompts by construction. What is proved is the converse, that the prompt determines its policy text and question.
