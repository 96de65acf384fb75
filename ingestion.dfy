/** The batch ingester: every `.txt` policy document is cut into overlapping
    word windows, and each window becomes one vector record. */
module Ingestion {
  import opened PyStr
  import opened VectorStore

  const ChunkSize: int := 50
  const ChunkOverlap: int := 25

  // ---------------------------------------------------------------------
  // Chunking

  /** The loop index `i` after `k` passes: `step` added `k` times. */
  function IndexAfter(k: nat, step: int): int {
    if k == 0 then 0 else IndexAfter(k - 1, step) + step
  }

  /** With a positive step the index grows by at least `step` per pass. */
  lemma {:induction false} IndexAfterGrows(a: nat, b: nat, step: int)
    requires a < b && step > 0
    ensures IndexAfter(a, step) + step <= IndexAfter(b, step)
    decreases b
  {
    if a + 1 < b {
      IndexAfterGrows(a, b - 1, step);
    }
  }

  /** `IndexAfterGrows` for any two passes: a later pass starts at least
      one step further, and no pass starts before an earlier one. */
  lemma IndexAfterOrder(a: nat, b: nat, step: int)
    requires step > 0
    ensures a < b ==> IndexAfter(a, step) + step <= IndexAfter(b, step)
    ensures a <= b ==> IndexAfter(a, step) <= IndexAfter(b, step)
  {
    if a < b {
      IndexAfterGrows(a, b, step);
    }
  }

  /** The index after `k` passes is `k * step`. */
  lemma {:induction false} IndexAfterIsProduct(k: nat, step: int)
    ensures IndexAfter(k, step) == k * step
  {
    if k > 0 {
      IndexAfterIsProduct(k - 1, step);
      assert k * step == (k - 1) * step + step;
    }
  }

  /** How many times the chunking loop runs over `n` words when it advances
      by `step`: the least `c` whose index reaches `n`. */
  function ChunkCount(n: int, step: int): (c: nat)
    requires step > 0
    ensures IndexAfter(c, step) >= n
    ensures c == 0 || IndexAfter(c - 1, step) < n
    decreases n
  {
    if n <= 0 then 0 else 1 + ChunkCount(n - step, step)
  }

  /** The loop count is the ceiling of `n / step`. */
  lemma ChunkCountIsCeiling(n: nat, step: int)
    requires step > 0
    ensures ChunkCount(n, step) == (n + step - 1) / step
  {
    var c := ChunkCount(n, step);
    IndexAfterIsProduct(c, step);
    if c > 0 {
      IndexAfterIsProduct(c - 1, step);
      assert (c - 1) * step == c * step - step;
    }
    QuotientUnique(n + step - 1, step, c);
  }

  /** The only `c` with `c * step <= m < c * step + step` is `m / step`. */
  lemma QuotientUnique(m: nat, step: int, c: nat)
    requires step > 0 && c * step <= m < c * step + step
    ensures c == m / step
  {
    var q := m / step;
    assert q * step <= m < q * step + step;
    IndexAfterIsProduct(c, step);
    IndexAfterIsProduct(q, step);
    IndexAfterOrder(c, q, step);
    IndexAfterOrder(q, c, step);
  }

  /** The words of window `k`: Python's `words[i : i + size]` with `i` the
      index after `k` passes. */
  function Window(words: seq<string>, size: int, step: int, k: nat): seq<string> {
    var i := IndexAfter(k, step);
    PySlice(words, i, i + size)
  }

  /** The word windows the chunking loop visits over `words`, one per pass. */
  function Windows(words: seq<string>, size: int, overlap: int): seq<seq<string>>
    requires size > overlap
  {
    var step := size - overlap;
    var n := ChunkCount(|words|, step);
    seq(n, k requires 0 <= k < n => Window(words, size, step, k))
  }

  /** What `chunk_text(text, size, overlap)` returns, in closed form: each
      window of the text's words joined with single spaces. */
  function Chunks(text: string, size: int, overlap: int): seq<string>
    requires size > overlap
  {
    var ws := Windows(Split(text), size, overlap);
    seq(|ws|, k requires 0 <= k < |ws| => Join(ws[k], " "))
  }

  /** A sequence with one entry per pass, entry `k` being window `k` joined
      with spaces, is `Chunks`. */
  lemma ChunksByWindows(text: string, size: int, overlap: int, chunks: seq<string>)
    requires size > overlap
    requires |chunks| == ChunkCount(|Split(text)|, size - overlap)
    requires forall k :: 0 <= k < |chunks| ==>
      chunks[k] == Join(Window(Split(text), size, size - overlap, k), " ")
    ensures chunks == Chunks(text, size, overlap)
  {
    var words := Split(text);
    var ws := Windows(words, size, overlap);
    var cs := Chunks(text, size, overlap);
    assert |cs| == |ws| == |chunks|;
    forall k | 0 <= k < |chunks|
      ensures chunks[k] == cs[k]
    {
      assert ws[k] == Window(words, size, size - overlap, k);
    }
  }

  /** `chunk_text`: slide a window of `size` words forward by
      `size - overlap` words at a time, joining each window with single
      spaces. The source loops forever unless `size > overlap`. */
  method ChunkText(text: string, size: int := ChunkSize, overlap: int := ChunkOverlap)
    returns (chunks: seq<string>)
    requires size > overlap
    ensures chunks == Chunks(text, size, overlap)
  {
    var words := Split(text);
    var step := size - overlap;
    ghost var count := ChunkCount(|words|, step);
    chunks := [];
    var i := 0;
    while i < |words|
      invariant i == IndexAfter(|chunks|, step)
      invariant |chunks| <= count
      invariant forall k :: 0 <= k < |chunks| ==> chunks[k] == Join(Window(words, size, step, k), " ")
      decreases |words| - i
    {
      if |chunks| == count {
        assert false;
      }
      var chunk := Join(PySlice(words, i, i + size), " ");
      chunks := chunks + [chunk];
      i := i + step;
    }
    if |chunks| < count {
      IndexAfterOrder(|chunks|, count - 1, step);
      assert false;
    }
    ChunksByWindows(text, size, overlap, chunks);
  }

  /** Text with no words, empty or all whitespace, gives no chunks, and
      only such text does. */
  lemma ChunksEmptyIffBlank(text: string, size: int, overlap: int)
    requires size > overlap
    ensures Chunks(text, size, overlap) == [] <==> AllSpace(text)
  {
    SplitEmptyIffAllSpace(text);
  }

  /** Window `k` is exactly the words `i .. min(i + size, n)`, in order,
      where `i` is the index after `k` passes. */
  lemma WindowWords(words: seq<string>, size: int, overlap: int, k: nat)
    requires 0 <= size && size > overlap
    requires k < |Windows(words, size, overlap)|
    ensures var i := IndexAfter(k, size - overlap);
      0 <= i < |words| &&
      Windows(words, size, overlap)[k] == words[i..if i + size <= |words| then i + size else |words|]
  {
    var step := size - overlap;
    var c := ChunkCount(|words|, step);
    IndexAfterOrder(0, k, step);
    IndexAfterOrder(k, c - 1, step);
    PySliceWindow(words, IndexAfter(k, step), size);
  }

  /** Every window has at least one and at most `size` words. */
  lemma WindowLength(words: seq<string>, size: int, overlap: int, k: nat)
    requires 1 <= size && size > overlap
    requires k < |Windows(words, size, overlap)|
    ensures 1 <= |Windows(words, size, overlap)[k]| <= size
  {
    WindowWords(words, size, overlap, k);
  }

  /** The pass whose window starts at or before `j` and, for
      `step <= size`, ends after it. */
  function PassCovering(j: nat, step: int): (k: nat)
    requires step > 0
    ensures IndexAfter(k, step) <= j < IndexAfter(k, step) + step
  {
    if j < step then 0 else 1 + PassCovering(j - step, step)
  }

  /** With a non-negative overlap no word is skipped: every word is, at its
      place, a word of some window. */
  lemma EveryWordCovered(words: seq<string>, size: int, overlap: int, j: nat)
    requires 0 <= overlap < size
    requires j < |words|
    ensures var ws := Windows(words, size, overlap);
      exists k :: 0 <= k < |ws| &&
        var i := IndexAfter(k, size - overlap);
        i <= j < i + |ws[k]| && ws[k][j - i] == words[j]
  {
    var step := size - overlap;
    var k := PassCovering(j, step);
    var c := ChunkCount(|words|, step);
    if k >= c {
      IndexAfterOrder(c, k, step);
      assert false;
    }
    WindowWords(words, size, overlap, k);
    var ws := Windows(words, size, overlap);
    var i := IndexAfter(k, step);
    assert i <= j < i + |ws[k]| && ws[k][j - i] == words[j];
  }

  /** When window `k` is full, its last `overlap` words are the first
      `overlap` words of window `k + 1`. */
  lemma ConsecutiveWindowsOverlap(words: seq<string>, size: int, overlap: int, k: nat)
    requires 0 <= overlap < size
    requires k + 1 < |Windows(words, size, overlap)|
    requires IndexAfter(k, size - overlap) + size <= |words|
    ensures var ws := Windows(words, size, overlap);
      |ws[k]| == size && overlap <= |ws[k + 1]| && ws[k][size - overlap..] == ws[k + 1][..overlap]
  {
    WindowWords(words, size, overlap, k);
    WindowWords(words, size, overlap, k + 1);
  }

  /** Splitting chunk `k` again gives back window `k` of the text's words:
      the chunk strings lose nothing of the windows. */
  lemma ChunkSplitsToWindow(text: string, size: int, overlap: int, k: nat)
    requires 0 <= size && size > overlap
    requires k < |Chunks(text, size, overlap)|
    ensures Split(Chunks(text, size, overlap)[k]) == Windows(Split(text), size, overlap)[k]
  {
    var words := Split(text);
    var w := Windows(words, size, overlap)[k];
    WindowWords(words, size, overlap, k);
    SplitYieldsWords(text);
    assert forall m :: 0 <= m < |w| ==> IsWord(w[m]) by {
      var i := IndexAfter(k, size - overlap);
      forall m | 0 <= m < |w| ensures IsWord(w[m]) {
        assert w[m] == words[i + m];
      }
    }
    SplitJoinRoundTrip(w);
  }

  /** Without `size > overlap` the loop index never grows: after any number
      `t` of passes over non-empty text it is still below the word count, so
      the loop never ends. */
  lemma {:induction false} NoProgressWithoutPositiveStep(n: nat, size: int, overlap: int, t: nat)
    requires size <= overlap && n > 0
    ensures IndexAfter(t, size - overlap) <= 0 < n
  {
    if t > 0 {
      NoProgressWithoutPositiveStep(n, size, overlap, t - 1);
    }
  }

  // ---------------------------------------------------------------------
  // Ingestion

  /** One directory entry with the text read from it. */
  datatype Document = Document(filename: string, text: string)

  /** The filter: `filename.lower().endswith(".txt")`. */
  predicate IsTextFile(filename: string) {
    EndsWith(Lower(filename), ".txt")
  }

  /** `policy_type = filename.replace(".txt", "")`: case-sensitive. */
  function PolicyType(filename: string): string {
    Replace(filename, ".txt", "")
  }

  /** The metadata of the records one directory entry contributes. */
  function FileMetadata(d: Document): seq<ChunkMetadata> {
    if !IsTextFile(d.filename) then []
    else
      var chunks := Chunks(d.text, ChunkSize, ChunkOverlap);
      seq(|chunks|, k requires 0 <= k < |chunks| =>
        ChunkMetadata(d.filename, PolicyType(d.filename), chunks[k]))
  }

  /** The metadata of all records, in listing order and chunk order. */
  function Metadata(docs: seq<Document>): seq<ChunkMetadata> {
    if docs == [] then [] else Metadata(docs[..|docs| - 1]) + FileMetadata(docs[|docs| - 1])
  }

  /** The records built from the metadata; record `j` takes the `j`-th
      identifier drawn and the embedding of its own text. */
  function Records(ms: seq<ChunkMetadata>, newId: nat -> string, embed: string -> Embedding)
    : seq<VectorRecord>
  {
    seq(|ms|, j requires 0 <= j < |ms| => VectorRecord(newId(j), embed(ms[j].text), ms[j]))
  }

  lemma MetadataStep(docs: seq<Document>, f: nat)
    requires f < |docs|
    ensures Metadata(docs[..f + 1]) == Metadata(docs[..f]) + FileMetadata(docs[f])
  {
    assert docs[..f + 1][..f] == docs[..f];
  }

  lemma RecordsStep(ms: seq<ChunkMetadata>, m: ChunkMetadata, newId: nat -> string,
                    embed: string -> Embedding)
    ensures Records(ms + [m], newId, embed)
         == Records(ms, newId, embed) + [VectorRecord(newId(|ms|), embed(m.text), m)]
  {
  }

  /** The inner loop of `ingest_all_documents`: one record per chunk of a
      `.txt` file, each with the next identifier drawn. */
  method AppendChunkRecords(vectors0: seq<VectorRecord>, ghost done: seq<ChunkMetadata>,
                            d: Document, chunks: seq<string>,
                            newId: nat -> string, embed: string -> Embedding)
    returns (vectors: seq<VectorRecord>)
    requires IsTextFile(d.filename)
    requires chunks == Chunks(d.text, ChunkSize, ChunkOverlap)
    requires vectors0 == Records(done, newId, embed)
    ensures vectors == Records(done + FileMetadata(d), newId, embed)
  {
    var policyType := PolicyType(d.filename);
    ghost var file := FileMetadata(d);
    vectors := vectors0;
    for c := 0 to |chunks|
      invariant vectors == Records(done + file[..c], newId, embed)
    {
      var meta := ChunkMetadata(d.filename, policyType, chunks[c]);
      assert meta == file[c];
      RecordsStep(done + file[..c], meta, newId, embed);
      vectors := vectors + [VectorRecord(newId(|vectors|), embed(chunks[c]), meta)];
      assert done + file[..c + 1] == (done + file[..c]) + [meta];
    }
    assert file[..|chunks|] == file;
  }

  /** `ingest_all_documents` up to the single upsert: `docs` is the directory
      listing with each file's contents, `newId(j)` the `j`-th identifier
      drawn, `embed` the embedding service. The result is what is upserted. */
  method IngestAllDocuments(docs: seq<Document>, newId: nat -> string, embed: string -> Embedding)
    returns (vectors: seq<VectorRecord>)
    ensures vectors == Records(Metadata(docs), newId, embed)
  {
    vectors := [];
    for f := 0 to |docs|
      invariant vectors == Records(Metadata(docs[..f]), newId, embed)
    {
      MetadataStep(docs, f);
      var d := docs[f];
      if !IsTextFile(d.filename) {
        continue;
      }
      var chunks := ChunkText(d.text);
      vectors := AppendChunkRecords(vectors, Metadata(docs[..f]), d, chunks, newId, embed);
    }
    assert docs[..|docs|] == docs;
  }

  /** The filter accepts exactly the names whose last four characters are a
      dot followed by `txt` in any mix of cases. */
  lemma TextFileSuffix(filename: string)
    ensures IsTextFile(filename) <==>
      var n := |filename|;
      n >= 4 && filename[n - 4] == '.' &&
      (filename[n - 3] == 't' || filename[n - 3] == 'T') &&
      (filename[n - 2] == 'x' || filename[n - 2] == 'X') &&
      (filename[n - 1] == 't' || filename[n - 1] == 'T')
  {
    var n := |filename|;
    if n >= 4 {
      var low := Lower(filename);
      assert low[n - 4..] == [low[n - 4], low[n - 3], low[n - 2], low[n - 1]];
    }
  }

  lemma TxtBorderFree()
    ensures BorderFree(".txt")
  {
    var p := ".txt";
    assert p[..1][0] != p[3..][0];
    assert p[..2][0] != p[2..][0];
    assert p[..3][0] != p[1..][0];
  }

  /** A name made of a base without `.txt` and the suffix `.txt` has the base
      as its policy type. */
  lemma PolicyTypeOfTxtName(base: string)
    requires !Occurs(base, ".txt")
    ensures PolicyType(base + ".txt") == base
  {
    TxtBorderFree();
    ReplaceTrailing(base, ".txt", "");
    ReplaceAbsent(base, ".txt", "");
  }

  /** A name without a lower-case `.txt` keeps its whole name as policy type,
      even when the filter accepted it (e.g. `A.TXT`). */
  lemma PolicyTypeWithoutLowerTxt(filename: string)
    requires !Occurs(filename, ".txt")
    ensures PolicyType(filename) == filename
  {
    ReplaceAbsent(filename, ".txt", "");
  }

  /** Number of chunks over the processed files of a listing. */
  function TotalChunks(docs: seq<Document>): nat {
    if docs == [] then 0
    else
      var d := docs[|docs| - 1];
      TotalChunks(docs[..|docs| - 1]) +
        (if IsTextFile(d.filename) then ChunkCount(|Split(d.text)|, ChunkSize - ChunkOverlap) else 0)
  }

  /** One record per chunk of every processed file and no other record. */
  lemma {:induction false} RecordCount(docs: seq<Document>)
    ensures |Metadata(docs)| == TotalChunks(docs)
  {
    if docs != [] {
      RecordCount(docs[..|docs| - 1]);
    }
  }

  /** Every chunk of every accepted file is recorded, at its place: chunk
      `k` of file `i` is record `TotalChunks(docs[..i]) + k`. */
  lemma {:induction false} EveryChunkRecorded(docs: seq<Document>, i: nat, k: nat)
    requires i < |docs| && IsTextFile(docs[i].filename)
    requires k < |Chunks(docs[i].text, ChunkSize, ChunkOverlap)|
    ensures TotalChunks(docs[..i]) + k < |Metadata(docs)|
    ensures Metadata(docs)[TotalChunks(docs[..i]) + k]
         == ChunkMetadata(docs[i].filename, PolicyType(docs[i].filename),
                          Chunks(docs[i].text, ChunkSize, ChunkOverlap)[k])
  {
    var init := docs[..|docs| - 1];
    var d := docs[|docs| - 1];
    assert Metadata(docs) == Metadata(init) + FileMetadata(d);
    if i < |docs| - 1 {
      assert init[i] == docs[i] && init[..i] == docs[..i];
      EveryChunkRecorded(init, i, k);
    } else {
      assert docs[..i] == init;
      RecordCount(init);
      assert FileMetadata(d)[k] == ChunkMetadata(d.filename, PolicyType(d.filename),
                                                 Chunks(d.text, ChunkSize, ChunkOverlap)[k]);
    }
  }

  /** Every record stems from an accepted file of the listing: its source
      is that file's name, its policy type derives from that name, and its
      text is one of that file's chunks. */
  lemma {:induction false} RecordsComeFromTextFiles(docs: seq<Document>, j: nat)
    requires j < |Metadata(docs)|
    ensures var m := Metadata(docs)[j];
      exists i, k :: 0 <= i < |docs| && IsTextFile(docs[i].filename) &&
        0 <= k < |Chunks(docs[i].text, ChunkSize, ChunkOverlap)| &&
        m == ChunkMetadata(docs[i].filename, PolicyType(docs[i].filename),
                           Chunks(docs[i].text, ChunkSize, ChunkOverlap)[k])
  {
    var init := docs[..|docs| - 1];
    var d := docs[|docs| - 1];
    var m := Metadata(docs)[j];
    if j < |Metadata(init)| {
      RecordsComeFromTextFiles(init, j);
      assert m == Metadata(init)[j];
      var i, k :| 0 <= i < |init| && IsTextFile(init[i].filename) &&
        0 <= k < |Chunks(init[i].text, ChunkSize, ChunkOverlap)| &&
        Metadata(init)[j] == ChunkMetadata(init[i].filename, PolicyType(init[i].filename),
                                           Chunks(init[i].text, ChunkSize, ChunkOverlap)[k]);
      assert init[i] == docs[i];
    } else {
      var k := j - |Metadata(init)|;
      assert m == FileMetadata(d)[k];
      assert docs[|docs| - 1] == d;
    }
  }
}
