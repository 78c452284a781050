/**
 * The text-to-SQL and summarization demo: the greedy word-budget chunker over
 * query result rows, the chunk-by-chunk summarization driver, and the guard
 * that replaces a generated query which is not an English SELECT.
 */
module TextSqlSummarization {
  import opened Words

  /** A result row, each field already converted to text by `str`. */
  type Row = seq<string>

  /** `' '.join(map(str, row))`: the row's text. */
  function RowText(row: Row): string
  {
    JoinSpace(row)
  }

  /** The texts of all rows, in order. */
  function RowTexts(results: seq<Row>): (r: seq<string>)
    ensures |r| == |results|
  {
    seq(|results|, i requires 0 <= i < |results| => RowText(results[i]))
  }

  /** The chunks laid end to end. */
  function Flatten(chunks: seq<seq<string>>): seq<string>
  {
    if chunks == [] then [] else Flatten(chunks[..|chunks| - 1]) + chunks[|chunks| - 1]
  }

  /** The total word count of the texts in a chunk, `count` giving each text's words. */
  function Total(chunk: seq<string>, count: string -> nat): nat
  {
    if chunk == [] then 0 else Total(chunk[..|chunk| - 1], count) + count(chunk[|chunk| - 1])
  }

  /**
   * What `chunk_results_by_words` promises of its output for row texts `texts`
   * whose word counts `count` gives: the chunks hold the texts in order with
   * nothing dropped or repeated; only the first chunk may be empty, and it is
   * empty exactly when the first text alone is over budget; a chunk over budget
   * holds at most one text; and no chunk could have taken the first text of the
   * chunk after it.
   */
  ghost predicate IsGreedyChunking(texts: seq<string>, maxWords: int, count: string -> nat, chunks: seq<seq<string>>)
  {
    && Flatten(chunks) == texts
    && (texts == [] <==> chunks == [])
    && (forall i :: 0 < i < |chunks| ==> chunks[i] != [])
    && (texts != [] ==> (chunks[0] == [] <==> count(texts[0]) > maxWords))
    && (forall i :: 0 <= i < |chunks| ==> OverOnlyAlone(chunks[i], maxWords, count))
    && (forall i :: 0 <= i < |chunks| - 1 ==> CannotTake(chunks[i], chunks[i + 1], maxWords, count))
  }

  /** A chunk is over budget only if it holds at most one text. */
  ghost predicate OverOnlyAlone(chunk: seq<string>, maxWords: int, count: string -> nat)
  {
    Total(chunk, count) > maxWords ==> |chunk| <= 1
  }

  /** `chunk` could not have taken the first text of the non-empty chunk `next` within budget. */
  ghost predicate CannotTake(chunk: seq<string>, next: seq<string>, maxWords: int, count: string -> nat)
  {
    next != [] && Total(chunk, count) + count(next[0]) > maxWords
  }

  lemma FlattenAppend(chunks: seq<seq<string>>, c: seq<string>)
    ensures Flatten(chunks + [c]) == Flatten(chunks) + c
  {
    assert (chunks + [c])[..|chunks|] == chunks;
  }

  lemma TotalAppend(chunk: seq<string>, t: string, count: string -> nat)
    ensures Total(chunk + [t], count) == Total(chunk, count) + count(t)
  {
    assert (chunk + [t])[..|chunk|] == chunk;
  }

  /**
   * The state of the chunker after the non-empty prefix `texts`: the closed
   * `chunks` and the open, non-empty `current` chunk, which together meet
   * IsGreedyChunking for `texts`.
   */
  ghost predicate Packed(texts: seq<string>, maxWords: int, count: string -> nat, chunks: seq<seq<string>>, current: seq<string>)
  {
    && texts != [] && current != []
    && Flatten(chunks) + current == texts
    && (forall j :: 0 < j < |chunks| ==> chunks[j] != [])
    && ((chunks != [] && chunks[0] == []) <==> count(texts[0]) > maxWords)
    && (forall j :: 0 <= j < |chunks| ==> OverOnlyAlone(chunks[j], maxWords, count))
    && OverOnlyAlone(current, maxWords, count)
    && (forall j :: 0 <= j < |chunks| - 1 ==> CannotTake(chunks[j], chunks[j + 1], maxWords, count))
    && (chunks != [] ==> CannotTake(chunks[|chunks| - 1], current, maxWords, count))
  }

  /** The first row: an empty chunk is closed first exactly when the row alone is over budget. */
  lemma PackFirst(t: string, maxWords: int, count: string -> nat)
    ensures Packed([t], maxWords, count, if count(t) > maxWords then [[]] else [], [t])
  {
    TotalAppend([], t, count);
    FlattenAppend([], []);
  }

  /** Closing the open chunk of a Packed state keeps the per-chunk and neighbour conditions. */
  lemma CloseChunk(texts: seq<string>, maxWords: int, count: string -> nat, chunks: seq<seq<string>>, current: seq<string>)
    requires Packed(texts, maxWords, count, chunks, current)
    ensures var cs := chunks + [current];
      && Flatten(cs) == texts
      && (cs[0] == [] <==> count(texts[0]) > maxWords)
      && (forall j :: 0 < j < |cs| ==> cs[j] != [])
      && (forall j :: 0 <= j < |cs| ==> OverOnlyAlone(cs[j], maxWords, count))
      && (forall j :: 0 <= j < |cs| - 1 ==> CannotTake(cs[j], cs[j + 1], maxWords, count))
  {
    FlattenAppend(chunks, current);
    var cs := chunks + [current];
    forall j | 0 <= j < |cs| ensures cs[j] == if j < |chunks| then chunks[j] else current {
    }
    if chunks == [] {
      assert texts == current;
    }
  }

  /** A row that does not fit closes the open chunk and opens a new one with the row. */
  lemma PackFlush(texts: seq<string>, t: string, maxWords: int, count: string -> nat, chunks: seq<seq<string>>, current: seq<string>)
    requires Packed(texts, maxWords, count, chunks, current)
    requires Total(current, count) + count(t) > maxWords
    ensures Packed(texts + [t], maxWords, count, chunks + [current], [t])
  {
    CloseChunk(texts, maxWords, count, chunks, current);
    TotalAppend([], t, count);
    var cs := chunks + [current];
    assert cs[|cs| - 1] == current;
    assert (texts + [t])[0] == texts[0];
  }

  /** A row that fits joins the open chunk. */
  lemma PackExtend(texts: seq<string>, t: string, maxWords: int, count: string -> nat, chunks: seq<seq<string>>, current: seq<string>)
    requires Packed(texts, maxWords, count, chunks, current)
    requires Total(current, count) + count(t) <= maxWords
    ensures Packed(texts + [t], maxWords, count, chunks, current + [t])
  {
    TotalAppend(current, t, count);
  }

  /** Closing the open chunk at the end of the rows yields a greedy chunking. */
  lemma PackDone(texts: seq<string>, maxWords: int, count: string -> nat, chunks: seq<seq<string>>, current: seq<string>)
    requires Packed(texts, maxWords, count, chunks, current)
    ensures IsGreedyChunking(texts, maxWords, count, chunks + [current])
  {
    CloseChunk(texts, maxWords, count, chunks, current);
  }

  /** The chunker's loop variables: the closed chunks, the open chunk and its word count. */
  datatype Packing = Packing(chunks: seq<seq<string>>, current: seq<string>, words: int)

  /** One turn of the loop: the text `t` closes the open chunk if it would take it over budget, then joins the open chunk. */
  function Next(p: Packing, t: string, maxWords: int, count: string -> nat): Packing
  {
    if p.words + count(t) > maxWords then Packing(p.chunks + [p.current], [t], count(t))
    else Packing(p.chunks, p.current + [t], p.words + count(t))
  }

  /** The loop variables after the texts `texts`. */
  function PackAll(texts: seq<string>, maxWords: int, count: string -> nat): Packing
  {
    if texts == [] then Packing([], [], 0)
    else Next(PackAll(texts[..|texts| - 1], maxWords, count), texts[|texts| - 1], maxWords, count)
  }

  /** The chunks `chunk_results_by_words` returns: the closed chunks, then the open one if it is not empty. */
  function ChunkTexts(texts: seq<string>, maxWords: int, count: string -> nat): seq<seq<string>>
  {
    var p := PackAll(texts, maxWords, count);
    if p.current != [] then p.chunks + [p.current] else p.chunks
  }

  /** The running count is the word total of the open chunk. */
  lemma {:induction false} PackAllWords(texts: seq<string>, maxWords: int, count: string -> nat)
    ensures PackAll(texts, maxWords, count).words == Total(PackAll(texts, maxWords, count).current, count)
  {
    if texts != [] {
      var init := texts[..|texts| - 1];
      var t := texts[|texts| - 1];
      PackAllWords(init, maxWords, count);
      var p := PackAll(init, maxWords, count);
      TotalAppend(p.current, t, count);
      TotalAppend([], t, count);
    }
  }

  /** The loop variables after any non-empty prefix meet Packed. */
  lemma {:induction false} PackAllPacked(texts: seq<string>, maxWords: int, count: string -> nat)
    requires texts != []
    ensures Packed(texts, maxWords, count, PackAll(texts, maxWords, count).chunks, PackAll(texts, maxWords, count).current)
  {
    var init := texts[..|texts| - 1];
    var t := texts[|texts| - 1];
    assert texts == init + [t];
    var p := PackAll(init, maxWords, count);
    assert PackAll(texts, maxWords, count) == Next(p, t, maxWords, count);
    if init == [] {
      PackFirst(t, maxWords, count);
    } else {
      PackAllPacked(init, maxWords, count);
      PackAllWords(init, maxWords, count);
      if p.words + count(t) > maxWords {
        PackFlush(init, t, maxWords, count, p.chunks, p.current);
      } else {
        PackExtend(init, t, maxWords, count, p.chunks, p.current);
      }
    }
  }

  /** The chunker's output is a greedy chunking of its input. */
  lemma ChunkTextsGreedy(texts: seq<string>, maxWords: int, count: string -> nat)
    ensures IsGreedyChunking(texts, maxWords, count, ChunkTexts(texts, maxWords, count))
  {
    var p := PackAll(texts, maxWords, count);
    if texts != [] {
      PackAllPacked(texts, maxWords, count);
      PackDone(texts, maxWords, count, p.chunks, p.current);
    }
  }

  /**
   * `chunk_results_by_words`: packs the row texts, in order, into chunks,
   * closing the current chunk whenever the next row would take its word count
   * over `maxWords`.
   */
  method ChunkResultsByWords(results: seq<Row>, maxWords: int) returns (chunks: seq<seq<string>>)
    ensures chunks == ChunkTexts(RowTexts(results), maxWords, WordCount)
    ensures IsGreedyChunking(RowTexts(results), maxWords, WordCount, chunks)
  {
    ghost var texts := RowTexts(results);
    chunks := [];
    var current: seq<string> := [];
    var currentWordCount := 0;
    var i := 0;
    while i < |results|
      invariant 0 <= i <= |results|
      invariant Packing(chunks, current, currentWordCount) == PackAll(texts[..i], maxWords, WordCount)
    {
      var rowText := RowText(results[i]);
      var wordCount := |Split(rowText)|;
      assert texts[..i + 1][..i] == texts[..i];
      if currentWordCount + wordCount > maxWords {
        chunks := chunks + [current];
        current := [];
        currentWordCount := 0;
      }
      current := current + [rowText];
      currentWordCount := currentWordCount + wordCount;
      i := i + 1;
    }
    assert texts[..i] == texts;
    if current != [] {
      chunks := chunks + [current];
    }
    ChunkTextsGreedy(texts, maxWords, WordCount);
  }

  /**
   * `summarize_results`: one `summarize` call per chunk, in chunk order, on the
   * chunk's texts joined by spaces, then one last call on the chunk summaries
   * joined by spaces, whose result is returned. `calls` lists the inputs of
   * all the `summarize` calls in the order they are made.
   */
  method SummarizeResults(results: seq<Row>, maxWords: int, summarize: string -> string)
    returns (overall: string, calls: seq<string>)
    ensures var prompts := Prompts(ChunkTexts(RowTexts(results), maxWords, WordCount));
      calls == prompts + [JoinSpace(Summaries(prompts, summarize))]
    ensures overall == summarize(calls[|calls| - 1])
  {
    var chunks := ChunkResultsByWords(results, maxWords);
    var summaries: seq<string> := [];
    calls := [];
    for i := 0 to |chunks|
      invariant calls == Prompts(chunks[..i])
      invariant summaries == Summaries(calls, summarize)
    {
      var textChunk := JoinSpace(chunks[i]);
      assert chunks[..i + 1] == chunks[..i] + [chunks[i]];
      PromptsAppend(chunks[..i], chunks[i]);
      SummariesAppend(calls, textChunk, summarize);
      calls := calls + [textChunk];
      summaries := summaries + [summarize(textChunk)];
    }
    assert chunks[..|chunks|] == chunks;
    var combined := JoinSpace(summaries);
    calls := calls + [combined];
    overall := summarize(combined);
  }

  /** The text handed to `summarize` for each chunk: its texts joined by single spaces. */
  function Prompts(chunks: seq<seq<string>>): (r: seq<string>)
    ensures |r| == |chunks|
  {
    seq(|chunks|, i requires 0 <= i < |chunks| => JoinSpace(chunks[i]))
  }

  lemma SummariesAppend(texts: seq<string>, t: string, summarize: string -> string)
    ensures Summaries(texts + [t], summarize) == Summaries(texts, summarize) + [summarize(t)]
  {
  }

  lemma PromptsAppend(chunks: seq<seq<string>>, c: seq<string>)
    ensures Prompts(chunks + [c]) == Prompts(chunks) + [JoinSpace(c)]
  {
  }

  /** The words handed to `summarize` over the chunk calls are the words of the chunked texts, each once and in order. */
  lemma {:induction false} PromptsWords(chunks: seq<seq<string>>)
    ensures ConcatWords(Prompts(chunks)) == ConcatWords(Flatten(chunks))
  {
    if chunks != [] {
      var init, last := chunks[..|chunks| - 1], chunks[|chunks| - 1];
      assert chunks == init + [last];
      PromptsAppend(init, last);
      PromptsWords(init);
      ConcatWordsAppend(Prompts(init), [JoinSpace(last)]);
      SplitJoinSpace(last);
      assert ConcatWords([JoinSpace(last)]) == Split(JoinSpace(last)) by {
        assert [JoinSpace(last)][1..] == [];
      }
      ConcatWordsAppend(Flatten(init), last);
    }
  }

  /** Every word of the query results reaches the per-chunk `summarize` calls exactly once, in result order. */
  lemma SummarizedWords(results: seq<Row>, maxWords: int)
    ensures ConcatWords(Prompts(ChunkTexts(RowTexts(results), maxWords, WordCount)))
         == ConcatWords(RowTexts(results))
  {
    var chunks := ChunkTexts(RowTexts(results), maxWords, WordCount);
    ChunkTextsGreedy(RowTexts(results), maxWords, WordCount);
    PromptsWords(chunks);
  }

  /** The summaries of the given texts, in order. */
  function Summaries(texts: seq<string>, summarize: string -> string): (r: seq<string>)
    ensures |r| == |texts|
  {
    seq(|texts|, i requires 0 <= i < |texts| => summarize(texts[i]))
  }

  /** The query run when the generated one is rejected. */
  const FallbackQuery := "SELECT" + " manufacturer, model FROM vehicles WHERE price < 10000"

  /** `str.lower()` on one character, for the ASCII letters. */
  function Lower(c: char): char
  {
    if 'A' <= c <= 'Z' then (c as int + 32) as char else c
  }

  /** `s.lower()`. */
  function LowerAll(s: string): (r: string)
    ensures |r| == |s|
  {
    seq(|s|, i requires 0 <= i < |s| => Lower(s[i]))
  }

  /** `s.startswith(t)`. */
  predicate IsPrefix(t: string, s: string)
  {
    |t| <= |s| && s[..|t|] == t
  }

  /** `t in s`: `t` occurs in `s` as a substring. */
  predicate Contains(s: string, t: string)
    decreases |s|
  {
    IsPrefix(t, s) || (s != [] && Contains(s[1..], t))
  }

  /** A generated query the demo accepts: it begins with "select" in any letter case and does not contain "Erhalten". */
  predicate IsAcceptedQuery(q: string)
  {
    !Contains(q, "Erhalten") && IsPrefix("select", LowerAll(q))
  }

  /**
   * The guard applied to the generated query: a query containing "Erhalten"
   * or not starting with "select" is replaced by the fixed fallback query.
   * Whatever the model generated, the query executed is accepted.
   */
  function GuardQuery(q: string): (r: string)
    ensures IsAcceptedQuery(r)
    ensures IsAcceptedQuery(q) ==> r == q
    ensures !IsAcceptedQuery(q) ==> r == FallbackQuery
  {
    FallbackAccepted();
    if Contains(q, "Erhalten") || !IsPrefix("select", LowerAll(q)) then FallbackQuery else q
  }

  /** No character `a` of `s` is directly followed by `b`. */
  predicate NoPair(s: string, a: char, b: char)
  {
    forall i :: 0 <= i < |s| - 1 ==> !(s[i] == a && s[i + 1] == b)
  }

  /** A text in which the first two characters of `t` never stand side by side does not contain `t`. */
  lemma {:induction false} NoPairNotContains(s: string, t: string)
    requires |t| >= 2 && NoPair(s, t[0], t[1])
    ensures !Contains(s, t)
  {
    if s != [] {
      assert NoPair(s[1..], t[0], t[1]) by {
        forall i | 0 <= i < |s[1..]| - 1 ensures !(s[1..][i] == t[0] && s[1..][i + 1] == t[1]) {
          assert s[1..][i] == s[i + 1] && s[1..][i + 1] == s[i + 2];
        }
      }
      NoPairNotContains(s[1..], t);
    }
  }

  lemma NoPairJoin(x: string, y: string, a: char, b: char)
    requires NoPair(x, a, b) && NoPair(y, a, b)
    requires x != [] && y != [] && !(x[|x| - 1] == a && y[0] == b)
    ensures NoPair(x + y, a, b)
  {
    var s := x + y;
    forall i | 0 <= i < |s| - 1 ensures !(s[i] == a && s[i + 1] == b) {
      if i + 1 < |x| {
        assert s[i] == x[i] && s[i + 1] == x[i + 1];
      } else if i + 1 > |x| {
        assert s[i] == y[i - |x|] && s[i + 1] == y[i + 1 - |x|];
      }
    }
  }

  lemma NoPairAbsent(x: string, a: char, b: char)
    requires a !in x
    ensures NoPair(x, a, b)
  {
    forall i | 0 <= i < |x| - 1 ensures x[i] != a {
      assert x[i] in x;
    }
  }

  lemma NoPairAbsentSecond(x: string, a: char, b: char)
    requires b !in x
    ensures NoPair(x, a, b)
  {
    forall i | 0 <= i < |x| ensures x[i] != b {
      assert x[i] in x;
    }
  }

  lemma FallbackWhere()
    ensures NoPair(" vehicles WHERE price < 10000", 'E', 'r')
  {
    NoPairAbsent(" vehicles WH", 'E', 'r');
    NoPairAbsent(" price < 10000", 'E', 'r');
    NoPairJoin("ERE", " price < 10000", 'E', 'r');
    NoPairJoin(" vehicles WH", "ERE price < 10000", 'E', 'r');
    assert " vehicles WH" + "ERE price < 10000" == " vehicles WHERE price < 10000";
  }

  lemma FallbackRest()
    ensures NoPair(" manufacturer, model FROM vehicles WHERE price < 10000", 'E', 'r')
  {
    FallbackWhere();
    NoPairAbsent(" manufacturer, model FROM", 'E', 'r');
    NoPairJoin(" manufacturer, model FROM", " vehicles WHERE price < 10000", 'E', 'r');
    assert " manufacturer, model FROM" + " vehicles WHERE price < 10000"
        == " manufacturer, model FROM vehicles WHERE price < 10000";
  }

  lemma FallbackNoErhalten()
    ensures !Contains(FallbackQuery, "Erhalten")
  {
    FallbackRest();
    NoPairAbsentSecond("SELECT", 'E', 'r');
    NoPairJoin("SELECT", " manufacturer, model FROM vehicles WHERE price < 10000", 'E', 'r');
    NoPairNotContains(FallbackQuery, "Erhalten");
  }

  lemma FallbackSelect()
    ensures IsPrefix("select", LowerAll(FallbackQuery))
  {
    var q := FallbackQuery;
    assert q[..6] == "SELECT";
    assert LowerAll(q)[..6] == "select";
  }

  /** The fallback query passes the guard. */
  lemma FallbackAccepted()
    ensures IsAcceptedQuery(FallbackQuery)
  {
    FallbackNoErhalten();
    FallbackSelect();
  }
}
