/** querier/querier.c, `query`: one line of the query loop. A non-empty
    line is lowercased, split and checked; an accepted query is scored
    against every document and the documents are ranked. */
module Querier {
  import opened CType
  import opened Word
  import opened Scoring
  import opened Index
  import opened Query
  import opened Ranker

  /** The scores of the documents 1, ..., numDocs for the query `ws`, slot d
      holding docID d + 1. */
  function QueryScores(t: Table, ws: seq<string>, numDocs: nat): (r: seq<int>)
    ensures |r| == numDocs
  {
    seq(numDocs, d requires 0 <= d < numDocs => Score(t, ws, d + 1))
  }

  /** In an index with no negative count no document scores below 0, so
      the ranking shows exactly the documents with a non-zero score. */
  lemma QueryScoresNonNegative(t: Table, ws: seq<string>, numDocs: nat)
    requires NonNegative(t)
    ensures forall d :: 0 <= d < numDocs ==> QueryScores(t, ws, numDocs)[d] >= 0
  {
    forall d | 0 <= d < numDocs ensures QueryScores(t, ws, numDocs)[d] >= 0 {
      ScoreNonNegative(t, ws, d + 1);
    }
  }

  /** Enough slots for the words of any line: one per character and one for
      the terminator. */
  lemma SlotsSuffice(line: string)
    ensures |Tokens(Lower(line), Whitespace)| + 1 <= |line| + 1
  {
    assert |Lower(line)| == |line|;
  }

  /** The scores array of `query`: `numDocs` slots set to 0, then filled by
      `index_search`. */
  method ScoreAll(index: InvertedIndex, ws: seq<string>, numDocs: nat) returns (scores: array<int>)
    ensures fresh(scores)
    ensures scores[..] == QueryScores(index.table, ws, numDocs)
  {
    scores := new int[numDocs](_ => 0);
    index.Search(ws, scores, numDocs);
  }

  /** The body of `query`'s loop for one line read from standard input: an
      empty line or a rejected query gives nothing (None); otherwise every
      document's score starts at 0, `index_search` adds the query's score,
      and `page_rank` ranks the documents. The words array has a slot per
      character plus the terminator. */
  method Answer(index: InvertedIndex, query: array<char>, numDocs: nat) returns (result: Option<Ranking>)
    modifies query
    ensures query[..] == Lower(old(query[..]))
    ensures result.Some? <==> query.Length > 0 && Verify(Tokens(query[..], Whitespace)) == None
    ensures result.Some? ==> result.value == Rank(QueryScores(index.table, Tokens(query[..], Whitespace), numDocs))
  {
    if query.Length == 0 {
      return None;
    }
    SlotsSuffice(query[..]);
    var words := new Option<string>[query.Length + 1];
    var ok, numWords := ParseQuery(words, query);
    if !ok {
      return None;
    }
    ghost var ws := Tokens(query[..], Whitespace);
    assert Present(words[..numWords]) == ws;
    var scores := ScoreAll(index, Present(words[..numWords]), numDocs);
    var r := PageRank(scores);
    return Some(r);
  }
}
