/** common/index.c: the in-memory inverted index `index_t` (a hash table from
    word to a `counters` posting list), its construction, lookup, increment,
    loading, and the query evaluator `index_search`. */
module Index {
  import opened CType
  import opened Scoring
  import opened Codec

  /** The index after one `index_add(w, docID)`: the count of (`w`, `docID`)
      is one higher, every other count is the same, `w` is a word of the
      index, and the index invariant is kept. */
  function Inserted(t: Table, w: string, docID: int): (r: Table)
    ensures forall v, d :: Count(r, v, d) == Count(t, v, d) + (if v == w && d == docID then 1 else 0)
    ensures r.Keys == t.Keys + {w}
    ensures Valid(t) ==> Valid(r)
  {
    if w in t then t[w := t[w][docID := Get(t[w], docID) + 1]]
    else
      var p := map[docID := 1];
      assert docID in p;
      t[w := p]
  }

  /** The order of two `index_add` calls does not matter: the counts they
      leave are the same, and a valid index is determined by its counts. */
  lemma InsertedCommute(t: Table, w1: string, d1: int, w2: string, d2: int)
    requires Valid(t)
    ensures Inserted(Inserted(t, w1, d1), w2, d2) == Inserted(Inserted(t, w2, d2), w1, d1)
  {
    var a, b := Inserted(t, w1, d1), Inserted(t, w2, d2);
    var r1, r2 := Inserted(a, w2, d2), Inserted(b, w1, d1);
    assert Valid(a) && Valid(b);
    forall v, d ensures Count(r1, v, d) == Count(r2, v, d) {
      assert Count(r1, v, d) == Count(a, v, d) + (if v == w2 && d == d2 then 1 else 0);
      assert Count(r2, v, d) == Count(b, v, d) + (if v == w1 && d == d1 then 1 else 0);
    }
    CountsDetermineValid(r1, r2);
  }

  class InvertedIndex {
    /** word -> (docID -> count) */
    var table: Table

    constructor Empty()
      ensures table == map[]
    {
      table := map[];
    }

    /** `index_new`: NULL when `size <= 0`, otherwise a new, empty index. */
    static method New(size: int) returns (index: InvertedIndex?)
      ensures index == null <==> size <= 0
      ensures index != null ==> fresh(index) && index.table == map[]
    {
      if size <= 0 {
        return null;
      }
      index := new InvertedIndex.Empty();
    }

    /** `index_find`: the word's posting list, or NULL (None) when the word is
        absent; the index is only read. */
    function Find(w: string): (r: Option<Postings>)
      reads this
      ensures r.Some? <==> w in table
      ensures r.Some? ==> r.value == table[w]
    {
      if w in table then Some(table[w]) else None
    }

    /** `index_add`: raises the count of (`w`, `docID`) by one, creating the
        posting list `{docID: 1}` for a word not yet present; nothing else
        changes, and the index invariant is kept. */
    method Add(w: string, docID: int) returns (ok: bool)
      requires docID >= 0
      modifies this
      ensures ok
      ensures table.Keys == old(table).Keys + {w}
      ensures w !in old(table) ==> table == old(table)[w := map[docID := 1]]
      ensures w in old(table) ==> table[w] == old(table)[w][docID := Count(old(table), w, docID) + 1]
      ensures forall v :: v in old(table) && v != w ==> table[v] == old(table)[v]
      ensures forall v, d :: Count(table, v, d) == Count(old(table), v, d) + (if v == w && d == docID then 1 else 0)
      ensures Valid(old(table)) ==> Valid(table)
      ensures table == Inserted(old(table), w, docID)
    {
      if Find(w) == None {
        var counter: Postings := map[docID := 1];
        table := table[w := counter];
        return true;
      }
      var counter := table[w];
      table := table[w := counter[docID := Get(counter, docID) + 1]];
      ok := true;
    }

    /** `index_search`: for each document slot `d` below `numDocs` (docID d + 1),
        adds the query's score to `scores[d]`; other slots and the index are
        left alone. */
    method Search(words: seq<string>, scores: array<int>, numDocs: int)
      requires numDocs <= scores.Length
      modifies scores
      ensures forall d :: 0 <= d < numDocs ==> scores[d] == old(scores[d]) + Score(table, words, d + 1)
      ensures forall d :: 0 <= d < scores.Length && !(0 <= d < numDocs) ==> scores[d] == old(scores[d])
    {
      var curDoc := 0;
      while curDoc < numDocs
        invariant 0 <= curDoc <= scores.Length && (curDoc <= numDocs || curDoc == 0)
        invariant forall d :: 0 <= d < curDoc ==> scores[d] == old(scores[d]) + Score(table, words, d + 1)
        invariant forall d :: curDoc <= d < scores.Length ==> scores[d] == old(scores[d])
      {
        SearchDoc(words, scores, curDoc);
        curDoc := curDoc + 1;
      }
    }

    /** One pass of `index_search`'s document loop: walks the query once, keeping
        the running minimum of the current clause and adding it to
        `scores[curDoc]` at each "or" and at the end; an unknown word zeroes its
        clause and skips to the next "or". */
    method SearchDoc(words: seq<string>, scores: array<int>, curDoc: nat)
      requires curDoc < scores.Length
      modifies scores
      ensures scores[curDoc] == old(scores[curDoc]) + Score(table, words, curDoc + 1)
      ensures forall d :: 0 <= d < scores.Length && d != curDoc ==> scores[d] == old(scores[d])
    {
      var init := false;
      var minScore := 0;
      var i := 0;
      ghost var j := 0;     // where the current clause starts
      ghost var done := 0;  // the score of the clauses before it
      ghost var base := scores[curDoc];
      while i < |words|
        invariant Scanning(table, words, i, j, init, minScore, done, curDoc + 1)
        invariant scores[curDoc] == base + done
        invariant forall d :: 0 <= d < scores.Length && d != curDoc ==> scores[d] == old(scores[d])
        decreases |words| - i
      {
        i, init, minScore, j, done := ScanToken(words, scores, curDoc, i, init, minScore, j, done);
      }
      ScanEnd(table, words, i, j, init, minScore, done, curDoc + 1);
      scores[curDoc] := scores[curDoc] + minScore;
    }

    /** The body of `index_search`'s scan loop: "or" adds the running
        minimum to `scores[curDoc]` and starts a new clause; any other token
        goes to `ScanWord`. */
    method ScanToken(words: seq<string>, scores: array<int>, curDoc: nat, i0: nat, init0: bool, min0: int,
                     ghost j0: int, ghost done0: int)
      returns (i: nat, init: bool, minScore: int, ghost j: int, ghost done: int)
      requires curDoc < scores.Length && i0 < |words|
      requires Scanning(table, words, i0, j0, init0, min0, done0, curDoc + 1)
      modifies scores
      ensures i0 < i
      ensures Scanning(table, words, i, j, init, minScore, done, curDoc + 1)
      ensures scores[curDoc] == old(scores[curDoc]) + done - done0
      ensures forall d :: 0 <= d < scores.Length && d != curDoc ==> scores[d] == old(scores[d])
    {
      if words[i0] == "or" {
        ScanOr(table, words, i0, j0, init0, min0, done0, curDoc + 1);
        scores[curDoc] := scores[curDoc] + min0;
        return i0 + 1, false, 0, i0 + 1, done0 + min0;
      }
      i, init, minScore := ScanWord(words, i0, init0, min0, curDoc + 1, j0, done0);
      j, done := j0, done0;
    }

    /** One token of `index_search`'s scan that is not "or": "and" is passed
        over, an unknown word zeroes the running minimum and skips to the next
        "or", a known word lowers the running minimum to its count in `doc`;
        the running state afterwards describes the longer clause prefix. */
    method ScanWord(words: seq<string>, i0: nat, init0: bool, min0: int, doc: int, ghost j: nat, ghost done: int)
      returns (i: nat, init: bool, minScore: int)
      requires i0 < |words| && words[i0] != "or"
      requires Scanning(table, words, i0, j, init0, min0, done, doc)
      ensures i0 < i <= |words|
      ensures Scanning(table, words, i, j, init, minScore, done, doc)
    {
      i, init, minScore := i0, init0, min0;
      // "and" carries no weight
      if words[i] == "and" {
        RunningStep(table, words, j, i, init, minScore, doc);
        return i + 1, init, minScore;
      }
      var counter := Find(words[i]);
      if counter == None {
        // an unknown word zeroes the clause: skip to the next "or"
        minScore := 0;
        MissingStep(table, words, j, i0);
        i := SkipClause(words, i);
        MissingExtends(table, words, j, i0, i);
      } else {
        RunningStep(table, words, j, i, init, minScore, doc);
        var curScore := Get(counter.value, doc);
        if !init {
          minScore := curScore;
          init := true;
        } else if curScore < minScore {
          minScore := curScore;
        }
        i := i + 1;
      }
    }

    /** The inner loop of `index_search` after an unknown word: advances to the
        next "or", or to the end of the query. */
    static method SkipClause(words: seq<string>, i0: nat) returns (i: nat)
      requires i0 < |words| && words[i0] != "or"
      ensures i0 < i <= |words|
      ensures i == |words| || words[i] == "or"
      ensures forall k :: i0 <= k < i ==> words[k] != "or"
    {
      i := i0;
      while i < |words| && words[i] != "or"
        invariant i0 <= i <= |words|
        invariant forall k :: i0 <= k < i ==> words[k] != "or"
      {
        i := i + 1;
      }
    }

    /** `index_load`: reads the lines of an index file and inserts each word
        with the pairs that follow it. */
    method Load(text: string)
      modifies this
      ensures table == LoadLines(old(table), ReadLines(text))
    {
      var lines := ReadLines(text);
      var n := 0;
      while n < |lines|
        invariant 0 <= n <= |lines|
        invariant table == LoadLines(old(table), lines[..n])
      {
        var line := lines[n];
        assert line[0..] == line;
        var word, pos := Strtok(line, 0, {' '});
        var counter := ReadPairs(line, pos);
        assert word.Some? ==> ParseLine(line) == Some((word.value, counter));
        assert word.None? ==> ParseLine(line) == None;
        if word.Some? && word.value !in table {
          table := table[word.value := counter];
        }
        assert lines[..n + 1][..n] == lines[..n];
        assert table == LoadLine(LoadLines(old(table), lines[..n]), line);
        n := n + 1;
      }
      assert lines[..n] == lines;
    }

    /** The pair loop of `index_load`: takes the tokens after the saved
        position two at a time, scans each with `sscanf("%d")` and stores the
        pair with `counters_set`, until fewer than two tokens are left. */
    static method ReadPairs(line: string, pos0: nat) returns (counter: Postings)
      requires pos0 <= |line|
      ensures counter == ScanPairs(Tokens(line[pos0..], {' '}), None, None, map[])
    {
      var pos := pos0;
      var docID: Option<int> := None;
      var count: Option<int> := None;
      counter := map[];
      while true
        invariant pos <= |line|
        invariant ScanPairs(Tokens(line[pos0..], {' '}), None, None, map[])
                  == ScanPairs(Tokens(line[pos..], {' '}), docID, count, counter)
        decreases |line| - pos
      {
        ghost var rest := Tokens(line[pos..], {' '});
        var nextDocID, nextCount;
        nextDocID, pos := Strtok(line, pos, {' '});
        if nextDocID == None {
          return;
        }
        nextCount, pos := Strtok(line, pos, {' '});
        if nextCount == None {
          assert |rest| == 1;
          return;
        }
        assert rest[2..] == Tokens(line[pos..], {' '});
        docID := Rescan(nextDocID.value, docID);
        count := Rescan(nextCount.value, count);
        if docID.Some? && count.Some? && CounterSetAccepts(docID.value, count.value) {
          counter := counter[docID.value := count.value];
        }
      }
    }
  }
}
