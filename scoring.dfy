/** The meaning of a query against the inverted index (common/index.c,
    `index_search`): a query is a sequence of OR-separated clauses; a clause
    scores the smallest count among its words, or 0 when one of its words is
    not in the index; the document's score is the sum of its clause scores. */
module Scoring {

  /** A posting list (libcs50 `counters`): docID -> occurrence count. */
  type Postings = map<int, int>

  /** The inverted index (libcs50 `hashtable` of `counters`): word -> posting list. */
  type Table = map<string, Postings>

  /** `counters_get`: the count of `doc`, or 0 when it is absent. */
  function Get(p: Postings, doc: int): int {
    if doc in p then p[doc] else 0
  }

  /** The count of word `w` in document `doc`, 0 when the word or the document
      is absent. */
  function Count(t: Table, w: string, doc: int): int {
    if w in t then Get(t[w], doc) else 0
  }

  /** The index invariant: every word has a non-empty posting list, and every
      count in it is positive. */
  ghost predicate Valid(t: Table) {
    forall w :: w in t ==> t[w] != map[] && forall d :: d in t[w] ==> t[w][d] > 0
  }

  /** No count in the index is negative (true of every valid index). */
  ghost predicate NonNegative(t: Table) {
    forall w, d :: w in t && d in t[w] ==> t[w][d] >= 0
  }

  /** Under the invariant, the counts determine the index: two valid indexes
      that agree on every (word, docID) count are the same map. */
  lemma CountsDetermineValid(t1: Table, t2: Table)
    requires Valid(t1) && Valid(t2)
    requires forall w, d :: Count(t1, w, d) == Count(t2, w, d)
    ensures t1 == t2
  {
    forall w | w in t1 ensures w in t2 && t1[w] == t2[w] {
      var d := SomeDoc(t1[w]);
      assert Count(t1, w, d) > 0;
      assert Count(t2, w, d) > 0;
      forall e ensures e in t1[w] <==> e in t2[w] {
        assert Count(t1, w, e) == Count(t2, w, e);
      }
      forall e | e in t1[w] ensures t1[w][e] == t2[w][e] {
        assert Count(t1, w, e) == Count(t2, w, e);
      }
    }
    forall w | w in t2 ensures w in t1 {
      var d := SomeDoc(t2[w]);
      assert Count(t2, w, d) > 0;
      assert Count(t1, w, d) > 0;
    }
  }

  /** Some key of a non-empty posting list. */
  ghost function SomeDoc(p: Postings): (d: int)
    requires p != map[]
    ensures d in p
  {
    NonEmptyHasKey(p);
    var d :| d in p; d
  }

  lemma NonEmptyHasKey(p: Postings)
    requires p != map[]
    ensures exists d :: d in p
  {
    if forall d :: d !in p {
      assert false;
    }
  }

  /** Index of the first "or" token, or |ws| when there is none. */
  function IndexOfOr(ws: seq<string>): (k: nat)
    ensures k <= |ws|
  {
    if ws == [] then 0 else if ws[0] == "or" then 0 else 1 + IndexOfOr(ws[1..])
  }

  /** IndexOfOr finds the first "or": `k` is it exactly when `ws[k]` is "or"
      (or `k` is the end) and no "or" comes before. */
  lemma {:induction false} IndexOfOrFirst(ws: seq<string>, k: nat)
    requires k <= |ws|
    ensures IndexOfOr(ws) == k <==>
      (k < |ws| ==> ws[k] == "or") && forall j :: 0 <= j < k ==> ws[j] != "or"
    decreases |ws|
  {
    if ws != [] && ws[0] != "or" {
      if k > 0 {
        IndexOfOrFirst(ws[1..], k - 1);
        if forall j :: 0 <= j < k - 1 ==> ws[1..][j] != "or" {
          forall j | 0 <= j < k ensures ws[j] != "or" {
            if j > 0 {
              assert ws[j] == ws[1..][j - 1];
            }
          }
        }
        if forall j :: 0 <= j < k ==> ws[j] != "or" {
          forall j | 0 <= j < k - 1 ensures ws[1..][j] != "or" {
            assert ws[1..][j] == ws[j + 1];
          }
        }
      }
    }
  }

  /** The words of a clause: its tokens other than "and", which carry no weight. */
  function Terms(c: seq<string>): seq<string> {
    if c == [] then []
    else Terms(c[..|c| - 1]) + (if c[|c| - 1] == "and" then [] else [c[|c| - 1]])
  }

  /** The terms are exactly the clause's words other than "and". */
  lemma {:induction false} TermsMembers(c: seq<string>)
    ensures forall k :: 0 <= k < |Terms(c)| ==> Terms(c)[k] != "and" && Terms(c)[k] in c
    ensures forall k :: 0 <= k < |c| && c[k] != "and" ==> c[k] in Terms(c)
    decreases |c|
  {
    if c != [] {
      var p := c[..|c| - 1];
      TermsMembers(p);
      assert c == p + [c[|c| - 1]];
      forall k | 0 <= k < |c| && c[k] != "and" ensures c[k] in Terms(c) {
        if k < |p| {
          assert c[k] == p[k];
        }
      }
    }
  }

  /** A clause word that the index does not know. */
  predicate HasMissing(t: Table, c: seq<string>) {
    exists k :: 0 <= k < |c| && c[k] != "and" && c[k] !in t
  }

  /** The smallest count of the given words in document `doc`. */
  function MinCount(t: Table, ws: seq<string>, doc: int): int
    requires ws != []
  {
    if |ws| == 1 then Count(t, ws[0], doc)
    else
      var m := MinCount(t, ws[..|ws| - 1], doc);
      var c := Count(t, ws[|ws| - 1], doc);
      if c < m then c else m
  }

  /** The running minimum is a lower bound of the words' counts and is the
      count of one of them. */
  lemma {:induction false} MinCountIsMin(t: Table, ws: seq<string>, doc: int)
    requires ws != []
    ensures forall k :: 0 <= k < |ws| ==> MinCount(t, ws, doc) <= Count(t, ws[k], doc)
    ensures exists k :: 0 <= k < |ws| && MinCount(t, ws, doc) == Count(t, ws[k], doc)
    decreases |ws|
  {
    if |ws| == 1 {
      assert MinCount(t, ws, doc) == Count(t, ws[0], doc);
    } else {
      var p := ws[..|ws| - 1];
      MinCountIsMin(t, p, doc);
      var k :| 0 <= k < |p| && MinCount(t, p, doc) == Count(t, p[k], doc);
      assert p[k] == ws[k];
      forall m | 0 <= m < |ws| ensures MinCount(t, ws, doc) <= Count(t, ws[m], doc) {
        if m < |p| {
          assert p[m] == ws[m];
        }
      }
    }
  }

  /** What one AND-clause (no "or" inside) contributes to document `doc`. */
  function ClauseValue(t: Table, c: seq<string>, doc: int): int {
    if HasMissing(t, c) || Terms(c) == [] then 0 else MinCount(t, Terms(c), doc)
  }

  /** Reading one more token of a clause. */
  lemma ClauseSnoc(t: Table, c: seq<string>, x: string)
    ensures Terms(c + [x]) == Terms(c) + (if x == "and" then [] else [x])
    ensures HasMissing(t, c + [x]) <==> HasMissing(t, c) || (x != "and" && x !in t)
  {
    assert (c + [x])[..|c|] == c;
    if HasMissing(t, c) {
      var k :| 0 <= k < |c| && c[k] != "and" && c[k] !in t;
      assert (c + [x])[k] == c[k];
    }
    if x != "and" && x !in t {
      assert (c + [x])[|c|] == x;
    }
  }

  /** The running minimum after one more word. */
  lemma MinCountSnoc(t: Table, ws: seq<string>, x: string, doc: int)
    requires ws != []
    ensures MinCount(t, ws + [x], doc) == if Count(t, x, doc) < MinCount(t, ws, doc) then Count(t, x, doc) else MinCount(t, ws, doc)
  {
    assert (ws + [x])[..|ws|] == ws;
  }

  /** The running state of `index_search` after reading the clause prefix `c`:
      with an unknown word the running minimum is 0; otherwise `init` tells
      whether a word has been seen, and the running minimum is the smallest
      count so far. */
  ghost predicate Running(t: Table, c: seq<string>, init: bool, m: int, doc: int) {
    if HasMissing(t, c) then m == 0
    else (init <==> Terms(c) != []) && m == (if init then MinCount(t, Terms(c), doc) else 0)
  }

  /** The running minimum at the end of a clause is the clause's value. */
  lemma RunningValue(t: Table, c: seq<string>, init: bool, m: int, doc: int)
    requires Running(t, c, init, m, doc)
    ensures m == ClauseValue(t, c, doc)
  {
  }

  /** A clause has an unknown word after one more token when it had one
      before or the token is one. */
  lemma MissingStep(t: Table, ws: seq<string>, j: nat, i: nat)
    requires j <= i < |ws|
    ensures HasMissing(t, ws[j..i + 1]) <==> HasMissing(t, ws[j..i]) || (ws[i] != "and" && ws[i] !in t)
  {
    assert ws[j..i + 1] == ws[j..i] + [ws[i]];
    ClauseSnoc(t, ws[j..i], ws[i]);
  }

  /** An unknown word stays in the clause however far it extends. */
  lemma MissingExtends(t: Table, ws: seq<string>, j: nat, i: nat, k: nat)
    requires j <= i < k <= |ws|
    requires HasMissing(t, ws[j..i + 1])
    ensures HasMissing(t, ws[j..k])
  {
    var m :| 0 <= m < i + 1 - j && ws[j..i + 1][m] != "and" && ws[j..i + 1][m] !in t;
    assert ws[j..k][m] == ws[j..i + 1][m];
  }

  /** One token of `index_search`'s scan (not "or"): "and" changes nothing, an
      unknown word zeroes the clause, a known word lowers the running minimum. */
  lemma RunningStep(t: Table, ws: seq<string>, j: nat, i: nat, init: bool, m: int, doc: int)
    requires j <= i < |ws| && ws[i] != "or"
    requires Running(t, ws[j..i], init, m, doc)
    ensures HasMissing(t, ws[j..i + 1]) <==> HasMissing(t, ws[j..i]) || (ws[i] != "and" && ws[i] !in t)
    ensures ws[i] == "and" ==> Running(t, ws[j..i + 1], init, m, doc)
    ensures ws[i] != "and" && ws[i] !in t ==> Running(t, ws[j..i + 1], init, 0, doc)
    ensures ws[i] != "and" && ws[i] in t && !HasMissing(t, ws[j..i]) ==>
      Running(t, ws[j..i + 1], true, if !init || Count(t, ws[i], doc) < m then Count(t, ws[i], doc) else m, doc)
  {
    assert ws[j..i + 1] == ws[j..i] + [ws[i]];
    ClauseSnoc(t, ws[j..i], ws[i]);
    if ws[i] == "and" {
      assert Terms(ws[j..i]) + [] == Terms(ws[j..i]);
    }
    if ws[i] != "and" && ws[i] in t && !HasMissing(t, ws[j..i]) {
      if Terms(ws[j..i]) != [] {
        MinCountSnoc(t, Terms(ws[j..i]), ws[i], doc);
      } else {
        assert Terms(ws[j..i + 1]) == [ws[i]];
      }
    }
  }

  /** The score of document `doc` for the query `ws`: the sum of the values of
      its OR-separated clauses. */
  function Score(t: Table, ws: seq<string>, doc: int): int
    decreases |ws|
  {
    var k := IndexOfOr(ws);
    if k == |ws| then ClauseValue(t, ws, doc)
    else ClauseValue(t, ws[..k], doc) + Score(t, ws[k + 1..], doc)
  }

  /** OR adds: the score of `p or s` is the score of `p` plus the score of `s`. */
  lemma {:induction false} ScoreOr(t: Table, p: seq<string>, s: seq<string>, doc: int)
    ensures Score(t, p + ["or"] + s, doc) == Score(t, p, doc) + Score(t, s, doc)
    decreases |p|
  {
    var ws := p + ["or"] + s;
    var k := IndexOfOr(p);
    IndexOfOrFirst(p, k);
    assert ws[|p|] == "or";
    if k == |p| {
      IndexOfOrFirst(ws, |p|);
      assert IndexOfOr(ws) == |p|;
      assert ws[..|p|] == p && ws[|p| + 1..] == s;
    } else {
      assert p[k] == "or" && ws[k] == "or";
      IndexOfOrFirst(ws, k);
      assert IndexOfOr(ws) == k;
      assert ws[..k] == p[..k];
      assert ws[k + 1..] == p[k + 1..] + ["or"] + s;
      ScoreOr(t, p[k + 1..], s, doc);
    }
  }

  /** A query without "or" is a single clause. */
  lemma ScoreOfClause(t: Table, c: seq<string>, doc: int)
    requires forall k :: 0 <= k < |c| ==> c[k] != "or"
    ensures Score(t, c, doc) == ClauseValue(t, c, doc)
  {
    IndexOfOrFirst(c, |c|);
  }

  /** Closing the clause `ws[j..i]` (at an "or" or at the end): the clauses
      before position `j` plus this one make the score of `ws[..i]`. */
  lemma FlushClause(t: Table, ws: seq<string>, j: nat, i: nat, doc: int)
    requires j <= i <= |ws|
    requires j > 0 ==> ws[j - 1] == "or"
    requires forall k :: j <= k < i ==> ws[k] != "or"
    ensures (if j == 0 then 0 else Score(t, ws[..j - 1], doc)) + ClauseValue(t, ws[j..i], doc)
            == Score(t, ws[..i], doc)
  {
    ScoreOfClause(t, ws[j..i], doc);
    if j == 0 {
      assert ws[j..i] == ws[..i];
    } else {
      assert ws[..i] == ws[..j - 1] + ["or"] + ws[j..i];
      ScoreOr(t, ws[..j - 1], ws[j..i], doc);
    }
  }

  /** `index_search` closing a clause (at an "or" or at the end of the query):
      the clauses before position `j`, worth `done`, plus the running minimum
      of the clause `ws[j..i]` make the score of `ws[..i]`. */
  lemma CloseClause(t: Table, ws: seq<string>, j: nat, i: nat, init: bool, m: int, done: int, doc: int)
    requires j <= i <= |ws|
    requires j > 0 ==> ws[j - 1] == "or"
    requires forall k :: j <= k < i ==> ws[k] != "or"
    requires done == if j == 0 then 0 else Score(t, ws[..j - 1], doc)
    requires Running(t, ws[j..i], init, m, doc)
    ensures done + m == Score(t, ws[..i], doc)
  {
    RunningValue(t, ws[j..i], init, m, doc);
    FlushClause(t, ws, j, i, doc);
  }

  /** The state of `index_search`'s scan of document `doc` at position `i`:
      the current clause starts at `j` (just after an "or", or at the start),
      the closed clauses before it are worth `done`, and `init`/`m` are the
      running state of the current clause; an unknown word in it means the
      scan has skipped to the clause's end. */
  ghost predicate Scanning(t: Table, ws: seq<string>, i: int, j: int, init: bool, m: int, done: int, doc: int) {
    && 0 <= j <= i <= |ws|
    && (j > 0 ==> ws[j - 1] == "or")
    && (forall k :: j <= k < i ==> ws[k] != "or")
    && done == (if j == 0 then 0 else Score(t, ws[..j - 1], doc))
    && Running(t, ws[j..i], init, m, doc)
    && (HasMissing(t, ws[j..i]) ==> i == |ws| || ws[i] == "or")
  }

  /** At an "or", the running minimum is added to what is done and a new
      clause starts after it, with no word seen. */
  lemma ScanOr(t: Table, ws: seq<string>, i: int, j: int, init: bool, m: int, done: int, doc: int)
    requires Scanning(t, ws, i, j, init, m, done, doc) && i < |ws| && ws[i] == "or"
    ensures Scanning(t, ws, i + 1, i + 1, false, 0, done + m, doc)
  {
    CloseClause(t, ws, j, i, init, m, done, doc);
    assert ws[i + 1..i + 1] == [];
  }

  /** At the end of the query, what is done plus the running minimum is the
      document's score. */
  lemma ScanEnd(t: Table, ws: seq<string>, i: int, j: int, init: bool, m: int, done: int, doc: int)
    requires Scanning(t, ws, i, j, init, m, done, doc) && i == |ws|
    ensures done + m == Score(t, ws, doc)
  {
    CloseClause(t, ws, j, i, init, m, done, doc);
    assert ws[..i] == ws;
  }

  /** A clause is worth at least 0 when no count is negative. */
  lemma ClauseNonNegative(t: Table, c: seq<string>, doc: int)
    requires NonNegative(t)
    ensures ClauseValue(t, c, doc) >= 0
  {
    if !HasMissing(t, c) && Terms(c) != [] {
      MinCountIsMin(t, Terms(c), doc);
      var k :| 0 <= k < |Terms(c)| && ClauseValue(t, c, doc) == Count(t, Terms(c)[k], doc);
    }
  }

  /** Scores are never negative when no count is negative, so `index_search`
      only ever adds a non-negative amount to a document's slot. */
  lemma {:induction false} ScoreNonNegative(t: Table, ws: seq<string>, doc: int)
    requires NonNegative(t)
    ensures Score(t, ws, doc) >= 0
    decreases |ws|
  {
    var k := IndexOfOr(ws);
    if k == |ws| {
      var v := ClauseValue(t, ws, doc);
      ClauseNonNegative(t, ws, doc);
      assert Score(t, ws, doc) == v;
    } else {
      var v := ClauseValue(t, ws[..k], doc);
      ClauseNonNegative(t, ws[..k], doc);
      ScoreNonNegative(t, ws[k + 1..], doc);
      assert Score(t, ws, doc) == v + Score(t, ws[k + 1..], doc);
    }
  }

  /** AND takes the minimum: "a and b" scores min(count(a), count(b)) when both
      words are indexed. */
  lemma AndIsMin(t: Table, a: string, b: string, doc: int)
    requires a in t && b in t
    requires a != "and" && b != "and"
    ensures ClauseValue(t, [a, "and", b], doc) == if Count(t, a, doc) < Count(t, b, doc) then Count(t, a, doc) else Count(t, b, doc)
  {
    var c := [a, "and", b];
    assert c[..2][..1] == [a] && c[..2] == [a, "and"] && c[..1] == [a];
    assert Terms([a]) == [a];
    assert Terms([a, "and"]) == [a];
    assert Terms(c) == [a, b];
    assert !HasMissing(t, c);
    assert [a, b][..1] == [a];
    assert MinCount(t, [a], doc) == Count(t, a, doc);
  }

  /** An unknown word zeroes its own clause whatever the other words count, and
      leaves the other clauses alone: "x and zzz or y" scores exactly what "y" scores. */
  lemma UnknownWordZeroesClause(t: Table, c: seq<string>, rest: seq<string>, doc: int)
    requires forall k :: 0 <= k < |c| ==> c[k] != "or"
    requires HasMissing(t, c)
    ensures Score(t, c, doc) == 0
    ensures Score(t, c + ["or"] + rest, doc) == Score(t, rest, doc)
  {
    ScoreOfClause(t, c, doc);
    ScoreOr(t, c, rest, doc);
  }
}
