/** indexer/indexer.c: building the inverted index from the crawled pages.
    `indexPage` adds the words of one page under its docID; `indexBuild`
    hands it the pages 1, 2, 3, ... of the page directory until the first
    docID with no file. A page is the sequence of words the page's HTML
    yields; a page directory is the map from docID to the page stored under
    that name. */
module Indexer {
  import opened CType
  import opened Scoring
  import opened Index
  import opened Codec
  import Query

  /** The number of words of `page` that `indexPage` turns into `w`: words of
      at least 3 characters whose lowercase form is `w`. Only a lowercase
      word of at least 3 characters can occur. */
  function Occurrences(page: seq<string>, w: string): (n: nat)
    ensures n <= |page|
    ensures n > 0 ==> |w| >= 3 && NoUpper(w)
  {
    if page == [] then 0
    else
      var v := page[|page| - 1];
      LowerIdempotent(v);
      Occurrences(page[..|page| - 1], w) + (if |v| >= 3 && Lower(v) == w then 1 else 0)
  }

  /** The index after `indexPage` on `page` with `docID`: the index after
      the page without its last word, with that word lowercased and added
      when it has at least 3 characters. */
  function PageAdded(t: Table, page: seq<string>, docID: int): (r: Table)
    ensures |page| == 0 ==> r == t
  {
    if page == [] then t
    else
      var v := page[|page| - 1];
      var r0 := PageAdded(t, page[..|page| - 1], docID);
      if |v| < 3 then r0 else Inserted(r0, Lower(v), docID)
  }

  /** After `indexPage`, every count of `docID` has grown by the word's
      occurrences in the page and every other document's counts are
      unchanged; the words added are exactly those that occur. */
  lemma {:induction false} PageAddedCounts(t: Table, page: seq<string>, docID: int)
    ensures forall v, d :: (Count(PageAdded(t, page, docID), v, d) ==
      Count(t, v, d) + if d == docID then Occurrences(page, v) else 0)
    ensures forall v :: v in PageAdded(t, page, docID) <==> v in t || Occurrences(page, v) > 0
  {
    if page != [] {
      PageAddedCounts(t, page[..|page| - 1], docID);
    }
  }

  /** A word shorter than 3 characters, or one with an upper-case letter,
      never reaches the index through `indexPage`: its counts are unchanged
      and it is a word of the new index only if it was one of the old. */
  lemma PageSkips(t: Table, page: seq<string>, docID: int, w: string)
    requires |w| < 3 || !NoUpper(w)
    ensures forall d :: Count(PageAdded(t, page, docID), w, d) == Count(t, w, d)
    ensures w in PageAdded(t, page, docID) <==> w in t
  {
    PageAddedCounts(t, page, docID);
  }

  /** `indexPage` keeps the index invariant. */
  lemma {:induction false} PageAddedValid(t: Table, page: seq<string>, docID: int)
    requires Valid(t)
    ensures Valid(PageAdded(t, page, docID))
  {
    if page != [] {
      PageAddedValid(t, page[..|page| - 1], docID);
    }
  }

  /** `indexPage`: skips every word shorter than 3 characters, lowercases
      the others in place and adds each to the index under `docID`. */
  method IndexPage(index: InvertedIndex, page: seq<string>, docID: int)
    requires docID >= 0
    modifies index
    ensures index.table == PageAdded(old(index.table), page, docID)
  {
    var pos := 0;
    while pos < |page|
      invariant 0 <= pos <= |page|
      invariant index.table == PageAdded(old(index.table), page[..pos], docID)
    {
      var word := page[pos];
      assert page[..pos + 1][..pos] == page[..pos] && page[..pos + 1][pos] == word;
      pos := pos + 1;
      if |word| < 3 {
        continue;
      }
      var buf := new char[|word|](i requires 0 <= i < |word| => word[i]);
      assert buf[..] == word;
      Query.LowerInPlace(buf);
      var _ := index.Add(buf[..], docID);
    }
    assert page[..pos] == page;
  }

  /** The docIDs 1, ..., n - 1 all name a page. */
  ghost predicate PagesBelow(pages: map<int, seq<string>>, n: int) {
    forall d :: 1 <= d < n ==> d in pages
  }

  /** A set holding the docIDs 1, ..., n has at least n elements. */
  lemma {:induction false} UptoBound(n: nat, b: set<int>)
    requires forall d :: 1 <= d <= n ==> d in b
    ensures n <= |b|
  {
    if n > 0 {
      UptoBound(n - 1, b - {n});
      assert |b| == |b - {n}| + 1;
    }
  }

  /** A directory holding pages 1, ..., n has at least n pages. */
  lemma PagesBelowBound(pages: map<int, seq<string>>, n: nat)
    requires PagesBelow(pages, n + 1)
    ensures n <= |pages|
  {
    UptoBound(n, pages.Keys);
  }

  /** The first docID from `k` up that names no page. */
  function FirstMissingFrom(pages: map<int, seq<string>>, k: int): (n: int)
    requires k >= 1 && PagesBelow(pages, k)
    ensures k <= n && n !in pages && PagesBelow(pages, n)
    decreases |pages| - k
  {
    if k !in pages then k
    else
      PagesBelowBound(pages, k);
      FirstMissingFrom(pages, k + 1)
  }

  /** The docID at which `indexBuild` stops: pages 1 up to it are all there,
      and it is not. */
  function FirstMissing(pages: map<int, seq<string>>): (n: int)
    ensures 1 <= n && n !in pages && PagesBelow(pages, n)
  {
    FirstMissingFrom(pages, 1)
  }

  /** The index after pages 1, ..., n - 1 were added in turn, each under its
      own docID. */
  function Built(t: Table, pages: map<int, seq<string>>, n: int): (r: Table)
    requires 1 <= n && PagesBelow(pages, n)
    ensures n == 1 ==> r == t
    decreases n
  {
    if n == 1 then t else PageAdded(Built(t, pages, n - 1), pages[n - 1], n - 1)
  }

  /** After `indexBuild`, the count of (w, d) has grown by the occurrences of
      w in page d for each of the docIDs 1, ..., n - 1 and by nothing for any
      other document. */
  lemma {:induction false} BuiltCount(t: Table, pages: map<int, seq<string>>, n: int, v: string, d: int)
    requires 1 <= n && PagesBelow(pages, n)
    ensures Count(Built(t, pages, n), v, d) == Count(t, v, d) + if 1 <= d < n then Occurrences(pages[d], v) else 0
    decreases n
  {
    if n > 1 {
      BuiltCount(t, pages, n - 1, v, d);
      PageAddedCounts(Built(t, pages, n - 1), pages[n - 1], n - 1);
    }
  }

  /** `indexBuild` keeps the index invariant. */
  lemma {:induction false} BuiltValid(t: Table, pages: map<int, seq<string>>, n: int)
    requires 1 <= n && PagesBelow(pages, n) && Valid(t)
    ensures Valid(Built(t, pages, n))
    decreases n
  {
    if n > 1 {
      BuiltValid(t, pages, n - 1);
      PageAddedValid(Built(t, pages, n - 1), pages[n - 1], n - 1);
    }
  }

  /** `indexBuild`: indexes page 1, then page 2, and so on, stopping at the
      first docID with no page. */
  method IndexBuild(index: InvertedIndex, pages: map<int, seq<string>>)
    modifies index
    ensures index.table == Built(old(index.table), pages, FirstMissing(pages))
  {
    var docID := 1;
    while docID in pages
      invariant 1 <= docID && PagesBelow(pages, docID)
      invariant index.table == Built(old(index.table), pages, docID)
      decreases |pages| - docID
    {
      PagesBelowBound(pages, docID);
      IndexPage(index, pages[docID], docID);
      docID := docID + 1;
    }
  }

  // ---------------------------------------------------------------------------
  // The saved index of a build loads back

  /** Words as the HTML reader yields them: runs of letters. */
  predicate LetterWords(page: seq<string>) {
    forall k :: 0 <= k < |page| ==> Query.AllAlpha(page[k])
  }

  /** An index the index file format carries: every word non-empty without
      space or newline, and no negative docID or count. */
  ghost predicate SavableIndex(t: Table) {
    (forall w :: w in t ==> SavableWord(w)) && Storable(t)
  }

  /** One `index_add` of a letter word under a non-negative docID keeps the
      index savable. */
  lemma InsertedSavable(t: Table, w: string, docID: int)
    requires SavableIndex(t) && docID >= 0
    requires w != [] && Query.AllAlpha(w)
    ensures SavableIndex(Inserted(t, w, docID))
  {
    var r := Inserted(t, w, docID);
    forall v, d | v in r && d in r[v] ensures CounterSetAccepts(d, r[v][d]) {
      if v == w && d == docID {
        assert r[v][d] == Count(r, v, d) == Count(t, v, d) + 1;
      } else {
        assert Count(r, v, d) == Count(t, v, d);
      }
    }
  }

  /** `indexPage` of a page of letter words keeps the index savable. */
  lemma {:induction false} PageAddedSavable(t: Table, page: seq<string>, docID: int)
    requires SavableIndex(t) && docID >= 0 && LetterWords(page)
    ensures SavableIndex(PageAdded(t, page, docID))
  {
    if page != [] {
      var v := page[|page| - 1];
      PageAddedSavable(t, page[..|page| - 1], docID);
      if |v| >= 3 {
        assert Query.AllAlpha(v);
        InsertedSavable(PageAdded(t, page[..|page| - 1], docID), Lower(v), docID);
      }
    }
  }

  /** `indexBuild` over pages of letter words keeps the index savable. */
  lemma {:induction false} BuiltSavable(t: Table, pages: map<int, seq<string>>, n: int)
    requires 1 <= n && PagesBelow(pages, n) && SavableIndex(t)
    requires forall d :: d in pages ==> LetterWords(pages[d])
    ensures SavableIndex(Built(t, pages, n))
    decreases n
  {
    if n > 1 {
      BuiltSavable(t, pages, n - 1);
      PageAddedSavable(Built(t, pages, n - 1), pages[n - 1], n - 1);
    }
  }

  /** The index `indexBuild` makes from pages of letter words, saved by
      `index_save` in any order, loads back with `index_load` to the same
      index. */
  lemma BuildSaveLoad(pages: map<int, seq<string>>, es: seq<(string, Listing)>)
    requires forall d :: d in pages ==> LetterWords(pages[d])
    requires ListsIndex(es, Built(map[], pages, FirstMissing(pages)))
    ensures LoadLines(map[], ReadLines(SaveIndex(es))) == Built(map[], pages, FirstMissing(pages))
  {
    var t := Built(map[], pages, FirstMissing(pages));
    BuiltSavable(map[], pages, FirstMissing(pages));
    SaveLoadRoundTrip(es, t);
  }
}
