/** The index file format of common/index.c: one line per word,
    `word docID count docID count ...`, written by `index_itr` /
    `index_itr_helper` and read back by the loop in `index_load`. */
module Codec {
  import opened CType
  import opened Scoring

  // ---------------------------------------------------------------------------
  // Decimal numerals: `fprintf("%d")` and `sscanf("%d")`

  function DigitChar(d: nat): (c: char)
    requires d < 10
    ensures IsDigit(c)
  {
    ('0' as int + d) as char
  }

  /** The decimal numeral of a natural number, most significant digit first. */
  function ShowNat(n: nat): (r: string)
    ensures r != []
    ensures forall k :: 0 <= k < |r| ==> IsDigit(r[k])
  {
    if n < 10 then [DigitChar(n)] else ShowNat(n / 10) + [DigitChar(n % 10)]
  }

  /** What `%d` prints: an optional minus sign, then the digits. */
  function ShowInt(i: int): (r: string)
    ensures r != []
    ensures forall k :: 0 <= k < |r| ==> r[k] == '-' || IsDigit(r[k])
  {
    if i < 0 then "-" + ShowNat(-i) else ShowNat(i)
  }

  /** The value of a string of decimal digits. */
  function DigitsValue(ds: string): int
    requires forall k :: 0 <= k < |ds| ==> IsDigit(ds[k])
  {
    if ds == [] then 0
    else DigitsValue(ds[..|ds| - 1]) * 10 + (ds[|ds| - 1] as int - '0' as int)
  }

  /** The longest prefix made of decimal digits. */
  function DigitPrefix(s: string): (r: string)
    ensures |r| <= |s| && r == s[..|r|]
    ensures forall k :: 0 <= k < |r| ==> IsDigit(s[k])
    ensures |r| < |s| ==> !IsDigit(s[|r|])
  {
    if s != [] && IsDigit(s[0]) then [s[0]] + DigitPrefix(s[1..]) else []
  }

  function SkipSpace(s: string): (r: string)
    ensures r == [] || !IsSpace(r[0])
  {
    if s != [] && IsSpace(s[0]) then SkipSpace(s[1..]) else s
  }

  /** `sscanf(s, "%d", &v)`: skips white space, reads an optional sign and at
      least one digit; None when no number can be read (then `v` keeps its value). */
  function ScanInt(s: string): Option<int> {
    var u := SkipSpace(s);
    if u != [] && (u[0] == '-' || u[0] == '+') then
      var ds := DigitPrefix(u[1..]);
      if ds == [] then None else Some(if u[0] == '-' then -DigitsValue(ds) else DigitsValue(ds))
    else
      var ds := DigitPrefix(u);
      if ds == [] then None else Some(DigitsValue(ds))
  }

  lemma {:induction false} ShowNatValue(n: nat)
    ensures DigitsValue(ShowNat(n)) == n
    decreases n
  {
    var r := ShowNat(n);
    if n >= 10 {
      ShowNatValue(n / 10);
      assert r[..|r| - 1] == ShowNat(n / 10);
    }
  }

  lemma {:induction false} DigitPrefixOfDigits(s: string)
    requires forall k :: 0 <= k < |s| ==> IsDigit(s[k])
    ensures DigitPrefix(s) == s
    decreases |s|
  {
    if s != [] {
      DigitPrefixOfDigits(s[1..]);
    }
  }

  /** Scanning what `%d` printed gives the number back. */
  lemma ScanShowInt(i: int)
    ensures ScanInt(ShowInt(i)) == Some(i)
  {
    var n: nat := if i < 0 then -i else i;
    var s := ShowInt(i);
    ShowNatValue(n);
    DigitPrefixOfDigits(ShowNat(n));
    assert s[0] == '-' || IsDigit(s[0]);
    assert SkipSpace(s) == s;
    if i < 0 {
      assert s[1..] == ShowNat(n);
    } else {
      assert s == ShowNat(n);
    }
  }

  // ---------------------------------------------------------------------------
  // The printer (`index_itr`, `index_itr_helper`)

  /** One word's posting list in the order `counters_iterate` visits it. */
  type Listing = seq<(int, int)>

  /** `index_itr_helper`: ` docID count` per posting. */
  function PairsText(ps: Listing): string {
    if ps == [] then [] else " " + ShowInt(ps[0].0) + " " + ShowInt(ps[0].1) + PairsText(ps[1..])
  }

  /** `index_itr`: the word, then its postings, then a newline. */
  function IndexLine(w: string, ps: Listing): string {
    w + PairsText(ps) + "\n"
  }

  /** `index_save`: the lines of all words, in the order `hashtable_iterate`
      visits them (any order the hash table chooses). */
  function SaveIndex(es: seq<(string, Listing)>): string {
    if es == [] then [] else IndexLine(es[0].0, es[0].1) + SaveIndex(es[1..])
  }

  /** `ps` lists the posting list `m`: each docID once, with its count, and no other. */
  ghost predicate ListsPostings(ps: Listing, m: Postings) {
    && (forall i, j :: 0 <= i < j < |ps| ==> ps[i].0 != ps[j].0)
    && (forall i :: 0 <= i < |ps| ==> ps[i].0 in m && m[ps[i].0] == ps[i].1)
    && (forall d :: d in m ==> exists i :: 0 <= i < |ps| && ps[i].0 == d)
  }

  /** `es` lists the index `t`: each word once, each with a listing of its postings. */
  ghost predicate ListsIndex(es: seq<(string, Listing)>, t: Table) {
    && (forall i, j :: 0 <= i < j < |es| ==> es[i].0 != es[j].0)
    && (forall i :: 0 <= i < |es| ==> es[i].0 in t && ListsPostings(es[i].1, t[es[i].0]))
    && (forall w :: w in t ==> exists i :: 0 <= i < |es| && es[i].0 == w)
  }

  /** A word the format can carry: non-empty, with no space and no newline
      (every word the indexer stores is one). */
  predicate SavableWord(w: string) {
    w != [] && forall k :: 0 <= k < |w| ==> w[k] != ' ' && w[k] != '\n'
  }

  // ---------------------------------------------------------------------------
  // The reader (`file_readLine` and the loop body of `index_load`)

  /** Index of the first newline, or |s|. */
  function IndexOfNewline(s: string): (k: nat)
    ensures k <= |s|
    ensures k < |s| ==> s[k] == '\n'
  {
    if s == [] then 0 else if s[0] == '\n' then 0 else 1 + IndexOfNewline(s[1..])
  }

  /** The first newline of `l + "\n" + rest`, when `l` has none, ends `l`. */
  lemma {:induction false} IndexOfNewlineAfter(l: string, rest: string)
    requires forall j :: 0 <= j < |l| ==> l[j] != '\n'
    ensures IndexOfNewline(l + "\n" + rest) == |l|
    decreases |l|
  {
    if l != [] {
      assert (l + "\n" + rest)[1..] == l[1..] + "\n" + rest;
      IndexOfNewlineAfter(l[1..], rest);
    }
  }

  /** Successive `file_readLine` results: each line without its newline; the
      last line need not end in one; NULL once nothing is left. */
  function ReadLines(s: string): seq<string>
    decreases |s|
  {
    if s == [] then []
    else
      var k := IndexOfNewline(s);
      if k == |s| then [s] else [s[..k]] + ReadLines(s[k + 1..])
  }

  /** `sscanf` into a variable that keeps its previous value when nothing can be
      read; None stands for a variable never assigned. */
  function Rescan(tok: string, prev: Option<int>): Option<int> {
    match ScanInt(tok)
    case Some(v) => Some(v)
    case None => prev
  }

  /** libcs50's `counters_set` stores a pair only when neither the key nor
      the count is negative, and ignores it otherwise. */
  predicate CounterSetAccepts(key: int, count: int) {
    key >= 0 && count >= 0
  }

  /** An index `counters_set` can hold: no negative docID and no negative
      count (every index the indexer builds is one). */
  ghost predicate Storable(t: Table) {
    forall w, d :: w in t && d in t[w] ==> CounterSetAccepts(d, t[w][d])
  }

  /** The pair loop of `index_load`: tokens are consumed two at a time, each
      pair stored with `counters_set` (a later pair for the same docID
      overwrites an earlier one, and a negative docID or count is refused);
      an odd token at the end is ignored. */
  function ScanPairs(toks: seq<string>, docID: Option<int>, count: Option<int>, acc: Postings): Postings
    decreases |toks|
  {
    if |toks| < 2 then acc
    else
      var d := Rescan(toks[0], docID);
      var c := Rescan(toks[1], count);
      ScanPairs(toks[2..], d, c,
        if d.Some? && c.Some? && CounterSetAccepts(d.value, c.value) then acc[d.value := c.value] else acc)
  }

  /** One line of the index file: the first space-separated token is the word,
      the rest are its pairs; None when the line has no token (strtok returns
      NULL and nothing is inserted). */
  function ParseLine(line: string): Option<(string, Postings)> {
    var toks := Tokens(line, {' '});
    if toks == [] then None else Some((toks[0], ScanPairs(toks[1..], None, None, map[])))
  }

  /** `hashtable_insert` of the parsed line: a word already in the table keeps
      its first posting list. */
  function LoadLine(t: Table, line: string): Table {
    match ParseLine(line)
    case None => t
    case Some((w, p)) => if w in t then t else t[w := p]
  }

  /** The whole `index_load` loop over the file's lines. */
  function LoadLines(t: Table, lines: seq<string>): Table {
    if lines == [] then t else LoadLine(LoadLines(t, lines[..|lines| - 1]), lines[|lines| - 1])
  }

  // ---------------------------------------------------------------------------
  // Round trip

  function PairTokens(ps: Listing): seq<string> {
    if ps == [] then [] else [ShowInt(ps[0].0), ShowInt(ps[0].1)] + PairTokens(ps[1..])
  }

  /** Applies the pairs, in order, to a posting list. */
  function InsertAll(acc: Postings, ps: Listing): Postings
    decreases |ps|
  {
    if ps == [] then acc else InsertAll(acc[ps[0].0 := ps[0].1], ps[1..])
  }

  /** " t1 t2 ... tn" */
  function JoinTail(ts: seq<string>): string {
    if ts == [] then [] else " " + ts[0] + JoinTail(ts[1..])
  }

  lemma {:induction false} JoinCons(x: string, ts: seq<string>)
    ensures Join([x] + ts, ' ') == x + JoinTail(ts)
    decreases |ts|
  {
    if ts != [] {
      assert ([x] + ts)[1..] == ts;
      JoinCons(ts[0], ts[1..]);
      assert ts == [ts[0]] + ts[1..];
    }
  }

  lemma {:induction false} PairsTextTokens(ps: Listing)
    ensures PairsText(ps) == JoinTail(PairTokens(ps))
    decreases |ps|
  {
    if ps != [] {
      PairsTextTokens(ps[1..]);
      var a, b := ShowInt(ps[0].0), ShowInt(ps[0].1);
      var ts := [a, b] + PairTokens(ps[1..]);
      assert ts[1..] == [b] + PairTokens(ps[1..]);
      assert ts[1..][1..] == PairTokens(ps[1..]);
    }
  }

  lemma {:induction false} PairTokensWellFormed(ps: Listing)
    ensures WellFormedTokens(PairTokens(ps), {' '})
    decreases |ps|
  {
    if ps != [] {
      PairTokensWellFormed(ps[1..]);
    }
  }

  /** Every pair of the listing is one `counters_set` accepts. */
  predicate StorableListing(ps: Listing) {
    forall i :: 0 <= i < |ps| ==> CounterSetAccepts(ps[i].0, ps[i].1)
  }

  lemma {:induction false} ScanPairTokens(ps: Listing, d: Option<int>, c: Option<int>, acc: Postings)
    requires StorableListing(ps)
    ensures ScanPairs(PairTokens(ps), d, c, acc) == InsertAll(acc, ps)
    decreases |ps|
  {
    if ps != [] {
      var ts := PairTokens(ps);
      ScanShowInt(ps[0].0);
      ScanShowInt(ps[0].1);
      assert ts[2..] == PairTokens(ps[1..]);
      ScanPairTokens(ps[1..], Some(ps[0].0), Some(ps[0].1), acc[ps[0].0 := ps[0].1]);
    }
  }

  /** The printed line of a word parses back to the word and the same pairs. */
  lemma ParsePrintedLine(w: string, ps: Listing)
    requires SavableWord(w) && StorableListing(ps)
    ensures ParseLine(w + PairsText(ps)) == Some((w, InsertAll(map[], ps)))
  {
    PairsTextTokens(ps);
    JoinCons(w, PairTokens(ps));
    PairTokensWellFormed(ps);
    var toks := [w] + PairTokens(ps);
    assert WellFormedTokens(toks, {' '}) by {
      forall k | 0 <= k < |toks| ensures toks[k] != [] && NoDelim(toks[k], {' '}) {
        if k > 0 {
          assert toks[k] == PairTokens(ps)[k - 1];
        }
      }
    }
    TokensOfJoin(toks, ' ', {' '});
    assert toks[1..] == PairTokens(ps);
    ScanPairTokens(ps, None, None, map[]);
  }

  /** Inserting a listing of distinct docIDs into an empty posting list rebuilds
      exactly the listed posting list. */
  lemma {:induction false} InsertAllListing(acc: Postings, ps: Listing)
    requires forall i, j :: 0 <= i < j < |ps| ==> ps[i].0 != ps[j].0
    ensures forall d :: d in InsertAll(acc, ps) <==> d in acc || exists i :: 0 <= i < |ps| && ps[i].0 == d
    ensures forall i :: 0 <= i < |ps| ==> InsertAll(acc, ps)[ps[i].0] == ps[i].1
    ensures forall d :: d in acc && (forall i :: 0 <= i < |ps| ==> ps[i].0 != d) ==> InsertAll(acc, ps)[d] == acc[d]
    decreases |ps|
  {
    if ps != [] {
      var acc' := acc[ps[0].0 := ps[0].1];
      InsertAllListing(acc', ps[1..]);
      forall d ensures d in InsertAll(acc, ps) <==> d in acc || exists i :: 0 <= i < |ps| && ps[i].0 == d {
        if exists i :: 0 <= i < |ps[1..]| && ps[1..][i].0 == d {
          var i :| 0 <= i < |ps[1..]| && ps[1..][i].0 == d;
          assert ps[i + 1].0 == d;
        }
        if exists i :: 0 <= i < |ps| && ps[i].0 == d {
          var i :| 0 <= i < |ps| && ps[i].0 == d;
          if i > 0 {
            assert ps[1..][i - 1].0 == d;
          }
        }
      }
      forall i | 0 <= i < |ps| ensures InsertAll(acc, ps)[ps[i].0] == ps[i].1 {
        if i > 0 {
          assert ps[1..][i - 1] == ps[i];
        } else {
          assert forall j :: 0 <= j < |ps[1..]| ==> ps[1..][j].0 != ps[0].0;
        }
      }
      forall d | d in acc && (forall i :: 0 <= i < |ps| ==> ps[i].0 != d)
        ensures InsertAll(acc, ps)[d] == acc[d]
      {
        assert forall j :: 0 <= j < |ps[1..]| ==> ps[1..][j].0 != d;
      }
    }
  }

  lemma PostingsRoundTrip(ps: Listing, m: Postings)
    requires ListsPostings(ps, m)
    ensures InsertAll(map[], ps) == m
  {
    InsertAllListing(map[], ps);
    var r := InsertAll(map[], ps);
    forall d ensures d in r <==> d in m {
      if d in m {
        var i :| 0 <= i < |ps| && ps[i].0 == d;
      }
    }
    assert r.Keys == m.Keys;
    forall d | d in m ensures r[d] == m[d] {
      var i :| 0 <= i < |ps| && ps[i].0 == d;
    }
  }

  /** The printed lines, one per entry, without their newlines. */
  function SavedLines(es: seq<(string, Listing)>): seq<string> {
    seq(|es|, i requires 0 <= i < |es| => es[i].0 + PairsText(es[i].1))
  }

  /** A line without a newline, followed by one, is read back as that line. */
  lemma ReadLinesCons(l: string, rest: string)
    requires forall j :: 0 <= j < |l| ==> l[j] != '\n'
    ensures ReadLines(l + "\n" + rest) == [l] + ReadLines(rest)
  {
    var s := l + "\n" + rest;
    IndexOfNewlineAfter(l, rest);
    assert s[..|l|] == l && s[|l| + 1..] == rest;
  }

  lemma {:induction false} ReadSavedLines(es: seq<(string, Listing)>)
    requires forall i :: 0 <= i < |es| ==> SavableWord(es[i].0)
    ensures ReadLines(SaveIndex(es)) == SavedLines(es)
    decreases |es|
  {
    if es != [] {
      var l := es[0].0 + PairsText(es[0].1);
      var rest := SaveIndex(es[1..]);
      NoNewlineInLine(es[0].0, es[0].1);
      assert SaveIndex(es) == l + "\n" + rest;
      ReadLinesCons(l, rest);
      ReadSavedLines(es[1..]);
      SavedLinesCons(es);
    }
  }

  lemma SavedLinesCons(es: seq<(string, Listing)>)
    requires es != []
    ensures SavedLines(es) == [es[0].0 + PairsText(es[0].1)] + SavedLines(es[1..])
  {
  }

  lemma {:induction false} NoNewlineInPairs(ps: Listing)
    ensures forall k :: 0 <= k < |PairsText(ps)| ==> PairsText(ps)[k] != '\n'
    decreases |ps|
  {
    if ps != [] {
      NoNewlineInPairs(ps[1..]);
      var a, b := ShowInt(ps[0].0), ShowInt(ps[0].1);
      assert PairsText(ps) == " " + a + " " + b + PairsText(ps[1..]);
    }
  }

  lemma NoNewlineInLine(w: string, ps: Listing)
    requires SavableWord(w)
    ensures forall k :: 0 <= k < |w + PairsText(ps)| ==> (w + PairsText(ps))[k] != '\n'
  {
    NoNewlineInPairs(ps);
  }

  /** The table the entries describe, built up to the last one. */
  function EntriesTable(es: seq<(string, Listing)>): Table {
    if es == [] then map[]
    else EntriesTable(es[..|es| - 1])[es[|es| - 1].0 := InsertAll(map[], es[|es| - 1].1)]
  }

  lemma {:induction false} EntriesTableKeys(es: seq<(string, Listing)>)
    ensures forall w :: w in EntriesTable(es) <==> exists i :: 0 <= i < |es| && es[i].0 == w
    decreases |es|
  {
    if es != [] {
      var n := |es| - 1;
      var init := es[..n];
      EntriesTableKeys(init);
      forall w ensures w in EntriesTable(es) <==> exists i :: 0 <= i < |es| && es[i].0 == w {
        if exists i :: 0 <= i < |init| && init[i].0 == w {
          var i :| 0 <= i < |init| && init[i].0 == w;
          assert es[i].0 == w;
        }
        if exists i :: 0 <= i < |es| && es[i].0 == w {
          var i :| 0 <= i < |es| && es[i].0 == w;
          if i < n {
            assert init[i].0 == w;
          }
        }
      }
    }
  }

  lemma {:induction false} LoadSavedLines(es: seq<(string, Listing)>)
    requires forall i :: 0 <= i < |es| ==> SavableWord(es[i].0) && StorableListing(es[i].1)
    requires forall i, j :: 0 <= i < j < |es| ==> es[i].0 != es[j].0
    ensures LoadLines(map[], SavedLines(es)) == EntriesTable(es)
    decreases |es|
  {
    if es != [] {
      var n := |es| - 1;
      var init := es[..n];
      var lines := SavedLines(es);
      assert lines[..n] == SavedLines(init);
      LoadSavedLines(init);
      ParsePrintedLine(es[n].0, es[n].1);
      EntriesTableKeys(init);
      assert es[n].0 !in EntriesTable(init);
      assert LoadLines(map[], lines) == LoadLine(EntriesTable(init), lines[n]);
    }
  }

  lemma {:induction false} EntriesTableValues(es: seq<(string, Listing)>, i: nat)
    requires forall a, b :: 0 <= a < b < |es| ==> es[a].0 != es[b].0
    requires i < |es|
    ensures es[i].0 in EntriesTable(es) && EntriesTable(es)[es[i].0] == InsertAll(map[], es[i].1)
    decreases |es|
  {
    var n := |es| - 1;
    if i < n {
      EntriesTableValues(es[..n], i);
    }
  }

  /** Loading what `index_save` wrote gives back the same word -> docID -> count
      map, whatever order the hash table and the counters were visited in. */
  lemma SaveLoadRoundTrip(es: seq<(string, Listing)>, t: Table)
    requires ListsIndex(es, t)
    requires forall w :: w in t ==> SavableWord(w)
    requires Storable(t)
    ensures LoadLines(map[], ReadLines(SaveIndex(es))) == t
  {
    forall i | 0 <= i < |es| ensures StorableListing(es[i].1) {
      forall k | 0 <= k < |es[i].1| ensures CounterSetAccepts(es[i].1[k].0, es[i].1[k].1) {
        assert es[i].1[k].0 in t[es[i].0];
      }
    }
    ReadSavedLines(es);
    LoadSavedLines(es);
    EntriesTableIsIndex(es, t);
  }

  /** The table the saved lines load into is the listed index. */
  lemma EntriesTableIsIndex(es: seq<(string, Listing)>, t: Table)
    requires ListsIndex(es, t)
    ensures EntriesTable(es) == t
  {
    var r := EntriesTable(es);
    forall w | w in t ensures w in r && r[w] == t[w] {
      EntryOfIndex(es, t, w);
    }
    forall w | w in r ensures w in t {
      EntriesTableKeys(es);
      var i :| 0 <= i < |es| && es[i].0 == w;
    }
  }

  /** A listed word loads with its own posting list. */
  lemma EntryOfIndex(es: seq<(string, Listing)>, t: Table, w: string)
    requires ListsIndex(es, t) && w in t
    ensures w in EntriesTable(es) && EntriesTable(es)[w] == t[w]
  {
    var i :| 0 <= i < |es| && es[i].0 == w;
    EntriesTableValues(es, i);
    PostingsRoundTrip(es[i].1, t[w]);
  }

  // ---------------------------------------------------------------------------
  // What a load can produce

  /** The pair loop stores only pairs `counters_set` accepts. */
  lemma {:induction false} ScanPairsStorable(toks: seq<string>, d: Option<int>, c: Option<int>, acc: Postings)
    requires forall e :: e in acc ==> CounterSetAccepts(e, acc[e])
    ensures forall e :: e in ScanPairs(toks, d, c, acc) ==> CounterSetAccepts(e, ScanPairs(toks, d, c, acc)[e])
    decreases |toks|
  {
    if |toks| >= 2 {
      var d', c' := Rescan(toks[0], d), Rescan(toks[1], c);
      var acc' := if d'.Some? && c'.Some? && CounterSetAccepts(d'.value, c'.value) then acc[d'.value := c'.value] else acc;
      ScanPairsStorable(toks[2..], d', c', acc');
    }
  }

  /** Loading keeps an index storable: whatever the file holds, no negative
      docID or count enters the index. */
  lemma {:induction false} LoadLinesStorable(t: Table, lines: seq<string>)
    requires Storable(t)
    ensures Storable(LoadLines(t, lines))
    decreases |lines|
  {
    if lines != [] {
      var t0 := LoadLines(t, lines[..|lines| - 1]);
      LoadLinesStorable(t, lines[..|lines| - 1]);
      var toks := Tokens(lines[|lines| - 1], {' '});
      if toks != [] {
        ScanPairsStorable(toks[1..], None, None, map[]);
      }
    }
  }

  /** The index `index_load` builds from any file has no negative count, so
      no query scores a document below 0. */
  lemma LoadedNonNegative(text: string)
    ensures NonNegative(LoadLines(map[], ReadLines(text)))
  {
    LoadLinesStorable(map[], ReadLines(text));
  }
}
