/** querier/querier.c: preparing a query line (`parse_query`) and checking
    its syntax (`verify_query`). */
module Query {
  import opened CType
  import opened Word

  /** Why `verify_query` turns a query down (the message it writes to stderr). */
  datatype Rejection =
    | NoWords                          // empty or only white space
    | BadChar(c: char)                 // "bad character '%c' in query"
    | OperatorFirst(w: string)         // "'%s' cannot be first"
    | OperatorLast(w: string)          // "'%s' cannot be last"
    | Adjacent(a: string, b: string)   // "'%s' and '%s' cannot be adjacent"

  predicate IsOperator(w: string) {
    w == "and" || w == "or"
  }

  predicate AllAlpha(w: string) {
    forall j :: 0 <= j < |w| ==> IsAlpha(w[j])
  }

  /** The first character of `w` that `isalpha` refuses. */
  function BadCharOf(w: string): Option<char> {
    if w == [] then None
    else if !IsAlpha(w[0]) then Some(w[0])
    else BadCharOf(w[1..])
  }

  /** BadCharOf finds a refused character exactly when there is one. */
  lemma {:induction false} BadCharOfSpec(w: string)
    ensures BadCharOf(w).None? <==> AllAlpha(w)
    ensures BadCharOf(w).Some? ==> BadCharOf(w).value in w && !IsAlpha(BadCharOf(w).value)
    decreases |w|
  {
    if w != [] && IsAlpha(w[0]) {
      BadCharOfSpec(w[1..]);
      assert forall j :: 0 < j < |w| ==> w[j] == w[1..][j - 1];
    }
  }

  /** The first refused character of the first word that has one. */
  function FirstBadChar(ws: seq<string>): Option<char> {
    if ws == [] then None
    else if BadCharOf(ws[0]).Some? then BadCharOf(ws[0])
    else FirstBadChar(ws[1..])
  }

  /** FirstBadChar finds a refused character exactly when some word has one. */
  lemma {:induction false} FirstBadCharSpec(ws: seq<string>)
    ensures FirstBadChar(ws).None? <==> forall i :: 0 <= i < |ws| ==> AllAlpha(ws[i])
    ensures FirstBadChar(ws).Some? ==>
      exists i :: 0 <= i < |ws| && FirstBadChar(ws).value in ws[i] && !IsAlpha(FirstBadChar(ws).value)
    decreases |ws|
  {
    if ws != [] {
      BadCharOfSpec(ws[0]);
      if BadCharOf(ws[0]).None? {
        FirstBadCharSpec(ws[1..]);
        assert forall i :: 0 < i < |ws| ==> ws[i] == ws[1..][i - 1];
      }
    }
  }

  /** The first pair of neighbouring operators at or after position `i`. */
  function FirstAdjacent(ws: seq<string>, i: nat): Option<(string, string)>
    requires i >= 1
    decreases |ws| - i
  {
    if i >= |ws| then None
    else if IsOperator(ws[i - 1]) && IsOperator(ws[i]) then Some((ws[i - 1], ws[i]))
    else FirstAdjacent(ws, i + 1)
  }

  /** FirstAdjacent finds a pair exactly when there is one from `i` on. */
  lemma {:induction false} FirstAdjacentSpec(ws: seq<string>, i: nat)
    requires i >= 1
    ensures FirstAdjacent(ws, i).None? <==> forall k :: i <= k < |ws| ==> !(IsOperator(ws[k - 1]) && IsOperator(ws[k]))
    ensures FirstAdjacent(ws, i).Some? ==>
      exists k :: i <= k < |ws| && FirstAdjacent(ws, i).value == (ws[k - 1], ws[k])
                && IsOperator(ws[k - 1]) && IsOperator(ws[k])
    decreases |ws| - i
  {
    if i < |ws| && !(IsOperator(ws[i - 1]) && IsOperator(ws[i])) {
      FirstAdjacentSpec(ws, i + 1);
    }
  }

  /** `verify_query`: the checks in the order the source makes them; None
      when the query is accepted. */
  function Verify(ws: seq<string>): Option<Rejection> {
    if ws == [] then Some(NoWords)
    else if FirstBadChar(ws).Some? then Some(BadChar(FirstBadChar(ws).value))
    else if IsOperator(ws[0]) then Some(OperatorFirst(ws[0]))
    else if IsOperator(ws[|ws| - 1]) then Some(OperatorLast(ws[|ws| - 1]))
    else if FirstAdjacent(ws, 1).Some? then Some(Adjacent(FirstAdjacent(ws, 1).value.0, FirstAdjacent(ws, 1).value.1))
    else None
  }

  /** The grammar the querier accepts: at least one word, only letters, no
      operator first or last, and no two operators side by side. */
  predicate WellFormedQuery(ws: seq<string>) {
    && ws != []
    && (forall i :: 0 <= i < |ws| ==> AllAlpha(ws[i]))
    && !IsOperator(ws[0])
    && !IsOperator(ws[|ws| - 1])
    && (forall k :: 1 <= k < |ws| ==> !(IsOperator(ws[k - 1]) && IsOperator(ws[k])))
  }

  /** `verify_query` accepts exactly the well-formed queries. */
  lemma VerifyAcceptsWellFormed(ws: seq<string>)
    ensures Verify(ws).None? <==> WellFormedQuery(ws)
  {
    FirstBadCharSpec(ws);
    FirstAdjacentSpec(ws, 1);
  }

  /** Each rejection names what is wrong: a refused character of some word,
      an operator at the start or end, or two neighbouring operators. */
  lemma VerifyRejectionReason(ws: seq<string>)
    ensures Verify(ws) == Some(NoWords) <==> ws == []
    ensures Verify(ws).Some? && Verify(ws).value.BadChar? ==>
      !IsAlpha(Verify(ws).value.c) && exists i :: 0 <= i < |ws| && Verify(ws).value.c in ws[i]
    ensures Verify(ws).Some? && Verify(ws).value.OperatorFirst? ==> IsOperator(ws[0])
    ensures Verify(ws).Some? && Verify(ws).value.OperatorLast? ==> IsOperator(ws[|ws| - 1])
    ensures Verify(ws).Some? && Verify(ws).value.Adjacent? ==>
      exists k :: 1 <= k < |ws| && IsOperator(ws[k - 1]) && IsOperator(ws[k])
                && Verify(ws).value == Adjacent(ws[k - 1], ws[k])
  {
    FirstBadCharSpec(ws);
    FirstAdjacentSpec(ws, 1);
  }

  /** The character check comes first: "and dog2" is refused for its '2',
      not for its leading "and". */
  lemma BadCharBeforeOperators()
    ensures Verify(["and", "dog2"]) == Some(BadChar('2'))
  {
    assert BadCharOf("and") == None;
    assert BadCharOf("dog2") == Some('2') by {
      assert "dog2"[1..] == "og2" && "og2"[1..] == "g2" && "g2"[1..] == "2";
    }
    assert ["and", "dog2"][1..] == ["dog2"];
  }

  /** Examples: "and dog", "dog or" and "dog and and cat" are refused; "dog and
      cat" and "dog or cat" are accepted. */
  lemma VerifyExamples()
    ensures Verify(["and", "dog"]) == Some(OperatorFirst("and"))
    ensures Verify(["dog", "or"]) == Some(OperatorLast("or"))
    ensures Verify(["dog", "and", "and", "cat"]) == Some(Adjacent("and", "and"))
    ensures Verify(["dog", "and", "cat"]) == None
    ensures Verify(["dog", "or", "cat"]) == None
  {
    VerifyAcceptsWellFormed(["dog", "and", "cat"]);
    VerifyAcceptsWellFormed(["dog", "or", "cat"]);
    assert FirstAdjacent(["dog", "and", "and", "cat"], 1) == FirstAdjacent(["dog", "and", "and", "cat"], 2);
  }

  /** The words stored in the first `n` slots of a `char**` array. */
  function Present(slots: seq<Option<string>>): (ws: seq<string>)
    requires forall k :: 0 <= k < |slots| ==> slots[k].Some?
    ensures |ws| == |slots| && forall k :: 0 <= k < |ws| ==> slots[k] == Some(ws[k])
  {
    seq(|slots|, k requires 0 <= k < |slots| => slots[k].value)
  }

  /** `verify_query` over the NULL-terminated array `parse_words` filled:
      NULL in slot 0 is the empty query; then every character of every word
      is checked, then the first and last word, then each neighbouring pair. */
  method VerifyQuery(words: array<Option<string>>, numWords: int) returns (r: Option<Rejection>)
    requires 0 <= numWords < words.Length
    requires forall k :: 0 <= k < numWords ==> words[k].Some?
    requires words[numWords] == None
    ensures r == Verify(Present(words[..numWords]))
  {
    ghost var ws := Present(words[..numWords]);
    if words[0] == None {
      return Some(NoWords);
    }
    // check for bad characters
    var i := 0;
    while i < numWords
      invariant 0 <= i <= numWords
      invariant forall k :: 0 <= k < i ==> AllAlpha(ws[k])
    {
      var bad := CheckChars(words[i].value);
      if bad.Some? {
        FirstBadCharAt(ws, i);
        return Some(BadChar(bad.value));
      }
      i := i + 1;
    }
    // operators at either end
    VerifyLettersOnly(ws);
    assert ws[0] == words[0].value && ws[numWords - 1] == words[numWords - 1].value;
    if IsOperator(words[0].value) {
      return Some(OperatorFirst(words[0].value));
    }
    if IsOperator(words[numWords - 1].value) {
      return Some(OperatorLast(words[numWords - 1].value));
    }
    // neighbouring operators
    i := 1;
    while i < numWords
      invariant 1 <= i <= numWords
      invariant FirstAdjacent(ws, 1) == FirstAdjacent(ws, i)
    {
      assert words[i].value == ws[i] && words[i - 1].value == ws[i - 1];
      if IsOperator(words[i].value) && IsOperator(words[i - 1].value) {
        return Some(Adjacent(words[i - 1].value, words[i].value));
      }
      i := i + 1;
    }
    return None;
  }

  /** Once every character is a letter, the operator checks decide. */
  lemma VerifyLettersOnly(ws: seq<string>)
    requires ws != []
    requires forall k :: 0 <= k < |ws| ==> AllAlpha(ws[k])
    ensures Verify(ws) ==
      if IsOperator(ws[0]) then Some(OperatorFirst(ws[0]))
      else if IsOperator(ws[|ws| - 1]) then Some(OperatorLast(ws[|ws| - 1]))
      else if FirstAdjacent(ws, 1).Some? then Some(Adjacent(FirstAdjacent(ws, 1).value.0, FirstAdjacent(ws, 1).value.1))
      else None
  {
    FirstBadCharSpec(ws);
  }

  /** The inner loop of `verify_query`'s character check over one word. */
  method CheckChars(word: string) returns (bad: Option<char>)
    ensures bad == BadCharOf(word)
    ensures bad.None? <==> AllAlpha(word)
  {
    BadCharOfSpec(word);
    var j := 0;
    while j < |word|
      invariant 0 <= j <= |word|
      invariant forall m :: 0 <= m < j ==> IsAlpha(word[m])
    {
      if !IsAlpha(word[j]) {
        BadCharAt(word, j);
        return Some(word[j]);
      }
      j := j + 1;
    }
    return None;
  }

  /** The first refused character of `w` is `w[j]` when `w[..j]` is all letters. */
  lemma {:induction false} BadCharAt(w: string, j: nat)
    requires j < |w| && !IsAlpha(w[j])
    requires forall m :: 0 <= m < j ==> IsAlpha(w[m])
    ensures BadCharOf(w) == Some(w[j])
    decreases j
  {
    if j > 0 {
      assert w[1..][j - 1] == w[j];
      BadCharAt(w[1..], j - 1);
    }
  }

  /** The first word with a refused character decides FirstBadChar. */
  lemma {:induction false} FirstBadCharAt(ws: seq<string>, i: nat)
    requires i < |ws| && !AllAlpha(ws[i])
    requires forall k :: 0 <= k < i ==> AllAlpha(ws[k])
    ensures FirstBadChar(ws) == BadCharOf(ws[i])
    decreases i
  {
    BadCharOfSpec(ws[0]);
    if i > 0 {
      assert ws[1..][i - 1] == ws[i];
      FirstBadCharAt(ws[1..], i - 1);
    }
  }

  /** `parse_query`'s first loop: `tolower` on every character of the buffer,
      in place. */
  method LowerInPlace(buf: array<char>)
    modifies buf
    ensures buf[..] == Lower(old(buf[..]))
  {
    var i := 0;
    while i < buf.Length
      invariant 0 <= i <= buf.Length
      invariant forall k :: 0 <= k < i ==> buf[k] == ToLower(old(buf[k]))
      invariant forall k :: i <= k < buf.Length ==> buf[k] == old(buf[k])
    {
      buf[i] := ToLower(buf[i]);
      i := i + 1;
    }
  }

  /** `parse_query` as the querier calls it (the counter starting at 0):
      lowercases the line in place, splits it into `words`, and answers
      whether `verify_query` accepts the words. `words` must have a slot per
      token of the lowercased line plus one for the terminator. */
  method ParseQuery(words: array<Option<string>>, query: array<char>) returns (ok: bool, numWords: int)
    requires words.Length >= |Tokens(Lower(query[..]), Whitespace)| + 1
    modifies words, query
    ensures query[..] == Lower(old(query[..]))
    ensures numWords == |Tokens(query[..], Whitespace)|
    ensures forall k :: 0 <= k < numWords ==> words[k] == Some(Tokens(query[..], Whitespace)[k])
    ensures words[numWords] == None
    ensures ok <==> Verify(Tokens(query[..], Whitespace)) == None
  {
    LowerInPlace(query);
    numWords := ParseWords(words, query[..], 0);
    ghost var ts := Tokens(query[..], Whitespace);
    assert words[..numWords] == seq(numWords, k requires 0 <= k < numWords => Some(ts[k]));
    assert Present(words[..numWords]) == ts;
    var verdict := VerifyQuery(words, numWords);
    ok := verdict == None;
  }

  /** An accepted query's words are non-empty, lower-case letters only. */
  lemma AcceptedWordsAreLowerLetters(line: string)
    requires Verify(Tokens(Lower(line), Whitespace)) == None
    ensures forall k :: 0 <= k < |Tokens(Lower(line), Whitespace)| ==>
      var w := Tokens(Lower(line), Whitespace)[k];
      w != [] && AllAlpha(w) && NoUpper(w)
  {
    var ts := Tokens(Lower(line), Whitespace);
    TokensShape(Lower(line));
    VerifyAcceptsWellFormed(ts);
    TokensLower(line);
  }

  /** Tokens of a lowercased line have no upper-case letter. */
  lemma TokensLower(line: string)
    ensures forall k :: 0 <= k < |Tokens(Lower(line), Whitespace)| ==> NoUpper(Tokens(Lower(line), Whitespace)[k])
  {
    LowerIdempotent(line);
    TokConcatLetters(Lower(line), Whitespace, []);
  }

  /** Every character of every token comes from the line. */
  lemma {:induction false} TokConcatLetters(s: string, delims: set<char>, cur: string)
    requires NoUpper(s) && NoUpper(cur)
    ensures forall k :: 0 <= k < |Tok(s, delims, cur)| ==> NoUpper(Tok(s, delims, cur)[k])
    decreases |s|
  {
    if s == [] {
    } else if s[0] in delims {
      TokConcatLetters(s[1..], delims, []);
    } else {
      TokConcatLetters(s[1..], delims, cur + [s[0]]);
    }
  }
}
