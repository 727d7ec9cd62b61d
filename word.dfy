/** common/word.c: splitting a query line into whitespace-separated tokens. */
module Word {
  import opened CType

  /** The delimiter set `parse_words` hands to `strtok`: the characters `isspace` accepts. */
  const Whitespace: set<char> := {' ', '\t', '\r', '\n', '\U{000B}', '\U{000C}'}

  lemma WhitespaceIsSpace(c: char)
    ensures c in Whitespace <==> IsSpace(c)
  {
  }

  /** `parse_words`: stores the tokens of `line` in `words[0]`, `words[1]`, ...,
      writes the NULL terminator (None) after the last one, and raises the
      caller's counter by one per token. The caller must provide one slot per
      token plus the terminator. */
  method ParseWords(words: array<Option<string>>, line: string, numWords0: int) returns (numWords: int)
    requires words.Length >= |Tokens(line, Whitespace)| + 1
    modifies words
    ensures numWords == numWords0 + |Tokens(line, Whitespace)|
    ensures forall k :: 0 <= k < |Tokens(line, Whitespace)| ==> words[k] == Some(Tokens(line, Whitespace)[k])
    ensures words[|Tokens(line, Whitespace)|] == None
    ensures forall k :: |Tokens(line, Whitespace)| < k < words.Length ==> words[k] == old(words[k])
  {
    ghost var all := Tokens(line, Whitespace);
    numWords := numWords0;
    var i := 0;
    var pos: nat := 0;
    var tok;
    assert line[0..] == line;
    tok, pos := Strtok(line, pos, Whitespace);
    words[i] := tok;
    while words[i] != None
      invariant 0 <= i < words.Length && pos <= |line|
      invariant words[i] == None ==> i == |all|
      invariant words[i] != None ==> i < |all| && words[i] == Some(all[i]) && all[i + 1..] == Tokens(line[pos..], Whitespace)
      invariant forall k :: 0 <= k < i ==> words[k] == Some(all[k])
      invariant forall k :: i < k < words.Length ==> words[k] == old(words[k])
      invariant numWords == numWords0 + i
      decreases |all| - i
    {
      numWords := numWords + 1;
      tok, pos := Strtok(line, pos, Whitespace);
      if tok.Some? {
        assert all[i + 1..][1..] == all[i + 2..];
      }
      i := i + 1;
      words[i] := tok;
    }
  }

  /** Tokens are non-empty, hold no whitespace, and together spell the line's
      non-whitespace characters in order. */
  lemma TokensShape(line: string)
    ensures WellFormedTokens(Tokens(line, Whitespace), Whitespace)
    ensures Concat(Tokens(line, Whitespace)) == Strip(line, Whitespace)
  {
    TokWellFormed(line, Whitespace, []);
    TokConcat(line, Whitespace, []);
  }

  /** A line of whitespace only has no tokens, so `words[0]` is NULL. */
  lemma {:induction false} BlankLineHasNoTokens(line: string)
    requires forall k :: 0 <= k < |line| ==> line[k] in Whitespace
    ensures Tokens(line, Whitespace) == []
    decreases |line|
  {
    if line != [] {
      BlankLineHasNoTokens(line[1..]);
    }
  }

  /** The querier allocates `strlen(query)` slots. That is enough for tokens and
      terminator on every line of two or more characters ... */
  lemma AsWrittenSlotsSufficeFromTwo(line: string)
    requires |line| >= 2
    ensures |Tokens(line, Whitespace)| + 1 <= |line|
  {
  }

  /** ... but not on a one-letter query such as "a": its one token needs a
      terminator in slot 1 of an array of length 1. */
  lemma AsWrittenSlotsOverflow()
    ensures |Tokens("a", Whitespace)| + 1 > |"a"|
  {
    assert "a"[0] !in Whitespace;
    assert "a"[1..] == [];
    assert [] + ['a'] == "a";
    assert Tok("a", Whitespace, []) == Tok([], Whitespace, "a") == ["a"];
  }
}
