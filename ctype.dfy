/** Character classes of the C library in the "C" locale, and the
    tokenizer `strtok` (ISO/IEC 9899:2011 section 7.24.5.8) as a
    specification function over strings. */
module CType {

  datatype Option<+T> = None | Some(value: T)

  /** `isspace` in the C locale: space, tab, newline, vertical tab, form feed, carriage return. */
  predicate IsSpace(c: char) {
    c == ' ' || c == '\t' || c == '\n' || c == '\U{000B}' || c == '\U{000C}' || c == '\r'
  }

  predicate IsUpper(c: char) { 'A' <= c <= 'Z' }

  /** `isalpha` in the C locale: the 52 ASCII letters. */
  predicate IsAlpha(c: char) { 'a' <= c <= 'z' || IsUpper(c) }

  predicate IsDigit(c: char) { '0' <= c <= '9' }

  /** `tolower` in the C locale: maps 'A'..'Z' to 'a'..'z' and leaves every other character alone. */
  function ToLower(c: char): (r: char)
    ensures !IsUpper(r)
    ensures IsAlpha(r) <==> IsAlpha(c)
    ensures !IsUpper(c) ==> r == c
  {
    if IsUpper(c) then (c as int + 32) as char else c
  }

  /** The string with `tolower` applied to every character. */
  function Lower(s: string): (r: string)
    ensures |r| == |s|
    ensures forall i :: 0 <= i < |s| ==> r[i] == ToLower(s[i])
  {
    seq(|s|, i requires 0 <= i < |s| => ToLower(s[i]))
  }

  predicate NoUpper(s: string) { forall i :: 0 <= i < |s| ==> !IsUpper(s[i]) }

  /** Lowercasing leaves no upper-case letter, and doing it twice is doing it once. */
  lemma LowerIdempotent(s: string)
    ensures NoUpper(Lower(s))
    ensures Lower(Lower(s)) == Lower(s)
  {
  }

  /** Lowercasing changes no character of a string that has no upper-case letter. */
  lemma LowerOfLower(s: string)
    requires NoUpper(s)
    ensures Lower(s) == s
  {
  }

  predicate NoDelim(s: string, delims: set<char>) {
    forall i :: 0 <= i < |s| ==> s[i] !in delims
  }

  /** The tokens `strtok` returns on successive calls over `s`: `cur` is the token
      read so far; a delimiter ends a non-empty token, runs of delimiters are
      skipped, and the end of the string ends the last token. */
  function Tok(s: string, delims: set<char>, cur: string): seq<string>
    decreases |s|
  {
    if s == [] then
      (if cur == [] then [] else [cur])
    else if s[0] in delims then
      (if cur == [] then Tok(s[1..], delims, []) else [cur] + Tok(s[1..], delims, []))
    else
      Tok(s[1..], delims, cur + [s[0]])
  }

  /** All tokens `strtok(s, delims)` followed by `strtok(NULL, delims)` yields, in
      order; a token needs a character and neighbouring tokens a delimiter between
      them, so there are at most (|s| + 1) / 2 of them. */
  function Tokens(s: string, delims: set<char>): (r: seq<string>)
    ensures 2 * |r| <= |s| + 1
  {
    TokCount(s, delims, []);
    Tok(s, delims, [])
  }

  /** The characters of `s` that are not delimiters, in order. */
  function Strip(s: string, delims: set<char>): (r: string)
    ensures |r| <= |s|
  {
    if s == [] then [] else (if s[0] in delims then [] else [s[0]]) + Strip(s[1..], delims)
  }

  function Concat(ts: seq<string>): string {
    if ts == [] then [] else ts[0] + Concat(ts[1..])
  }

  /** Joins tokens with one separator character between neighbours. */
  function Join(ts: seq<string>, sep: char): string {
    if ts == [] then [] else if |ts| == 1 then ts[0] else ts[0] + [sep] + Join(ts[1..], sep)
  }

  predicate WellFormedTokens(ts: seq<string>, delims: set<char>) {
    forall k :: 0 <= k < |ts| ==> ts[k] != [] && NoDelim(ts[k], delims)
  }

  /** Every token is non-empty and holds no delimiter. */
  lemma {:induction false} TokWellFormed(s: string, delims: set<char>, cur: string)
    requires NoDelim(cur, delims)
    ensures WellFormedTokens(Tok(s, delims, cur), delims)
    decreases |s|
  {
    if s == [] {
    } else if s[0] in delims {
      TokWellFormed(s[1..], delims, []);
    } else {
      TokWellFormed(s[1..], delims, cur + [s[0]]);
    }
  }

  /** The tokens, put back together, are exactly the non-delimiter characters of the line, in order. */
  lemma {:induction false} TokConcat(s: string, delims: set<char>, cur: string)
    ensures Concat(Tok(s, delims, cur)) == cur + Strip(s, delims)
    decreases |s|
  {
    if s == [] {
    } else if s[0] in delims {
      TokConcat(s[1..], delims, []);
      if cur != [] {
        assert Concat([cur] + Tok(s[1..], delims, [])) == cur + Concat(Tok(s[1..], delims, []));
      }
    } else {
      TokConcat(s[1..], delims, cur + [s[0]]);
      assert cur + Strip(s, delims) == cur + [s[0]] + Strip(s[1..], delims);
    }
  }

  /** Bound on the number of tokens still to come. */
  lemma {:induction false} TokCount(s: string, delims: set<char>, cur: string)
    ensures 2 * |Tok(s, delims, cur)| <= |s| + 1 + (if cur == [] then 0 else 1)
    decreases |s|
  {
    if s == [] {
    } else if s[0] in delims {
      TokCount(s[1..], delims, []);
    } else {
      TokCount(s[1..], delims, cur + [s[0]]);
    }
  }

  /** Reading a delimiter-free stretch only extends the current token. */
  lemma {:induction false} TokNoDelim(t: string, rest: string, delims: set<char>, cur: string)
    requires NoDelim(t, delims)
    ensures Tok(t + rest, delims, cur) == Tok(rest, delims, cur + t)
    decreases |t|
  {
    if t == [] {
      assert t + rest == rest && cur + t == cur;
    } else {
      assert (t + rest)[0] == t[0] && (t + rest)[1..] == t[1..] + rest;
      assert t[0] !in delims;
      assert Tok(t + rest, delims, cur) == Tok(t[1..] + rest, delims, cur + [t[0]]);
      TokNoDelim(t[1..], rest, delims, cur + [t[0]]);
      assert cur + [t[0]] + t[1..] == cur + t;
    }
  }

  /** A delimiter splits the line: the tokens of `a`, the delimiter `c` and `b`
      are the tokens of `a` followed by those of `b`, so no token spans a
      delimiter. */
  lemma {:induction false} TokSplit(a: string, c: char, b: string, delims: set<char>, cur: string)
    requires c in delims
    ensures Tok(a + [c] + b, delims, cur) == Tok(a, delims, cur) + Tok(b, delims, [])
    decreases |a|
  {
    var s := a + [c] + b;
    if a == [] {
      assert s == [c] + b && s[1..] == b;
    } else {
      assert s[0] == a[0] && s[1..] == a[1..] + [c] + b;
      if a[0] in delims {
        TokSplit(a[1..], c, b, delims, []);
        if cur != [] {
          assert [cur] + (Tok(a[1..], delims, []) + Tok(b, delims, []))
              == ([cur] + Tok(a[1..], delims, [])) + Tok(b, delims, []);
        }
      } else {
        TokSplit(a[1..], c, b, delims, cur + [a[0]]);
      }
    }
  }

  lemma TokensSplit(a: string, c: char, b: string, delims: set<char>)
    requires c in delims
    ensures Tokens(a + [c] + b, delims) == Tokens(a, delims) + Tokens(b, delims)
  {
    TokSplit(a, c, b, delims, []);
  }

  /** A non-empty stretch without a delimiter is one token: `strtok` cuts a
      line only at delimiters, so every token is a whole run of
      non-delimiters. */
  lemma TokensOfRun(s: string, delims: set<char>)
    requires s != [] && NoDelim(s, delims)
    ensures Tokens(s, delims) == [s]
  {
    TokNoDelim(s, [], delims, []);
    assert s + [] == s && [] + s == s;
  }

  /** Joining well-formed tokens with a delimiter and splitting again gives the tokens back. */
  lemma {:induction false} TokensOfJoin(ts: seq<string>, sep: char, delims: set<char>)
    requires sep in delims
    requires WellFormedTokens(ts, delims)
    ensures Tokens(Join(ts, sep), delims) == ts
    decreases |ts|
  {
    if ts == [] {
    } else if |ts| == 1 {
      TokNoDelim(ts[0], [], delims, []);
      assert ts[0] + [] == ts[0] && [] + ts[0] == ts[0];
      assert Tok([], delims, ts[0]) == [ts[0]];
    } else {
      var rest := Join(ts[1..], sep);
      assert Join(ts, sep) == ts[0] + ([sep] + rest);
      TokNoDelim(ts[0], [sep] + rest, delims, []);
      assert ([sep] + rest)[0] == sep && ([sep] + rest)[1..] == rest;
      assert [] + ts[0] == ts[0] && ts[0] != [];
      assert Tok([sep] + rest, delims, ts[0]) == [ts[0]] + Tok(rest, delims, []);
      TokensOfJoin(ts[1..], sep, delims);
      assert [ts[0]] + ts[1..] == ts;
    }
  }

  /** One call of `strtok` over `line` whose saved position is `pos`: skips the
      delimiters, returns the next token (None for NULL) and the saved position
      after it; the delimiter that ends a token is consumed with it. */
  method Strtok(line: string, pos: nat, delims: set<char>) returns (tok: Option<string>, next: nat)
    requires pos <= |line|
    ensures pos <= next <= |line|
    ensures tok.Some? ==> pos < next
    ensures tok.None? ==> next == |line| && Tokens(line[pos..], delims) == []
    ensures tok.Some? ==> Tokens(line[pos..], delims) == [tok.value] + Tokens(line[next..], delims)
  {
    var p := pos;
    while p < |line| && line[p] in delims
      invariant pos <= p <= |line|
      invariant Tokens(line[pos..], delims) == Tokens(line[p..], delims)
    {
      assert line[p..][1..] == line[p + 1..];
      p := p + 1;
    }
    if p == |line| {
      return None, p;
    }
    var start := p;
    while p < |line| && line[p] !in delims
      invariant start <= p <= |line|
      invariant Tok(line[start..], delims, []) == Tok(line[p..], delims, line[start..p])
      invariant line[start] !in delims
    {
      assert line[p..][1..] == line[p + 1..];
      assert line[start..p] + [line[p]] == line[start..p + 1];
      p := p + 1;
    }
    tok := Some(line[start..p]);
    assert line[start..p] != [];
    if p < |line| {
      assert line[p..][1..] == line[p + 1..];
      next := p + 1;
    } else {
      next := p;
    }
  }
}
