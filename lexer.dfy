/** The PDF/PostScript tokenizer the object engine consumes (`ps.Token` and
    `ps.SkipLE`). Its source is not part of this model. The engine is stated
    for any tokenizer `lex: Lex` that keeps the contract `LexOk`: a token is a
    slice of the input that starts at or after the read position, with only
    white space between the two, and does not start with white space, the
    reader stands right after it and never past
    the end, the token is empty exactly when the input is used up, and reading again where a token
    starts reads the same token. `Token` below is one concrete tokenizer (a
    balanced run of brackets is one token, so a whole `<<...>>` dictionary or
    `[...]` array comes back as a single value) and `TokenIsLex` proves that
    it keeps the contract. */
module Lexer {
  import opened Bytes

  /** A token: its bytes, the offset where it starts and the offset where the
      reader stands after it. */
  datatype Tok = Tok(text: seq<byte>, start: nat, next: nat)

  predicate IsSpace(b: byte) { b <= 32 }

  /** The byte at `k` is white space, or `k` is past the end. */
  predicate SpaceAt(s: seq<byte>, k: nat)
  {
    k < |s| ==> IsSpace(s[k])
  }

  predicate IsOpen(b: byte)
  {
    b == '(' as byte || b == '[' as byte || b == '{' as byte || b == '<' as byte
  }

  predicate IsClose(b: byte)
  {
    b == ')' as byte || b == ']' as byte || b == '}' as byte || b == '>' as byte
  }

  predicate IsRegular(b: byte)
  {
    !IsSpace(b) && !IsOpen(b) && !IsClose(b) && b != '/' as byte
  }

  function SkipSpace(s: seq<byte>, i: nat): (j: nat)
    ensures i <= j
    ensures i <= |s| ==> j <= |s|
    ensures i > |s| ==> j == i
    ensures j < |s| ==> !IsSpace(s[j])
    decreases |s| - i
  {
    if i < |s| && IsSpace(s[i]) then SkipSpace(s, i + 1) else i
  }

  lemma {:induction false} SkipSpaceSkipsSpace(s: seq<byte>, i: nat)
    ensures forall k | i <= k < SkipSpace(s, i) :: k < |s| && IsSpace(s[k])
    decreases |s| - i
  {
    if i < |s| && IsSpace(s[i]) {
      SkipSpaceSkipsSpace(s, i + 1);
    }
  }

  /** End of the run of regular bytes that starts at `i`. */
  function RegularEnd(s: seq<byte>, i: nat): (e: nat)
    requires i <= |s|
    ensures i <= e <= |s|
    decreases |s| - i
  {
    if i < |s| && IsRegular(s[i]) then RegularEnd(s, i + 1) else i
  }

  /** End of a bracketed run whose `depth` brackets are still open at `i`. */
  function BalancedEnd(s: seq<byte>, i: nat, depth: nat): (e: nat)
    requires i <= |s| && depth >= 1
    ensures i <= e <= |s|
    ensures i < |s| ==> i < e
    decreases |s| - i
  {
    if i == |s| then i
    else if IsOpen(s[i]) then BalancedEnd(s, i + 1, depth + 1)
    else if IsClose(s[i]) then (if depth == 1 then i + 1 else BalancedEnd(s, i + 1, depth - 1))
    else BalancedEnd(s, i + 1, depth)
  }

  function TokenEnd(s: seq<byte>, j: nat): (e: nat)
    requires j < |s|
    ensures j < e <= |s|
  {
    if IsOpen(s[j]) then BalancedEnd(s, j + 1, 1)
    else if IsClose(s[j]) then j + 1
    else RegularEnd(s, j + 1)
  }

  /** `ps.Token`: the next token at or after `pos`. */
  function Token(s: seq<byte>, pos: nat): (t: Tok)
    ensures TokOk(s, pos, t)
  {
    SkipSpaceSkipsSpace(s, pos);
    var j := SkipSpace(s, pos);
    if j >= |s| then Tok([], j, j) else Tok(s[j..TokenEnd(s, j)], j, TokenEnd(s, j))
  }

  /** Only white space precedes a token, and the token is empty exactly when
      nothing but white space is left. */
  lemma TokenSkipsSpace(s: seq<byte>, pos: nat)
    ensures forall k | pos <= k < Token(s, pos).start :: k < |s| && IsSpace(s[k])
    ensures Token(s, pos).text == [] <==> forall k | pos <= k < |s| :: IsSpace(s[k])
  {
    SkipSpaceSkipsSpace(s, pos);
    var j := SkipSpace(s, pos);
    assert Token(s, pos).start == j;
    forall k | pos <= k < j
      ensures k < |s| && IsSpace(s[k])
    {
    }
  }

  /** Restarting the lexer where a token starts reads the same token again. */
  lemma TokenAgain(s: seq<byte>, pos: nat)
    ensures Token(s, Token(s, pos).start) == Token(s, pos)
  {
  }

  /** What the engine relies on from one tokenizer call at `pos`. */
  ghost predicate TokOk(s: seq<byte>, pos: nat, t: Tok)
  {
    pos <= t.start && t.next == t.start + |t.text| && (pos <= |s| ==> t.next <= |s|) &&
    (forall k | pos <= k < t.start :: SpaceAt(s, k)) &&
    (t.text == [] <==> t.start >= |s|) &&
    (t.text != [] ==> t.next <= |s| && !IsSpace(t.text[0])) &&
    (forall i | 0 <= i < |t.text| :: t.text[i] == s[t.start + i])
  }

  /** A token is the slice of the input it was read from. */
  lemma TokenIsSlice(lex: Lex, s: seq<byte>, pos: nat)
    ensures var t := lex(s, pos);
            t.text != [] ==> t.next <= |s| && t.text == s[t.start..t.next]
  {
  }

  /** The tokenizer contract: every call keeps `TokOk`, and a call at the
      start of a token reads that token again. */
  ghost predicate LexOk(f: (seq<byte>, nat) -> Tok)
  {
    (forall s: seq<byte>, pos: nat {:trigger f(s, pos)} :: TokOk(s, pos, f(s, pos))) &&
    (forall s: seq<byte>, pos: nat {:trigger f(s, f(s, pos).start)} :: f(s, f(s, pos).start) == f(s, pos))
  }

  /** A tokenizer the engine can be run with. */
  type Lex = f: (seq<byte>, nat) -> Tok | LexOk(f) witness Token

  /** The concrete tokenizer keeps the contract. */
  lemma TokenIsLex()
    ensures LexOk(Token)
  {
    forall s: seq<byte>, pos: nat
      ensures Token(s, Token(s, pos).start) == Token(s, pos)
    {
      TokenAgain(s, pos);
    }
  }

  /** `ps.SkipLE`: consumes one CR, LF or CR LF line end, if one follows. */
  function SkipLE(s: seq<byte>, pos: nat): (r: nat)
    ensures pos <= r <= pos + 2
    ensures pos < r ==> r <= |s|
  {
    if pos < |s| && s[pos] == 13 then
      (if pos + 1 < |s| && s[pos + 1] == 10 then pos + 2 else pos + 1)
    else if pos < |s| && s[pos] == 10 then pos + 1
    else pos
  }
}
