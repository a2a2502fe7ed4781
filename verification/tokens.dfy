/**
 The instruction set and the tokenizer. Source text is a Go string, read byte
 by byte; exactly eight ASCII symbols are instructions and every other byte
 (including every byte of a multi-byte UTF-8 character) is a comment.
 */
module Tokens {
  import opened GoInts

  /** The `Token` enumeration. `Unknown` is never produced by the lookup table,
      but the interpreter's dispatch still has a branch for it. */
  datatype Token =
    | IncrementPointer
    | DecrementPointer
    | IncrementValue
    | DecrementValue
    | Output
    | Input
    | LoopStart
    | LoopEnd
    | Unknown

  datatype Option<T> = None | Some(value: T)

  /** The character each instruction is written as. */
  function Symbol(t: Token): Byte
    requires t != Unknown
  {
    match t
    case IncrementPointer => '>' as int
    case DecrementPointer => '<' as int
    case IncrementValue => '+' as int
    case DecrementValue => '-' as int
    case Output => '.' as int
    case Input => ',' as int
    case LoopStart => '[' as int
    case LoopEnd => ']' as int
  }

  /** The `tokenLookup` table, as a partial map from bytes to instructions:
      it finds exactly the bytes that are some instruction's symbol, and finds
      that instruction. */
  function Lookup(b: Byte): (r: Option<Token>)
    ensures r.Some? ==> r.value != Unknown && Symbol(r.value) == b
    ensures r.None? ==> forall t :: t != Unknown ==> Symbol(t) != b
  {
    if b == '>' as int then Some(IncrementPointer)
    else if b == '<' as int then Some(DecrementPointer)
    else if b == '+' as int then Some(IncrementValue)
    else if b == '-' as int then Some(DecrementValue)
    else if b == '.' as int then Some(Output)
    else if b == ',' as int then Some(Input)
    else if b == '[' as int then Some(LoopStart)
    else if b == ']' as int then Some(LoopEnd)
    else None
  }

  /** Every instruction's symbol looks up to that instruction. */
  lemma LookupSymbol(t: Token)
    requires t != Unknown
    ensures Lookup(Symbol(t)) == Some(t)
  {
  }

  predicate IsSymbol(b: Byte) {
    Lookup(b).Some?
  }

  /** What one byte of source contributes to the token sequence. */
  function Emit(b: Byte): seq<Token>
  {
    match Lookup(b)
    case Some(t) => [t]
    case None => []
  }

  /** Reference definition of tokenizing: the lookup images of the recognised
      bytes, in order. */
  function TokensOf(code: seq<Byte>): (ts: seq<Token>)
    ensures |ts| <= |code|
    ensures forall k :: 0 <= k < |ts| ==> ts[k] != Unknown
    decreases |code|
  {
    if |code| == 0 then []
    else TokensOf(code[..|code| - 1]) + Emit(code[|code| - 1])
  }

  /** The recognised bytes of `code`, in order: the comments stripped. */
  function KeepSymbols(code: seq<Byte>): (kept: seq<Byte>)
    ensures forall k :: 0 <= k < |kept| ==> IsSymbol(kept[k])
    decreases |code|
  {
    if |code| == 0 then []
    else KeepSymbols(code[..|code| - 1]) + (if IsSymbol(code[|code| - 1]) then [code[|code| - 1]] else [])
  }

  /** Writes a token sequence back as source text. */
  function Render(ts: seq<Token>): (code: seq<Byte>)
    requires forall k :: 0 <= k < |ts| ==> ts[k] != Unknown
    ensures |code| == |ts|
    ensures forall k :: 0 <= k < |ts| ==> Lookup(code[k]) == Some(ts[k])
  {
    seq(|ts|, k requires 0 <= k < |ts| => Symbol(ts[k]))
  }

  /** `Tokenizer.tokenize`: one pass over the bytes, appending the lookup image
      of each recognised byte. */
  method Tokenize(code: seq<Byte>) returns (tokens: seq<Token>)
    ensures tokens == TokensOf(code)
  {
    tokens := [];
    var codePointer := 0;
    while codePointer < |code|
      invariant 0 <= codePointer <= |code|
      invariant tokens == TokensOf(code[..codePointer])
    {
      assert code[..codePointer + 1][..codePointer] == code[..codePointer];
      var found := Lookup(code[codePointer]);
      if found.Some? {
        tokens := tokens + [found.value];
      }
      codePointer := codePointer + 1;
    }
    assert code[..|code|] == code;
  }

  /** Tokenizing distributes over concatenation of source text: no byte's
      meaning depends on its neighbours. */
  lemma {:induction false} TokensOfAppend(a: seq<Byte>, b: seq<Byte>)
    ensures TokensOf(a + b) == TokensOf(a) + TokensOf(b)
    decreases |b|
  {
    if |b| > 0 {
      var b' := b[..|b| - 1];
      assert (a + b)[..|a + b| - 1] == a + b';
      assert (a + b)[|a + b| - 1] == b[|b| - 1];
      TokensOfAppend(a, b');
    } else {
      assert a + b == a;
    }
  }

  /** Comments are irrelevant: the tokens are those of the stripped source, and
      writing them back gives exactly the stripped source. */
  lemma {:induction false} RenderTokensOf(code: seq<Byte>)
    ensures Render(TokensOf(code)) == KeepSymbols(code)
    decreases |code|
  {
    if |code| > 0 {
      var init := code[..|code| - 1];
      RenderTokensOf(init);
      var b := code[|code| - 1];
      assert TokensOf(code) == TokensOf(init) + Emit(b);
      assert KeepSymbols(code) == KeepSymbols(init) + (if IsSymbol(b) then [b] else []);
      match Lookup(b)
      case Some(t) =>
        LookupSymbol(t);
        assert Render(TokensOf(code))[|TokensOf(init)|] == b;
      case None =>
    }
  }

  /** Rendering then tokenizing gives back any program. */
  lemma {:induction false} TokensOfRender(ts: seq<Token>)
    requires forall k :: 0 <= k < |ts| ==> ts[k] != Unknown
    ensures TokensOf(Render(ts)) == ts
    decreases |ts|
  {
    if |ts| > 0 {
      var init := ts[..|ts| - 1];
      TokensOfRender(init);
      assert Render(ts)[..|ts| - 1] == Render(init);
      LookupSymbol(ts[|ts| - 1]);
    }
  }

  /** The number of tokens is the number of recognised bytes. */
  lemma TokenCount(code: seq<Byte>)
    ensures |TokensOf(code)| == |KeepSymbols(code)|
  {
    RenderTokensOf(code);
  }

  /** N copies of one byte give N copies of its instruction, or nothing at all
      when the byte is a comment. */
  lemma {:induction false} TokensOfRepeat(b: Byte, n: nat)
    ensures Lookup(b).Some? ==> TokensOf(seq(n, _ => b)) == seq(n, _ => Lookup(b).value)
    ensures Lookup(b).None? ==> TokensOf(seq(n, _ => b)) == []
    decreases n
  {
    if n > 0 {
      var code := seq(n, _ => b);
      assert code[..n - 1] == seq(n - 1, _ => b);
      TokensOfRepeat(b, n - 1);
      if Lookup(b).Some? {
        assert seq(n, _ => Lookup(b).value) == seq(n - 1, _ => Lookup(b).value) + [Lookup(b).value];
      }
    }
  }

  /** Comments vanish: text without instruction symbols, put before or after
      a program, changes nothing about its tokens. */
  lemma CommentsIgnored(comment: seq<Byte>, code: seq<Byte>)
    requires forall k :: 0 <= k < |comment| ==> !IsSymbol(comment[k])
    ensures TokensOf(comment + code) == TokensOf(code)
    ensures TokensOf(code + comment) == TokensOf(code)
  {
    TokensOfNoSymbols(comment);
    TokensOfAppend(comment, code);
    TokensOfAppend(code, comment);
  }

  lemma {:induction false} TokensOfNoSymbols(code: seq<Byte>)
    requires forall k :: 0 <= k < |code| ==> !IsSymbol(code[k])
    ensures TokensOf(code) == []
    decreases |code|
  {
    if |code| > 0 {
      TokensOfNoSymbols(code[..|code| - 1]);
    }
  }
}
