// The encoding of semantic tokens: processTokens and processToken of pkg/services/semantics.go,
// against the decoding a client does (LSP 3.17, "Semantic Tokens", "Integer Encoding for Tokens").

module SemanticTokens {
  import opened Common
  import opened Positions

  datatype Token = Token(position: Position, length: uint32, tokenType: uint32, tokenModifiers: uint32)

  // ---------- the order of tokens ----------

  predicate AtMost(p: Position, q: Position) {
    !Before(q, p)
  }

  predicate SortedFrom(p: Position, tokens: seq<Token>)
    decreases |tokens|
  {
    tokens == [] || (AtMost(p, tokens[0].position) && SortedFrom(tokens[0].position, tokens[1..]))
  }

  predicate Sorted(tokens: seq<Token>) {
    SortedFrom(Position(0, 0), tokens)
  }

  /** The tokens at one position, in order. */
  function At(tokens: seq<Token>, p: Position): seq<Token> {
    if tokens == [] then []
    else (if tokens[0].position == p then [tokens[0]] else []) + At(tokens[1..], p)
  }

  /** Sorted, and tokens at the same position keep their order: what sort.SliceStable promises. */
  ghost predicate IsStableSort(tokens: seq<Token>, sorted: seq<Token>) {
    Sorted(sorted) && forall p :: At(sorted, p) == At(tokens, p)
  }

  /** In front of the first token that does not come before it. */
  function Place(token: Token, sorted: seq<Token>): seq<Token> {
    if sorted == [] || AtMost(token.position, sorted[0].position) then [token] + sorted
    else [sorted[0]] + Place(token, sorted[1..])
  }

  function StableSort(tokens: seq<Token>): seq<Token> {
    if tokens == [] then [] else Place(tokens[0], StableSort(tokens[1..]))
  }

  lemma {:induction false} PlaceSorted(p: Position, token: Token, sorted: seq<Token>)
    requires SortedFrom(p, sorted) && AtMost(p, token.position)
    ensures SortedFrom(p, Place(token, sorted)) && |Place(token, sorted)| == |sorted| + 1
    decreases |sorted|
  {
    if sorted == [] || AtMost(token.position, sorted[0].position) {
      assert ([token] + sorted)[1..] == sorted;
    } else {
      PlaceSorted(sorted[0].position, token, sorted[1..]);
      assert Place(token, sorted)[1..] == Place(token, sorted[1..]);
    }
  }

  lemma {:induction false} PlaceAt(p: Position, token: Token, sorted: seq<Token>)
    ensures At(Place(token, sorted), p) == (if token.position == p then [token] else []) + At(sorted, p)
  {
    if sorted == [] || AtMost(token.position, sorted[0].position) {
      assert ([token] + sorted)[1..] == sorted;
    } else {
      PlaceAt(p, token, sorted[1..]);
      assert Place(token, sorted)[1..] == Place(token, sorted[1..]);
    }
  }

  lemma {:induction false} StableSortIsStable(tokens: seq<Token>)
    ensures IsStableSort(tokens, StableSort(tokens)) && |StableSort(tokens)| == |tokens|
  {
    if tokens != [] {
      StableSortIsStable(tokens[1..]);
      PlaceSorted(Position(0, 0), tokens[0], StableSort(tokens[1..]));
      forall p
        ensures At(StableSort(tokens), p) == At(tokens, p)
      {
        PlaceAt(p, tokens[0], StableSort(tokens[1..]));
      }
    }
  }

  lemma {:induction false} AtBelow(p: Position, tokens: seq<Token>, q: Position)
    requires SortedFrom(p, tokens) && Before(q, p)
    ensures At(tokens, q) == []
    decreases |tokens|
  {
    if tokens != [] {
      AtBelow(tokens[0].position, tokens[1..], q);
    }
  }

  lemma AtHead(tokens: seq<Token>)
    requires tokens != []
    ensures exists q :: At(tokens, q) != []
  {
    assert At(tokens, tokens[0].position)[0] == tokens[0];
  }

  lemma AtRest(tokens: seq<Token>, q: Position)
    requires tokens != []
    ensures At(tokens[1..], q) == if tokens[0].position == q then At(tokens, q)[1..] else At(tokens, q)
  {
  }

  /** There is only one stable sort of a list, whatever algorithm finds it. */
  lemma {:induction false} StableSortUnique(p: Position, a: seq<Token>, b: seq<Token>)
    requires SortedFrom(p, a) && SortedFrom(p, b)
    requires forall q :: At(a, q) == At(b, q)
    ensures a == b
    decreases |a|
  {
    if a == [] && b == [] {
    } else if a == [] {
      AtHead(b);
    } else if b == [] {
      AtHead(a);
    } else {
      SameHead(p, a, b);
      forall q
        ensures At(a[1..], q) == At(b[1..], q)
      {
        assert At(a, q) == At(b, q);
        AtRest(a, q);
        AtRest(b, q);
      }
      StableSortUnique(a[0].position, a[1..], b[1..]);
      assert a == [a[0]] + a[1..] && b == [b[0]] + b[1..];
    }
  }

  lemma SameHead(p: Position, a: seq<Token>, b: seq<Token>)
    requires a != [] && b != [] && SortedFrom(p, a) && SortedFrom(p, b)
    requires forall q :: At(a, q) == At(b, q)
    ensures a[0] == b[0]
  {
    var x, y := a[0].position, b[0].position;
    if Before(x, y) {
      AtBelow(y, b[1..], x);
    } else if Before(y, x) {
      AtBelow(x, a[1..], y);
    }
    assert At(a, x) == At(b, x) && At(a, y) == At(b, y);
    assert x == y;
    assert At(a, x)[0] == a[0] && At(b, x)[0] == b[0];
  }

  // ---------- encoding ----------

  /** Unsigned 32-bit subtraction. */
  function Minus(a: uint32, b: uint32): uint32 {
    if a >= b then a - b else a + UINT32_LIMIT - b
  }

  function Five(prev: Position, token: Token): seq<uint32> {
    var p := token.position;
    [Minus(p.line, prev.line),
     if p.line == prev.line then Minus(p.character, prev.character) else p.character,
     token.length, token.tokenType, token.tokenModifiers]
  }

  function Encode(prev: Position, tokens: seq<Token>): seq<uint32>
    decreases |tokens|
  {
    if tokens == [] then [] else Five(prev, tokens[0]) + Encode(tokens[0].position, tokens[1..])
  }

  /** The 32-bit difference of the offsets of a range: the bytes it covers, when it runs forward in a
      document below 2^32 bytes. */
  function SpanLength(content: string, range: Range): (length: uint32)
    ensures |content| < UINT32_LIMIT && IndexOf(content, range.start) <= IndexOf(content, range.end)
            ==> length == |content[IndexOf(content, range.start)..IndexOf(content, range.end)]|
  {
    Minus(Wrap(IndexOf(content, range.end)), Wrap(IndexOf(content, range.start)))
  }

  class SemanticTokenStruct {
    var prev: Position
    var processedTokens: seq<uint32>
    var tokens: seq<Token>

    constructor ()
      ensures prev == Position(0, 0) && processedTokens == [] && tokens == []
    {
      prev, processedTokens, tokens := Position(0, 0), [], [];
    }

    method AddToken(position: Position, length: uint32, tokenType: uint32, tokenModifiers: uint32)
      modifies this`tokens
      ensures tokens == old(tokens) + [Token(position, length, tokenType, tokenModifiers)]
    {
      tokens := tokens + [Token(position, length, tokenType, tokenModifiers)];
    }

    method AddTokenRange(content: string, range: Range, tokenType: uint32, tokenModifiers: uint32)
      modifies this`tokens
      ensures tokens == old(tokens) + [Token(range.start, SpanLength(content, range), tokenType, tokenModifiers)]
    {
      var startIdx := PosToIndex(range.start, content);
      var endIdx := PosToIndex(range.end, content);
      AddToken(range.start, Minus(Wrap(endIdx), Wrap(startIdx)), tokenType, tokenModifiers);
    }

    method ProcessToken(token: Token)
      modifies this`processedTokens, this`prev
      ensures processedTokens == old(processedTokens) + Five(old(prev), token)
      ensures prev == token.position
    {
      processedTokens := processedTokens + [Minus(token.position.line, prev.line)];
      if token.position.line == prev.line {
        processedTokens := processedTokens + [Minus(token.position.character, prev.character)];
      } else {
        processedTokens := processedTokens + [token.position.character];
      }
      processedTokens := processedTokens + [token.length];
      processedTokens := processedTokens + [token.tokenType];
      processedTokens := processedTokens + [token.tokenModifiers];
      prev := token.position;
    }

    method ProcessTokens()
      modifies this
      ensures tokens == StableSort(old(tokens))
      ensures processedTokens == old(processedTokens) + Encode(old(prev), StableSort(old(tokens)))
    {
      tokens := StableSort(tokens);
      for i := 0 to |tokens|
        invariant tokens == StableSort(old(tokens))
        invariant processedTokens + Encode(prev, tokens[i..])
                  == old(processedTokens) + Encode(old(prev), tokens)
      {
        assert tokens[i..][1..] == tokens[i + 1..];
        ProcessToken(tokens[i]);
      }
    }
  }

  // ---------- decoding ----------

  // What a client reconstructs: absolute coordinates, computed without a bound.
  datatype Decoded = Decoded(line: nat, character: nat, length: nat, tokenType: nat, tokenModifiers: nat)

  function Decode(line: nat, character: nat, data: seq<uint32>): seq<Decoded>
    requires |data| % 5 == 0
    decreases |data|
  {
    if data == [] then []
    else
      var line', character' := line + data[0], if data[0] == 0 then character + data[1] else data[1];
      [Decoded(line', character', data[2], data[3], data[4])] + Decode(line', character', data[5..])
  }

  function Meant(tokens: seq<Token>): seq<Decoded> {
    if tokens == [] then []
    else
      var t := tokens[0];
      [Decoded(t.position.line, t.position.character, t.length, t.tokenType, t.tokenModifiers)] + Meant(tokens[1..])
  }

  lemma {:induction false} EncodeLength(prev: Position, tokens: seq<Token>)
    ensures |Encode(prev, tokens)| == 5 * |tokens|
    decreases |tokens|
  {
    if tokens != [] {
      EncodeLength(tokens[0].position, tokens[1..]);
    }
  }

  /** For every list, sorted or not: the encoding decodes to the tokens meant exactly when they are
      sorted; otherwise some subtraction has wrapped around. */
  lemma {:induction false} DecodesIffSorted(prev: Position, tokens: seq<Token>)
    ensures |Encode(prev, tokens)| % 5 == 0
    ensures Decode(prev.line, prev.character, Encode(prev, tokens)) == Meant(tokens) <==> SortedFrom(prev, tokens)
    decreases |tokens|
  {
    EncodeLength(prev, tokens);
    if tokens != [] {
      var t, data := tokens[0], Encode(prev, tokens);
      EncodeLength(t.position, tokens[1..]);
      assert data[5..] == Encode(t.position, tokens[1..]);
      var decoded := Decode(prev.line, prev.character, data);
      DecodesIffSorted(t.position, tokens[1..]);
      if AtMost(prev, t.position) {
        assert decoded[0] == Meant(tokens)[0];
        assert decoded[1..] == Decode(t.position.line, t.position.character, data[5..]);
        assert Meant(tokens)[1..] == Meant(tokens[1..]);
      } else {
        assert decoded[0] != Meant(tokens)[0];
      }
    }
  }

  /** The round trip: what processTokens produces from a fresh state has five numbers per token and
      decodes to the stable sort of the tokens. */
  lemma TokensRoundTrip(tokens: seq<Token>)
    ensures var data := Encode(Position(0, 0), StableSort(tokens));
            && |data| == 5 * |tokens|
            && Decode(0, 0, data) == Meant(StableSort(tokens))
  {
    StableSortIsStable(tokens);
    EncodeLength(Position(0, 0), StableSort(tokens));
    DecodesIffSorted(Position(0, 0), StableSort(tokens));
  }
}
