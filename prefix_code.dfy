/**
 * Encoding and decoding with a table of binary code words, as the Hoffman
 * and Shannon–Fano coders of the toolkit do.  The table maps characters to
 * code words; a message is encoded by concatenating the code words of its
 * characters, and decoded by collecting received symbols in a buffer until
 * the buffer equals some code word.
 *
 * The decoder picks, among the characters whose code word equals the buffer,
 * the first one in the table's key iteration order.  A Java HashMap does not
 * promise any particular order, so the order is a parameter of the model.
 */
module PrefixCode {
  import opened Bits

  /** A code table: the code word of every character that has one. */
  type Codes = map<char, string>

  /**
   * The text a StringBuilder appends for a character: its code word, or
   * "null" when the table has none (Map.get returns null).
   */
  function CodeOf(codes: Codes, c: char): string {
    if c in codes then codes[c] else "null"
  }

  /** The in-order concatenation of the code words of the message's characters. */
  function Encode(codes: Codes, m: string): string {
    if m == [] then [] else Encode(codes, m[..|m| - 1]) + CodeOf(codes, m[|m| - 1])
  }

  /** Encoding is a homomorphism: it maps concatenation to concatenation. */
  lemma {:induction false} EncodeAppend(codes: Codes, a: string, b: string)
    ensures Encode(codes, a + b) == Encode(codes, a) + Encode(codes, b)
  {
    if b == [] {
      assert a + b == a;
    } else {
      var n := |b| - 1;
      assert (a + b)[..|a| + n] == a + b[..n];
      assert (a + b)[|a| + n] == b[n];
      EncodeAppend(codes, a, b[..n]);
      AppendAssoc(Encode(codes, a), Encode(codes, b[..n]), CodeOf(codes, b[n]));
    }
  }

  /** Encoding a message that starts with c starts with c's code word. */
  lemma EncodeCons(codes: Codes, c: char, m: string)
    ensures Encode(codes, [c] + m) == CodeOf(codes, c) + Encode(codes, m)
  {
    EncodeAppend(codes, [c], m);
    assert [c][..0] == [];
    assert Encode(codes, [c]) == CodeOf(codes, c);
  }

  /** The sum of the code-word lengths of the message's characters. */
  function CodeLengths(codes: Codes, m: string): nat {
    if m == [] then 0 else |CodeOf(codes, m[0])| + CodeLengths(codes, m[1..])
  }

  /** The encoded length is the sum of the code-word lengths. */
  lemma {:induction false} EncodeLength(codes: Codes, m: string)
    ensures |Encode(codes, m)| == CodeLengths(codes, m)
  {
    if m != [] {
      EncodeCons(codes, m[0], m[1..]);
      assert [m[0]] + m[1..] == m;
      EncodeLength(codes, m[1..]);
    }
  }

  // ---------------------------------------------------------------------------
  // Decoding
  // ---------------------------------------------------------------------------

  /** An iteration order of the table's keys: every key once, nothing else. */
  ghost predicate IsKeyOrder(codes: Codes, order: seq<char>) {
    (forall i, j :: 0 <= i < j < |order| ==> order[i] != order[j]) &&
    (forall c :: c in codes <==> c in order)
  }

  /** The first key in `order` whose code word is v (the stream's filter and findFirst). */
  function FirstKeyWith(codes: Codes, order: seq<char>, v: string): (r: Option<char>)
    ensures r.Some? ==> r.value in codes && codes[r.value] == v && r.value in order
    ensures r.None? ==> forall i :: 0 <= i < |order| && order[i] in codes ==> codes[order[i]] != v
  {
    if order == [] then None
    else if order[0] in codes && codes[order[0]] == v then Some(order[0])
    else FirstKeyWith(codes, order[1..], v)
  }

  /** The character the decoder emits for buffer contents v: the first matching key, or '^'. */
  function Pick(codes: Codes, order: seq<char>, v: string): char {
    match FirstKeyWith(codes, order, v)
    case Some(c) => c
    case None => '^'
  }

  /** Once the table holds v as a code word, the decoder emits a key whose code word is v: '^' is never emitted for lack of one. */
  lemma PickIsKey(codes: Codes, order: seq<char>, v: string)
    requires IsKeyOrder(codes, order) && v in codes.Values
    ensures Pick(codes, order, v) in codes && codes[Pick(codes, order, v)] == v
  {
    var c :| c in codes && codes[c] == v;
    assert c in order;
    var i :| 0 <= i < |order| && order[i] == c;
  }

  /**
   * The decoder from some point on: symbols s are still to come and `buffer`
   * holds the symbols read since the last emitted character.
   */
  function DecodeFrom(codes: Codes, order: seq<char>, s: string, buffer: string): string
  {
    if s == [] then []
    else
      var b := buffer + [s[0]];
      if b in codes.Values then [Pick(codes, order, b)] + DecodeFrom(codes, order, s[1..], [])
      else DecodeFrom(codes, order, s[1..], b)
  }

  /** What the decoder makes of a received string, starting with an empty buffer. */
  function Decode(codes: Codes, order: seq<char>, s: string): string {
    DecodeFrom(codes, order, s, [])
  }

  /** Every emitted character is a key of the table. */
  lemma {:induction false} DecodedAreKeys(codes: Codes, order: seq<char>, s: string, buffer: string)
    requires IsKeyOrder(codes, order)
    ensures forall i :: 0 <= i < |DecodeFrom(codes, order, s, buffer)| ==> DecodeFrom(codes, order, s, buffer)[i] in codes
  {
    if s != [] {
      var b := buffer + [s[0]];
      if b in codes.Values {
        PickIsKey(codes, order, b);
        DecodedAreKeys(codes, order, s[1..], []);
      } else {
        DecodedAreKeys(codes, order, s[1..], b);
      }
    }
  }

  /** Symbols that never complete a code word are dropped. */
  lemma {:induction false} DropsUnmatched(codes: Codes, order: seq<char>, t: string, buffer: string)
    requires forall j :: 0 < j <= |t| ==> buffer + t[..j] !in codes.Values
    ensures DecodeFrom(codes, order, t, buffer) == []
  {
    if t != [] {
      assert t[..1] == [t[0]];
      forall j | 0 < j <= |t| - 1
        ensures (buffer + [t[0]]) + t[1..][..j] !in codes.Values
      {
        assert (buffer + [t[0]]) + t[1..][..j] == buffer + t[..j + 1];
      }
      DropsUnmatched(codes, order, t[1..], buffer + [t[0]]);
    }
  }

  /** No code word is a prefix of another's, and none is empty. */
  ghost predicate PrefixFree(codes: Codes) {
    (forall c :: c in codes ==> codes[c] != []) &&
    (forall a, b :: a in codes && b in codes && a != b ==> !(codes[a] <= codes[b]))
  }

  /** Every character of the message has a code word. */
  ghost predicate Covers(codes: Codes, m: string) {
    forall i :: 0 <= i < |m| ==> m[i] in codes
  }

  /** Reading the rest w of c's code word (the buffer holds the part before it) emits c and empties the buffer. */
  lemma {:induction false} ConsumeCode(codes: Codes, order: seq<char>, c: char, buffer: string, w: string, t: string)
    requires IsKeyOrder(codes, order) && PrefixFree(codes) && c in codes
    requires w != [] && buffer + w == codes[c]
    ensures DecodeFrom(codes, order, w + t, buffer) == [c] + DecodeFrom(codes, order, t, [])
    decreases |w|
  {
    var b := buffer + [w[0]];
    assert (w + t)[0] == w[0] && (w + t)[1..] == w[1..] + t;
    assert b == codes[c][..|b|];
    if |w| == 1 {
      assert b == codes[c];
      PickIsKey(codes, order, b);
    } else {
      forall d | d in codes
        ensures codes[d] != b
      {
        if d != c {
          assert b <= codes[c];
        }
      }
      ConsumeCode(codes, order, c, b, w[1..], t);
    }
  }

  /** Decoding an encoded message followed by more symbols gives the message, then the decoding of the rest. */
  lemma {:induction false} DecodeEncodedPrefix(codes: Codes, order: seq<char>, m: string, t: string)
    requires IsKeyOrder(codes, order) && PrefixFree(codes) && Covers(codes, m)
    ensures Decode(codes, order, Encode(codes, m) + t) == m + Decode(codes, order, t)
  {
    if m != [] {
      var c, rest := m[0], m[1..];
      var e := Encode(codes, rest) + t;
      EncodeHead(codes, m, t);
      assert [] + codes[c] == codes[c];
      ConsumeCode(codes, order, c, [], codes[c], e);
      DecodeEncodedPrefix(codes, order, rest, t);
      AppendAssoc([c], rest, Decode(codes, order, t));
      assert m == [c] + rest;
    } else {
      assert Encode(codes, m) + t == t;
    }
  }

  /** An encoded message followed by t: the first character's code word, then the rest. */
  lemma EncodeHead(codes: Codes, m: string, t: string)
    requires m != [] && m[0] in codes
    ensures Encode(codes, m) + t == codes[m[0]] + (Encode(codes, m[1..]) + t)
  {
    assert m == [m[0]] + m[1..];
    EncodeCons(codes, m[0], m[1..]);
    var x, y := codes[m[0]], Encode(codes, m[1..]);
    assert Encode(codes, m) == x + y;
    AppendAssoc(x, y, t);
  }

  /** The round trip: decoding an encoded message gives the message back. */
  lemma DecodeEncode(codes: Codes, order: seq<char>, m: string)
    requires IsKeyOrder(codes, order) && PrefixFree(codes) && Covers(codes, m)
    ensures Decode(codes, order, Encode(codes, m)) == m
  {
    DecodeEncodedPrefix(codes, order, m, []);
    assert Encode(codes, m) + [] == Encode(codes, m);
  }

  /** Trailing symbols that never complete a code word are lost, and nothing else is. */
  lemma DecodeWithTrailingBits(codes: Codes, order: seq<char>, m: string, t: string)
    requires IsKeyOrder(codes, order) && PrefixFree(codes) && Covers(codes, m)
    requires forall j :: 0 < j <= |t| ==> t[..j] !in codes.Values
    ensures Decode(codes, order, Encode(codes, m) + t) == m
  {
    forall j | 0 < j <= |t|
      ensures [] + t[..j] !in codes.Values
    {
      assert [] + t[..j] == t[..j];
    }
    DropsUnmatched(codes, order, t, []);
    DecodeEncodedPrefix(codes, order, m, t);
  }

  // ---------------------------------------------------------------------------
  // The coders' loops
  // ---------------------------------------------------------------------------

  /** Appends the code word of every character, in order, to a builder. */
  method EncodeMessage(codes: Codes, message: string) returns (encoded: string)
    ensures encoded == Encode(codes, message)
  {
    encoded := "";
    for i := 0 to |message|
      invariant encoded == Encode(codes, message[..i])
    {
      assert message[..i + 1][..i] == message[..i];
      encoded := encoded + CodeOf(codes, message[i]);
    }
    assert message[..|message|] == message;
  }

  /** The first key in `order` whose code word is the buffer, or '^' (the stream's filter, findFirst and orElse). */
  method FindFirstKey(codes: Codes, order: seq<char>, buffer: string) returns (c: char)
    ensures c == Pick(codes, order, buffer)
  {
    var i := 0;
    while i < |order| && !(order[i] in codes && codes[order[i]] == buffer)
      invariant i <= |order|
      invariant FirstKeyWith(codes, order[i..], buffer) == FirstKeyWith(codes, order, buffer)
    {
      assert order[i..][1..] == order[i + 1..];
      i := i + 1;
    }
    if i < |order| {
      c := order[i];
    } else {
      c := '^';
    }
  }

  /**
   * Appends every received symbol to a buffer; when the buffer equals some
   * code word, emits the first key with that code word and clears the buffer.
   */
  method DecodeMessage(codes: Codes, order: seq<char>, message: string) returns (decoded: string)
    ensures decoded == Decode(codes, order, message)
  {
    decoded := "";
    var buffer := "";
    for i := 0 to |message|
      invariant decoded + DecodeFrom(codes, order, message[i..], buffer) == Decode(codes, order, message)
    {
      assert message[i..][1..] == message[i + 1..];
      buffer := buffer + [message[i]];
      if buffer in codes.Values {
        var c := FindFirstKey(codes, order, buffer);
        decoded := decoded + [c];
        buffer := "";
      }
    }
  }
}
