/**
 * Serialisation of a text message into bits: every character becomes its
 * 8-bit big-endian binary form, the forms are concatenated, and the digit
 * characters '0' and '1' become the bits 0 and 1.
 */
module MessageUtil {
  import opened Bits

  /** The number of bits written per character. */
  const US_ASCII_CHAR_BYTE_LENGTH: nat := 8

  // ---------------------------------------------------------------------------
  // Binary numerals
  // ---------------------------------------------------------------------------

  /** A string of the digits '0' and '1' only. */
  predicate IsBinary(s: string) {
    forall i :: 0 <= i < |s| ==> s[i] == '0' || s[i] == '1'
  }

  /** The digit character of a bit. */
  function DigitChar(b: Bit): char {
    if b == 0 then '0' else '1'
  }

  /** The bits of a binary numeral: each character minus '0'. */
  function Digits(s: string): (bits: seq<Bit>)
    requires IsBinary(s)
    ensures |bits| == |s| && forall i :: 0 <= i < |s| ==> DigitChar(bits[i]) == s[i]
  {
    seq(|s|, i requires 0 <= i < |s| => (s[i] as int) - ('0' as int))
  }

  /** Digits of a concatenation. */
  lemma DigitsAppend(s: string, t: string)
    requires IsBinary(s) && IsBinary(t)
    ensures IsBinary(s + t) && Digits(s + t) == Digits(s) + Digits(t)
  {
    assert IsBinary(s + t) by {
      forall i | 0 <= i < |s + t|
        ensures (s + t)[i] == '0' || (s + t)[i] == '1'
      {
        if i >= |s| {
          assert (s + t)[i] == t[i - |s|];
        }
      }
    }
  }

  /** The numeral of n zeros. */
  function ZeroChars(n: nat): (s: string)
    ensures |s| == n && IsBinary(s)
  {
    seq(n, _ => '0')
  }

  /** The big-endian value of a word of bits. */
  function Value(bits: seq<Bit>): nat {
    if bits == [] then 0 else 2 * Value(bits[..|bits| - 1]) + bits[|bits| - 1]
  }

  /** A word of w bits has a value below 2^w. */
  lemma {:induction false} ValueBound(bits: seq<Bit>)
    ensures Value(bits) < Pow2(|bits|)
  {
    if bits != [] {
      ValueBound(bits[..|bits| - 1]);
    }
  }

  /** Leading zeros do not change the value. */
  lemma {:induction false} ValueOfPadded(p: nat, bits: seq<Bit>)
    ensures Value(Zeros(p) + bits) == Value(bits)
  {
    if bits == [] {
      assert Zeros(p) + bits == Zeros(p);
      ValueOfZeros(p);
    } else {
      var n := |bits| - 1;
      assert (Zeros(p) + bits)[..p + n] == Zeros(p) + bits[..n];
      ValueOfPadded(p, bits[..n]);
    }
  }

  /** The zero word has value 0. */
  lemma {:induction false} ValueOfZeros(p: nat)
    ensures Value(Zeros(p)) == 0
  {
    if p > 0 {
      assert Zeros(p)[..p - 1] == Zeros(p - 1);
      ValueOfZeros(p - 1);
    }
  }

  /** The w-bit big-endian form of x (its w low bits). */
  function ByteBits(x: nat, w: nat): (bits: seq<Bit>)
    ensures |bits| == w
  {
    if w == 0 then [] else ByteBits(x / 2, w - 1) + [x % 2]
  }

  /** The w-bit form of a number below 2^w has that number as its value. */
  lemma {:induction false} ValueOfByteBits(x: nat, w: nat)
    requires x < Pow2(w)
    ensures Value(ByteBits(x, w)) == x
  {
    if w > 0 {
      var bits := ByteBits(x, w);
      assert bits[..w - 1] == ByteBits(x / 2, w - 1);
      ValueOfByteBits(x / 2, w - 1);
    }
  }

  /** A word is the |bits|-bit form of its own value. */
  lemma {:induction false} ByteBitsOfValue(bits: seq<Bit>)
    ensures ByteBits(Value(bits), |bits|) == bits
  {
    if bits != [] {
      var n := |bits| - 1;
      var v := Value(bits[..n]);
      DivModUnique(Value(bits), 2, v, bits[n]);
      ByteBitsOfValue(bits[..n]);
      assert bits == bits[..n] + [bits[n]];
    }
  }

  /**
   * Integer.toString(x, 2): the binary numeral of x without leading zeros,
   * "0" for zero.
   */
  function ToBinaryString(x: nat): (s: string)
    ensures 1 <= |s| && IsBinary(s)
    ensures x > 0 ==> s[0] == '1'
  {
    if x < 2 then [DigitChar(x)] else ToBinaryString(x / 2) + [DigitChar(x % 2)]
  }

  /** The numeral of x denotes x. */
  lemma {:induction false} ValueOfBinaryString(x: nat)
    ensures Value(Digits(ToBinaryString(x))) == x
  {
    var s := ToBinaryString(x);
    if x >= 2 {
      ValueOfBinaryString(x / 2);
      var d := Digits(s);
      assert d[..|s| - 1] == Digits(ToBinaryString(x / 2));
    }
  }

  /** Below 2^w the numeral has at most w digits. */
  lemma {:induction false} BinaryStringFits(x: nat, w: nat)
    requires 1 <= w && x < Pow2(w)
    ensures |ToBinaryString(x)| <= w
  {
    if x >= 2 {
      BinaryStringFits(x / 2, w - 1);
    }
  }

  /** From 2^w on the numeral has more than w digits. */
  lemma {:induction false} BinaryStringOverflows(x: nat, w: nat)
    requires x >= Pow2(w)
    ensures |ToBinaryString(x)| > w
  {
    if w > 0 {
      BinaryStringOverflows(x / 2, w - 1);
    }
  }

  // ---------------------------------------------------------------------------
  // Serialisation
  // ---------------------------------------------------------------------------

  /** The 8-bit big-endian form of a character. */
  function CharBits(c: char): (bits: seq<Bit>)
    ensures |bits| == US_ASCII_CHAR_BYTE_LENGTH
  {
    ByteBits(c as nat, US_ASCII_CHAR_BYTE_LENGTH)
  }

  /** The bits of a message: the 8-bit forms of its characters, in order. */
  function Serialize(m: string): (bits: seq<Bit>)
    ensures |bits| == US_ASCII_CHAR_BYTE_LENGTH * |m|
  {
    if m == [] then [] else Serialize(m[..|m| - 1]) + CharBits(m[|m| - 1])
  }

  /** Every character the serialiser accepts: one whose code fits in 8 bits. */
  predicate IsByteText(m: string) {
    forall i :: 0 <= i < |m| ==> m[i] as int < 256
  }

  /**
   * The padding loop ends only when a numeral has at most 8 digits, which is
   * exactly when the character's code is below 256.
   */
  lemma PaddingTerminates(c: char)
    ensures |ToBinaryString(c as nat)| <= US_ASCII_CHAR_BYTE_LENGTH <==> c as int < 256
  {
    assert Pow2(8) == 256;
    if c as int < 256 {
      BinaryStringFits(c as nat, 8);
    } else {
      BinaryStringOverflows(c as nat, 8);
    }
  }

  /** The numeral of a character left-padded with zeros to 8 digits is its 8-bit form. */
  lemma PaddedNumeral(c: char)
    requires c as int < 256
    ensures |ToBinaryString(c as nat)| <= US_ASCII_CHAR_BYTE_LENGTH
    ensures var s := ToBinaryString(c as nat);
      IsBinary(ZeroChars(US_ASCII_CHAR_BYTE_LENGTH - |s|) + s) &&
      Digits(ZeroChars(US_ASCII_CHAR_BYTE_LENGTH - |s|) + s) == CharBits(c)
  {
    PaddingTerminates(c);
    var s := ToBinaryString(c as nat);
    var p := US_ASCII_CHAR_BYTE_LENGTH - |s|;
    DigitsAppend(ZeroChars(p), s);
    assert Digits(ZeroChars(p)) == Zeros(p);
    var bits := Digits(ZeroChars(p) + s);
    ValueOfPadded(p, Digits(s));
    ValueOfBinaryString(c as nat);
    ByteBitsOfValue(bits);
  }

  /** The padding loop of convertMessageToByteArray: '0' in front until there are 8 digits. */
  method PadNumeral(numeral: string) returns (buffer: string)
    requires |numeral| <= US_ASCII_CHAR_BYTE_LENGTH
    ensures buffer == ZeroChars(US_ASCII_CHAR_BYTE_LENGTH - |numeral|) + numeral
  {
    buffer := numeral;
    while |buffer| != US_ASCII_CHAR_BYTE_LENGTH
      invariant |numeral| <= |buffer| <= US_ASCII_CHAR_BYTE_LENGTH
      invariant buffer == ZeroChars(|buffer| - |numeral|) + numeral
      decreases US_ASCII_CHAR_BYTE_LENGTH - |buffer|
    {
      buffer := "0" + buffer;
    }
  }

  /**
   * convertMessageToByteArray: each character's numeral is left-padded with
   * '0' until it has 8 digits and appended to the builder; the builder's
   * digits are then turned into bits.  A character of code 256 or more would
   * make the padding loop run forever, so the message must be byte text.
   */
  method ConvertMessageToByteArray(message: string) returns (bytes: seq<Bit>)
    requires IsByteText(message)
    ensures bytes == Serialize(message)
  {
    var builder := "";
    for i := 0 to |message|
      invariant IsBinary(builder) && Digits(builder) == Serialize(message[..i])
    {
      PaddedNumeral(message[i]);
      var buffer := PadNumeral(ToBinaryString(message[i] as nat));
      SerializeStep(message, i, builder, buffer);
      builder := builder + buffer;
    }
    assert message[..|message|] == message;
    bytes := Digits(builder);
  }

  /** Appending the padded numeral of character i extends the serialisation of the first i characters by one block. */
  lemma SerializeStep(message: string, i: nat, builder: string, buffer: string)
    requires i < |message| && message[i] as int < 256
    requires IsBinary(builder) && Digits(builder) == Serialize(message[..i])
    requires IsBinary(buffer) && Digits(buffer) == CharBits(message[i])
    ensures IsBinary(builder + buffer) && Digits(builder + buffer) == Serialize(message[..i + 1])
  {
    DigitsAppend(builder, buffer);
    assert message[..i + 1][..i] == message[..i];
  }

  /** Block i of the serialised message is the 8-bit form of character i. */
  lemma {:induction false} SerializeBlock(m: string, i: nat)
    requires i < |m|
    ensures Serialize(m)[8 * i .. 8 * i + 8] == CharBits(m[i])
  {
    var n := |m| - 1;
    assert Serialize(m) == Serialize(m[..n]) + CharBits(m[n]);
    if i < n {
      SerializeBlock(m[..n], i);
      assert Serialize(m)[8 * i .. 8 * i + 8] == Serialize(m[..n])[8 * i .. 8 * i + 8];
    }
  }

  /** Serialising a concatenation concatenates the serialisations. */
  lemma {:induction false} SerializeAppend(a: string, b: string)
    ensures Serialize(a + b) == Serialize(a) + Serialize(b)
  {
    if b != [] {
      var n := |b| - 1;
      assert (a + b)[..|a| + n] == a + b[..n];
      SerializeAppend(a, b[..n]);
    } else {
      assert a + b == a;
    }
  }

  /** The character whose 8-bit form is a given byte. */
  function CharOfBits(bits: seq<Bit>): char
    requires |bits| == US_ASCII_CHAR_BYTE_LENGTH
  {
    ValueBound(bits);
    assert Pow2(8) == 256;
    Value(bits) as char
  }

  /** Reads bits back into characters, 8 bits each. */
  function Deserialize(bits: seq<Bit>): (m: string)
    requires |bits| % US_ASCII_CHAR_BYTE_LENGTH == 0
    ensures US_ASCII_CHAR_BYTE_LENGTH * |m| == |bits|
  {
    if bits == [] then []
    else
      var n := |bits| - US_ASCII_CHAR_BYTE_LENGTH;
      Deserialize(bits[..n]) + [CharOfBits(bits[n..])]
  }

  /** A character of byte code comes back from its 8-bit form. */
  lemma CharBitsRoundTrip(c: char)
    requires c as int < 256
    ensures CharOfBits(CharBits(c)) == c
  {
    assert Pow2(8) == 256;
    ValueOfByteBits(c as nat, 8);
  }

  /** Reading the bits of byte text back gives the text. */
  lemma {:induction false} DeserializeSerialize(m: string)
    requires IsByteText(m)
    ensures Deserialize(Serialize(m)) == m
  {
    if m != [] {
      var n := |m| - 1;
      var bits := Serialize(m);
      assert bits[..8 * n] == Serialize(m[..n]);
      assert bits[8 * n..] == CharBits(m[n]);
      DeserializeSerialize(m[..n]);
      CharBitsRoundTrip(m[n]);
      assert m == m[..n] + [m[n]];
    }
  }

  /** Different byte texts serialise differently. */
  lemma SerializeInjective(a: string, b: string)
    requires IsByteText(a) && IsByteText(b) && Serialize(a) == Serialize(b)
    ensures a == b
  {
    DeserializeSerialize(a);
    DeserializeSerialize(b);
  }
}
