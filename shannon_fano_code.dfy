/**
 * The encoder and decoder of the Shannon–Fano coder.  The code table is an input:
 * how the coder derives it from character probabilities is not part of this
 * model.  The Java bodies are the same as the Hoffman coder's, so both
 * coders run the loops of PrefixCode.
 */
module ShannonFanoCode {
  import PrefixCode

  /** encodeMessageByShannonFano: the code words of the message's characters, in order. */
  method EncodeMessageByShannonFano(shannonFanoBinaryCodes: PrefixCode.Codes, message: string) returns (encoded: string)
    ensures encoded == PrefixCode.Encode(shannonFanoBinaryCodes, message)
  {
    encoded := PrefixCode.EncodeMessage(shannonFanoBinaryCodes, message);
  }

  /**
   * decodeMessageByShannonFano, where `order` is the iteration order of the
   * table's key set.
   */
  method DecodeMessageByShannonFano(shannonFanoBinaryCodes: PrefixCode.Codes, order: seq<char>, message: string)
    returns (decoded: string)
    ensures decoded == PrefixCode.Decode(shannonFanoBinaryCodes, order, message)
  {
    decoded := PrefixCode.DecodeMessage(shannonFanoBinaryCodes, order, message);
  }
}
