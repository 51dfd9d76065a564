/**
 * The encoder and decoder of the Hoffman coder.  The code table is an input:
 * how the coder derives it from character probabilities is not part of this
 * model.  The Java bodies are the same as the Shannon–Fano coder's, so both
 * coders run the loops of PrefixCode.
 */
module HoffmanCode {
  import PrefixCode

  /** encodeMessageByHoffman: the code words of the message's characters, in order. */
  method EncodeMessageByHoffman(hoffmanBinaryCodes: PrefixCode.Codes, message: string) returns (encoded: string)
    ensures encoded == PrefixCode.Encode(hoffmanBinaryCodes, message)
  {
    encoded := PrefixCode.EncodeMessage(hoffmanBinaryCodes, message);
  }

  /**
   * decodeMessageByHoffman, where `order` is the iteration order of the
   * table's key set.
   */
  method DecodeMessageByHoffman(hoffmanBinaryCodes: PrefixCode.Codes, order: seq<char>, message: string)
    returns (decoded: string)
    ensures decoded == PrefixCode.Decode(hoffmanBinaryCodes, order, message)
  {
    decoded := PrefixCode.DecodeMessage(hoffmanBinaryCodes, order, message);
  }
}
