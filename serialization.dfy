/** The record codec. The store serialises payloads with a general-purpose
    object serialiser whose internals are outside the model, so a codec is
    a pair of functions and its one promised property, that decoding undoes
    encoding, is a predicate that callers assume of it. */
module Serialization {
  import opened Format

  datatype Option<T> = None | Some(value: T)

  /** `encode` turns a payload into bytes; `decode` gives back a payload, or
      None when the bytes cannot be decoded (the serialiser raises). */
  datatype Codec<!P> = Codec(encode: P -> seq<byte>, decode: seq<byte> -> Option<P>)

  /** Decoding the encoding of any payload gives that payload back. */
  ghost predicate RoundTrips<P(!new)>(c: Codec<P>)
  {
    forall p :: c.decode(c.encode(p)) == Some(p)
  }
}
