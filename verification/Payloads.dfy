/**
 Task payloads with ideal encryption: a ciphertext is the pair of its key and plaintext,
 and opening it succeeds exactly with that key.
 */
module Payloads {
  import opened Gf256

  type Key = string

  datatype Ciphertext = Ciphertext(key: seq<Byte>, plaintext: string)

  /** One Shamir share sealed to the holder of a public key. */
  datatype SealedShare = SealedShare(x: nat, nodePubkey: Key, bytes: seq<Byte>)

  datatype Blob = Blob(t: nat, n: nat, ciphertext: Ciphertext, shares: seq<SealedShare>)

  datatype Payload =
    | Plain(text: string)
    | Sealed(target: Key, text: string)
    | Threshold(blob: Blob)
}
