/** `DigestHex` and the hash it comes from. SHA-256 is a parameter: any function to digests. */
module Digests {
  import opened Bytes

  predicate HexDigit(c: char) {
    '0' <= c <= '9' || 'a' <= c <= 'f'
  }

  const PREFIX: string := "sha256-"

  /** `validate_digest`: the prefix and 64 lowercase hexadecimal digits. */
  predicate ValidDigest(s: string) {
    && |s| == 71
    && s[..7] == PREFIX
    && forall i :: 7 <= i < 71 ==> HexDigit(s[i])
  }

  type Digest = s: string | ValidDigest(s)
    witness PREFIX + seq(64, _ => '0')

  /** The hash of a byte string, already printed as a digest. */
  type Hash = seq<Byte> -> Digest
}
