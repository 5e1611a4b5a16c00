/**
 * What the custody code assumes of its ciphers. Models isV2Ciphertext
 * (apps/sdp-api/src/services/custody-cipher/cipher-router.ts) and the binding to an organization
 * (apps/sdp-api/src/services/encryption.service.ts, apps/sdp-api/src/services/custody-cipher/envelope-cipher.ts).
 */
module CustodyCipher {
  import opened Wrappers

  /** Decryption is a function of the organization and the ciphertext; None when it throws. */
  type Decrypt = (string, string) -> Option<string>

  /** No ciphertext opens in two organizations: both ciphers put the organization into key or additional data. */
  ghost predicate OrganizationBound(dec: Decrypt) {
    forall o, o', c :: dec(o, c).Some? && dec(o', c).Some? ==> o == o'
  }

  /** `ciphertext.startsWith("v2.")` */
  predicate IsV2(ciphertext: string) {
    "v2." <= ciphertext
  }
}
