/** Fixed sizes of src/crypto/session.rs:27-28 and src/crypto/e2e.rs:45-59. */
module Sizes {
  import opened Bytes

  const ML_KEM_768_EK_SIZE: int := 1184
  const ML_KEM_768_CT_SIZE: int := 1088
  const ML_DSA_65_SIG_SIZE: int := 3309
  const ML_DSA_65_VK_SIZE: int := 1952
  const GCM_TAG_LEN: int := 16
  const NONCE_LEN: int := 12

  type Key = Bytes32
  type Nonce = s: bytes | |s| == 12 witness seq(12, _ => 0)
  type Seed64 = s: bytes | |s| == 64 witness seq(64, _ => 0)
  type EncapsKey = s: bytes | |s| == 1184 witness seq(1184, _ => 0)
  type KemCiphertext = s: bytes | |s| == 1088 witness seq(1088, _ => 0)
  type VerifyingKey = s: bytes | |s| == 1952 witness seq(1952, _ => 0)
  type Signature = s: bytes | |s| == 3309 witness seq(3309, _ => 0)
}
