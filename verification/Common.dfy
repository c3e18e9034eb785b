/** Vocabulary shared by every model of the client, the transports and the trusted application. */
module Common {
  type byte = bv8
  type Buffer = seq<byte>

  datatype Option<+T> = None | Some(value: T)

  const GENERIC_OK := 0
  const GENERIC_ERR := -1

  const HMAC_LEN := 32
  const BUF_LEN := 1024 * 32
  const STR_LEN := 32

  /** Four 32-bit words, the name and the payload; no padding is needed. */
  const IN_BUF_LEN := 4 * 4 + STR_LEN + BUF_LEN

  /** Five 32-bit words, the error line and the payload. */
  const OUT_BUF_LEN := 5 * 4 + 32 + BUF_LEN

  const TEE_CMD_SPI_TEST := 0
  const TEE_CMD_I2C_TEST := 1
  const TEE_CMD_WRITE_TEST := 2
  const TEE_CMD_READ_TEST := 3
  const TEE_CMD_READ_ID := 4
  const TEE_CMD_RELEASE := 5
  const TEE_CMD_END := 6

  lemma TakeSnoc<T>(s: seq<T>, n: nat)
    requires n < |s|
    ensures s[..n + 1] == s[..n] + [s[n]]
  {
  }

  lemma Extend<T>(s: seq<T>, i: nat, j: nat)
    requires i <= j <= |s|
    ensures s[..j] == s[..i] + s[i..j]
  {
  }

  lemma ConcatAssociates<T>(a: seq<T>, b: seq<T>, c: seq<T>)
    ensures a + (b + c) == a + b + c
  {
  }
}
