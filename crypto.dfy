/** The RSA and text-encoding helpers (`com.somnath.common.RSAUtil`) as
    the chat code sees them. The cipher itself is library code; the client
    and the server take it as function parameters of these shapes. */
module Crypto {
  import opened Wrappers

  /** A Java `byte[]`, each byte as its eight-bit pattern. */
  type Bytes = seq<bv8>

  /** Why `Cipher.doFinal` threw: a `BadPaddingException`, or any other
      exception. */
  datatype CipherFailure = BadPadding | OtherFailure

  /** `RSAUtil.encrypt` or `RSAUtil.decrypt` with a fixed key. */
  type Cipher = Bytes -> Result<Bytes, CipherFailure>
}
