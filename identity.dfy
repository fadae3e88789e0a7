/**
 * The identity "cipher": an encrypt/decrypt pair that copies the source
 * buffer into the destination buffer and leaves a buffer that is both
 * source and destination alone. The cipher context and the sector number
 * are accepted and ignored.
 */
module Identity {
  import opened CbtFormat

  /** memcpy(dst, src, n) between two distinct buffers. */
  method MemCopy(dst: array<bv8>, src: array<bv8>, n: nat)
    requires dst != src && n <= dst.Length && n <= src.Length
    modifies dst
    ensures dst[..n] == src[..n]
    ensures dst[n..] == old(dst[n..])
  {
    forall i | 0 <= i < n {
      dst[i] := src[i];
    }
  }

  /** identity_encrypt: dst_buf[0, nbytes) becomes a copy of src_buf[0, nbytes). */
  method Encrypt<Cipher>(xtsTfm: Cipher, sector: u64, dstBuf: array<bv8>, srcBuf: array<bv8>, nbytes: u32)
    returns (rc: int)
    requires nbytes <= dstBuf.Length && nbytes <= srcBuf.Length
    modifies dstBuf
    ensures rc == 0
    ensures dstBuf[..nbytes] == old(srcBuf[..nbytes])
    ensures dstBuf[nbytes..] == old(dstBuf[nbytes..])
    ensures srcBuf[..] == old(srcBuf[..])
    ensures srcBuf == dstBuf ==> dstBuf[..] == old(dstBuf[..])
  {
    if srcBuf != dstBuf {
      MemCopy(dstBuf, srcBuf, nbytes);
    }
    rc := 0;
  }

  /** identity_decrypt: dst_buf[0, nbytes) becomes a copy of src_buf[0, nbytes). */
  method Decrypt<Cipher>(xtsTfm: Cipher, sector: u64, dstBuf: array<bv8>, srcBuf: array<bv8>, nbytes: u32)
    returns (rc: int)
    requires nbytes <= dstBuf.Length && nbytes <= srcBuf.Length
    modifies dstBuf
    ensures rc == 0
    ensures dstBuf[..nbytes] == old(srcBuf[..nbytes])
    ensures dstBuf[nbytes..] == old(dstBuf[nbytes..])
    ensures srcBuf[..] == old(srcBuf[..])
    ensures srcBuf == dstBuf ==> dstBuf[..] == old(dstBuf[..])
  {
    if srcBuf != dstBuf {
      MemCopy(dstBuf, srcBuf, nbytes);
    }
    rc := 0;
  }

  /**
   * Encrypting `plain` into `cipher` and decrypting `cipher` into `out`
   * gives back the plain bytes, whichever of the three buffers are the same
   * buffer.
   */
  method RoundTrip<Cipher>(xtsTfm: Cipher, sector: u64, plain: array<bv8>, cipher: array<bv8>, out: array<bv8>, nbytes: u32)
    returns (rc: int)
    requires nbytes <= plain.Length && nbytes <= cipher.Length && nbytes <= out.Length
    modifies cipher, out
    ensures rc == 0
    ensures out[..nbytes] == old(plain[..nbytes])
  {
    rc := Encrypt(xtsTfm, sector, cipher, plain, nbytes);
    rc := Decrypt(xtsTfm, sector, out, cipher, nbytes);
  }

  /**
   * The in-place round trip of the encryption test: copy the clear text
   * into one buffer, encrypt it in place, copy the result into a second
   * buffer, decrypt that in place; the second buffer then holds the clear
   * text again.
   */
  method InPlaceRoundTrip<Cipher>(xtsTfm: Cipher, sector: u64, clear: array<bv8>, encrypted: array<bv8>, decrypted: array<bv8>)
    requires clear.Length == 512 && encrypted.Length == 512 && decrypted.Length == 512
    requires clear != encrypted && clear != decrypted && encrypted != decrypted
    modifies encrypted, decrypted
    ensures decrypted[..] == clear[..]
  {
    MemCopy(encrypted, clear, 512);
    var rc := Encrypt(xtsTfm, sector, encrypted, encrypted, 512);
    assert rc == 0;
    MemCopy(decrypted, encrypted, 512);
    rc := Decrypt(xtsTfm, sector, decrypted, decrypted, 512);
    assert rc == 0;
    assert decrypted[..] == decrypted[..512];
  }
}
