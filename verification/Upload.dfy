/** The receiving end of an upload: decrypt, verify, publish (the /api/upload handler of src/server/app.ts). */
module Upload {
  import opened Bytes
  import opened Ctr
  import Cipher
  import BrowserCrypto

  datatype UploadError = IntegrityCheckFailed | NameTaken | Forbidden | Internal

  /**
   * What can go wrong around an upload: the transfer breaks off after some
   * chunks, the link is refused, or the temporary file cannot be removed.
   */
  datatype Mishap = Mishap(breaksOff: Option<nat>, linkDenied: bool, cleanupFails: bool)

  /** A destination folder entry and the handler's temporary file beside it. */
  class Destination {
    var published: Option<seq<Byte>>
    var temporary: Option<seq<Byte>>

    constructor (published: Option<seq<Byte>>)
      ensures this.published == published && temporary == None
    {
      this.published, temporary := published, None;
    }

    /** The last thing the handler does in any case; if it fails, that is the answer. */
    method Cleanup(r: Result<nat, UploadError>, m: Mishap) returns (r': Result<nat, UploadError>)
      modifies this`temporary
      ensures r' == if m.cleanupFails then Err(Internal) else r
      ensures temporary == if m.cleanupFails then old(temporary) else None
    {
      if m.cleanupFails {
        return Err(Internal);
      }
      temporary := None;
      r' := r;
    }

    /**
     * The body arrives in any chunks; it is decrypted into the temporary file
     * and linked into place only if all of it came, its digest is the promised
     * one, the name is free and the link allowed. The temporary file is gone
     * afterwards unless it cannot be removed.
     */
    method Receive<Digest(==)>(body: seq<seq<Byte>>, aes: BlockCipher, iv: Counter,
                               sha256: seq<Byte> -> Digest, expected: Digest, m: Mishap)
      returns (r: Result<nat, UploadError>)
      modifies this
      ensures m.cleanupFails || temporary == None
      ensures var plain := Encrypt(aes, iv, Flatten(body));
              var broken := m.breaksOff.Some? && m.breaksOff.value < |body|;
              var outcome := if broken then Err(Internal)
                             else if sha256(plain) != expected then Err(IntegrityCheckFailed)
                             else if old(published).Some? then Err(NameTaken)
                             else if m.linkDenied then Err(Forbidden) else Ok(|plain|);
              && r == (if m.cleanupFails then Err(Internal) else outcome)
              && published == if outcome.Ok? then Some(plain) else old(published)
    {
      var decipher := new Cipher.CtrStream(aes, iv);
      temporary := Some([]);
      for k := 0 to |body|
        invariant fresh(decipher) && decipher.aes == aes && decipher.iv == iv
        invariant decipher.pos == |Flatten(body[..k])|
        invariant temporary == Some(Encrypt(aes, iv, Flatten(body[..k])))
        invariant published == old(published)
        invariant m.breaksOff.Some? ==> k <= m.breaksOff.value
      {
        if m.breaksOff == Some(k) {
          r := Cleanup(Err(Internal), m);
          return;
        }
        assert body[..k + 1][..k] == body[..k];
        CryptConcat(aes, iv, Flatten(body[..k]), body[k], 0);
        var plain := decipher.Update(body[k]);
        temporary := Some(temporary.value + plain);
      }
      assert body[..|body|] == body;
      r := Publish(sha256(temporary.value) == expected, m);
    }

    /** Linking a complete temporary file into place, if its digest was right. */
    method Publish(intact: bool, m: Mishap) returns (r: Result<nat, UploadError>)
      requires temporary.Some?
      modifies this
      ensures m.cleanupFails || temporary == None
      ensures var outcome := if !intact then Err(IntegrityCheckFailed)
                             else if old(published).Some? then Err(NameTaken)
                             else if m.linkDenied then Err(Forbidden) else Ok(|old(temporary).value|);
              && r == (if m.cleanupFails then Err(Internal) else outcome)
              && published == if outcome.Ok? then old(temporary) else old(published)
    {
      if !intact {
        r := Err(IntegrityCheckFailed);
      } else if published.Some? {
        r := Err(NameTaken);
      } else if m.linkDenied {
        r := Err(Forbidden);
      } else {
        published := temporary;
        r := Ok(|temporary.value|);
      }
      r := Cleanup(r, m);
    }
  }

  /**
   * What the server decrypts from an honest upload is the file, exactly when
   * no chunk of the browser's read made its call wrap; so such an upload
   * passes any digest check. Otherwise a cipher exists for which it differs.
   */
  lemma UploadArrivesExactly(iv: Counter, chunks: seq<seq<Byte>>)
    ensures BrowserCrypto.NoChunkWraps(iv, 0, chunks)
            <==> forall aes: BlockCipher ::
                   Encrypt(aes, iv, Flatten(BrowserCrypto.XoredAll(aes, iv, 0, chunks))) == Flatten(chunks)
  {
    if BrowserCrypto.NoChunkWraps(iv, 0, chunks) {
      forall aes: BlockCipher
        ensures Encrypt(aes, iv, Flatten(BrowserCrypto.XoredAll(aes, iv, 0, chunks))) == Flatten(chunks)
      {
        BrowserCrypto.ChunkedIsOneShot(aes, iv, 0, chunks);
        CryptInvolution(aes, iv, Flatten(chunks), 0);
      }
    } else {
      var aes := BrowserCrypto.ChunkedDiverges(iv, 0, chunks);
      CryptInvolution(aes, iv, Flatten(BrowserCrypto.XoredAll(aes, iv, 0, chunks)), 0);
    }
  }

  /** Browser and server together: the upload of a file publishes that file. */
  method RoundTrip<Digest(==)>(file: seq<seq<Byte>>, aes: BlockCipher, iv: Counter,
                               sha256: seq<Byte> -> Digest, dest: Destination) returns (r: Result<nat, UploadError>)
    requires BrowserCrypto.NoChunkWraps(iv, 0, file)
    modifies dest
    ensures old(dest.published).None? ==> r.Ok? && dest.published == Some(Flatten(file))
    ensures old(dest.published).Some? ==> r == Err(NameTaken) && dest.published == old(dest.published)
  {
    UploadArrivesExactly(iv, file);
    var parts := BrowserCrypto.EncryptFileForUpload(file, aes, iv);
    assert Encrypt(aes, iv, Flatten(parts)) == Flatten(file);
    r := dest.Receive(parts, aes, iv, sha256, sha256(Flatten(file)), Mishap(None, false, false));
  }
}
