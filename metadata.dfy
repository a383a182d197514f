/** The container codec: the `EncryptedFile` record and its fixed binary
    layout, salt at [0,16), nonce at [16,28), ciphertext from 28 to the end.
    There is no version tag and no length prefix: the ciphertext is whatever
    follows the 28-byte header. */
module Metadata {
  import opened Wrappers
  import opened Buffer

  const SALT_LEN: nat := 16
  const NONCE_LEN: nat := 12
  /** Bytes before the ciphertext: salt followed by nonce. */
  const HEADER_LEN: nat := SALT_LEN + NONCE_LEN

  /** `[u8; 16]`: the key-derivation salt. */
  type Salt = s: seq<byte> | |s| == SALT_LEN witness seq(16, _ => 0)

  /** `[u8; 12]`: the AEAD nonce. */
  type Nonce = s: seq<byte> | |s| == NONCE_LEN witness seq(12, _ => 0)

  /** Everything needed to decrypt a file later; the ciphertext includes the
      authentication tag and may be empty. */
  datatype EncryptedFile = EncryptedFile(salt: Salt, nonce: Nonce, ciphertext: seq<byte>)

  /** The errors `deserialize` can report; `Message` is the text it returns. */
  datatype ParseError = InputTooShort | SaltParse | NonceParse {
    function Message(): (r: string) {
      match this
      case InputTooShort => "Input too short for salt and nonce"
      case SaltParse => "Failed to parse salt"
      case NonceParse => "Failed to parse nonce"
    }
  }

  /** The byte layout of a serialized file: salt, then nonce, then ciphertext. */
  function Encode(f: EncryptedFile): (r: seq<byte>)
    ensures |r| == HEADER_LEN + |f.ciphertext|
  {
    f.salt + f.nonce + f.ciphertext
  }

  /** Each field sits at its fixed offset. */
  lemma EncodeLayout(f: EncryptedFile)
    ensures Encode(f)[..SALT_LEN] == f.salt
    ensures Encode(f)[SALT_LEN..HEADER_LEN] == f.nonce
    ensures Encode(f)[HEADER_LEN..] == f.ciphertext
  {
  }

  /** Two files with the same bytes are the same file: the layout is unambiguous. */
  lemma EncodeInjective(f: EncryptedFile, g: EncryptedFile)
    requires Encode(f) == Encode(g)
    ensures f == g
  {
    EncodeLayout(f);
    EncodeLayout(g);
  }

  /** Builds the layout in a buffer pre-allocated to the final size,
      by three appends: salt, nonce, ciphertext. */
  method Serialize(f: EncryptedFile) returns (r: seq<byte>)
    ensures r == Encode(f)
  {
    var result := new ByteVec.WithCapacity(SALT_LEN + NONCE_LEN + |f.ciphertext|);
    ghost var reserved := result.capacity;
    result.ExtendFromSlice(f.salt);
    result.ExtendFromSlice(f.nonce);
    result.ExtendFromSlice(f.ciphertext);
    // The pre-allocated capacity sufficed: no append had to reallocate.
    assert result.capacity == reserved;
    r := result.elems;
  }

  /** Slice-to-array conversion `<[u8; 16]>::try_from`: succeeds exactly
      when the slice has 16 bytes. */
  function TryIntoSalt(s: seq<byte>): (r: Option<Salt>) {
    if |s| == SALT_LEN then Some(s) else None
  }

  /** Slice-to-array conversion `<[u8; 12]>::try_from`. */
  function TryIntoNonce(s: seq<byte>): (r: Option<Nonce>) {
    if |s| == NONCE_LEN then Some(s) else None
  }

  /** Parses the layout back. The only failure is an input shorter than the
      header; the two conversion failures cannot happen, and every longer
      input, corrupted or not, parses into a file whose layout is exactly
      the input. Slicing is only reached after the length check, so no
      out-of-bounds read is possible. */
  function Deserialize(bytes: seq<byte>): (r: Result<EncryptedFile, ParseError>)
    ensures r.Err? <==> |bytes| < HEADER_LEN
    ensures r.Err? ==> r.error == InputTooShort
    ensures r.Ok? ==> Encode(r.value) == bytes
  {
    if |bytes| < HEADER_LEN then
      Err(InputTooShort)
    else
      match TryIntoSalt(bytes[0..16])
      case None => Err(SaltParse)
      case Some(salt) =>
        match TryIntoNonce(bytes[16..28])
        case None => Err(NonceParse)
        case Some(nonce) =>
          var ciphertext := bytes[28..];
          Ok(EncryptedFile(salt, nonce, ciphertext))
  }

  /** Parsing what was serialized gives back the same file. */
  lemma DeserializeEncode(f: EncryptedFile)
    ensures Deserialize(Encode(f)) == Ok(f)
  {
  }

  /** A header with nothing after it parses into an empty ciphertext. */
  lemma DeserializeHeaderOnly(b: seq<byte>)
    requires |b| == HEADER_LEN
    ensures Deserialize(b) == Ok(EncryptedFile(b[..SALT_LEN], b[SALT_LEN..], []))
  {
    assert b[SALT_LEN..HEADER_LEN] == b[SALT_LEN..];
    assert b[HEADER_LEN..] == [];
  }

  /** Changing any one byte of a long-enough input still parses, and changes
      exactly the one field byte stored at that offset: detecting tampering
      is left to decryption. */
  lemma TamperedStillParses(b: seq<byte>, i: nat, x: byte)
    requires |b| >= HEADER_LEN && i < |b|
    ensures Deserialize(b[i := x]).Ok?
    ensures var f, g := Deserialize(b).value, Deserialize(b[i := x]).value;
      if i < SALT_LEN then g == f.(salt := f.salt[i := x])
      else if i < HEADER_LEN then g == f.(nonce := f.nonce[i - SALT_LEN := x])
      else g == f.(ciphertext := f.ciphertext[i - HEADER_LEN := x])
  {
  }

  /** A concrete file: 16 bytes 0xAA, 12 bytes 0xBB and ciphertext 01 02 03
      serialize to 31 bytes in that order, and parse back unchanged. */
  lemma LayoutExample()
    ensures var f := EncryptedFile(seq(16, _ => 0xAA), seq(12, _ => 0xBB), [0x01, 0x02, 0x03]);
      var b := Encode(f);
      |b| == 31 &&
      (forall k | 0 <= k < 16 :: b[k] == 0xAA) &&
      (forall k | 16 <= k < 28 :: b[k] == 0xBB) &&
      b[28..] == [0x01, 0x02, 0x03] &&
      Deserialize(b) == Ok(f)
  {
  }
}
