# Encrypted-file container codec

This project models the container format of a password-based file
encryptor. An encrypted file is stored as one byte buffer:

| offset | length | field |
|---|---|---|
| 0 | 16 | salt (input to Argon2id key derivation) |
| 16 | 12 | nonce (AES-256-GCM) |
| 28 | remainder | ciphertext, including the authentication tag |

The model has three modules:

- `Wrappers`: `Option` and `Result`.
- `Buffer`: `ByteVec`, the growable `Vec<u8>` that serialization fills in
  place. It has a content sequence and a capacity. Appending reallocates only
  when the capacity is too small.
- `Metadata`: the `EncryptedFile` record, with `Salt` and `Nonce` as
  fixed-length byte sequences. It defines `Encode`, the layout as a function.
  `Serialize` is a method that builds that layout by three appends into a
  buffer pre-allocated to the final size. `Deserialize` parses the layout
  back and fails only on inputs shorter than 28 bytes.

`Serialize` takes the file as an immutable value and has no `modifies`
clause. It therefore cannot change the file, and its result is fixed by
`Encode`, so it is deterministic. In `Deserialize` every slice comes after
the length check. Dafny checks each slice's bounds, so an input that is too
short is never read.

## Model

| member | source | states |
|---|---|---|
| Buffer.ByteVec.WithCapacity | src/metadata.rs:25 | a new buffer is empty and has at least the requested capacity |
| Buffer.ByteVec.ExtendFromSlice | src/metadata.rs:28-32 | appending puts the slice's bytes, in order, after the old contents; the capacity never shrinks, and stays the same when it was already large enough |
| Metadata.Encode | src/metadata.rs:17-20 | the layout function that Serialize, Deserialize and the lemmas are stated against: salt, then nonce, then ciphertext, 28 bytes longer than the ciphertext |
| Metadata.Serialize | src/metadata.rs:23-35 | the result is salt followed by nonce followed by ciphertext; inside, the capacity reserved at creation is shown to be unchanged after the three appends, so none reallocates |
| Metadata.EncodeLayout | src/metadata.rs:17-20 | the salt is at [0,16), the nonce at [16,28) and the ciphertext unchanged from 28 to the end |
| Metadata.EncodeInjective | src/metadata.rs:17-20 | two files that serialize to the same bytes are equal, so the layout is unambiguous |
| Metadata.TryIntoSalt | src/metadata.rs:48-50 | the 16-byte slice-to-array conversion, failing on any other length; no contract of its own, and Deserialize's ensures show its failure branch is never taken |
| Metadata.TryIntoNonce | src/metadata.rs:53-55 | the 12-byte slice-to-array conversion, failing on any other length; no contract of its own, and Deserialize's ensures show its failure branch is never taken |
| Metadata.ParseError.Message | src/metadata.rs:43-55 | the text of each error Deserialize can return, word for word; no contract of its own |
| Metadata.Deserialize | src/metadata.rs:41-65 | fails exactly when the input is shorter than 28 bytes, and then only with the "too short" error; the salt and nonce conversion errors never happen; on success, serializing the parsed file gives back the input byte for byte |
| Metadata.DeserializeEncode | src/metadata.rs:37-40 | parsing the serialized bytes of any file gives back that same file |
| Metadata.DeserializeHeaderOnly | src/metadata.rs:42-58 | an input of exactly 28 bytes parses, and its ciphertext is empty |
| Metadata.TamperedStillParses | src/metadata.rs:42-58 | changing any one byte of an input of 28 bytes or more still parses, and changes only the field byte at that offset |
| Metadata.LayoutExample | src/metadata.rs:17-20 | salt 16×0xAA, nonce 12×0xBB and ciphertext 01 02 03 serialize to those 31 bytes in that order and parse back unchanged |

## Left out

- src/crypto/cipher.rs (AES-256-GCM encryption and decryption, random nonce): this is a thin call into a foreign AEAD library plus OS randomness. It has no logic of its own to verify.
- src/crypto/kdf.rs (Argon2id key derivation, random salt): this is a foreign call with fixed parameters plus OS randomness.
- src/main.rs: this is command dispatch and file I/O. It maps a parse failure to a decryption error and a cipher failure to an authentication error. Both mappings are glue around I/O and foreign code.
- src/cli.rs and src/io/file.rs: these are argument definitions and whole-file read and write.
- src/error.rs: the `CryptoError` enum is not used by the codec and is not modelled.
- Buffer.ByteVec.ExtendFromSlice: it does not model the standard library's exact growth policy, such as minimum capacities. It doubles or grows to the needed size, and the codec never reaches that branch.
- Machine-level details of `Vec`: its pointer, its allocation failure and its `usize` overflow of the capacity sum are not modelled. The lengths are unbounded naturals.
