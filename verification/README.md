# KeystoneCrypto: a verified model

A Dafny model of the logic KeystoneCrypto writes by hand around its crypto libraries: the BIP-39
codec, base58 and xprv serialization, BIP-32 derivation and path parsing, the DER/compact signature
converters, the KST1 envelope, and the keystore and wallet objects. Library functions (SHA-256,
RIPEMD-160, HMAC-SHA512, NFKD, Argon2id, AES-GCM, the secp256k1 point map, the signing libraries) are
parameters: total functions of which only the output shape is known, plus, where a lemma says so in a
`requires`, the promises of the library (decryption undoes encryption, NFKD leaves ASCII alone,
facts about Unicode digits, strict DER from the signer, verifiers that accept what was signed). Random salts and nonces and the clock are parameters too. Python
exceptions are the constructors of `Prelude.Error`.

| file | content |
|---|---|
| `Prelude.dfy`, `Radix.dfy`, `Struct.dfy`, `Text.dfy` | bytes, results, slices; numerals in any base; `struct` codecs; `str` methods |
| `Mnemonic.dfy`, `MnemonicProofs.dfy`, `MnemonicSizes.dfy` | BIP-39 |
| `Base58.dfy`, `Xprv.dfy` | base58 and the 78-byte record |
| `Derivation.dfy`, `Path.dfy` | BIP-32 derivation, path text |
| `Signing.dfy` | DER and compact signatures |
| `Envelope.dfy` | the KST1 blob, and runs of pack and unpack |
| `SecretBytes.dfy`, `Keystore.dfy` | the mutable objects, sessions, end to end |

Code that updates things in place or loops is modelled by methods (`Base58.B58Encode`, `Path.Parse`,
`Derivation.DeriveFromSeed`, `Signing.EncodeInt`, `Secrets.SecretBytes.Zeroize`, the methods of
`Keystores.Wallet` and `Keystores.KeystoreContext`), each proved equal to a function the lemmas are
about. Everything else is expressions in the source and functions here.

Where properties one might expect do not hold, the model keeps the code and states exactly when they do:

- `from_entropy` accepts entropy of any size; it comes back from the phrase for all values of a size
  exactly if the size is a multiple of four bytes and at most 1064 (`MnemonicSizes.SurvivingSizes`).
- `_b58encode` loses the length of all-zero data (`Base58.RoundTrip`).
- A blob packed with a salt length other than 16 does not unpack (`Envelope.RoundTripIff16`), although
  `Argon2Params` allows salts of 8 to 64 bytes.
- Path parsing lets a ValueError through, instead of InvalidDerivationPathError, exactly when the
  first bad component has digits `int` refuses: a character that is no decimal digit, or more digits
  than the interpreter's limit, even if all are zeros (`Path.ParseFailure`, `Path.LongDigitsRaise`).
- The master key is not checked against the group order; only the bare path `m` is affected
  (`Derivation.FollowsBip32`), and of the accounts only an Ed25519 one (`Keystores.AccountFollowsBip32`).
- `_der_to_rs` accepts some inputs that are not DER (`Signing.LenientInputs`, `Signing.Accepts`); the
  round trip through it is the identity on strict DER only (`Signing.RoundTripIffStrict`). Bytes that
  end early raise IndexError instead of SignatureError (`Signing.RefusedHow`).

Where code and documentation disagree, the code is followed:

- The design document (section 6) puts `version` before `hash_len` in the KDF parameters;
  `_pack_kdf_params` writes `hash_len` first.
- Closing a wallet is documented to make the seed unrecoverable from memory. It zeroizes the seed
  buffer, but the wallet keeps its mnemonic, which determines the seed (`Keystores.UnlockAndClose`).
- The package README derives keys from the 64-byte BIP-39 seed; an unlocked wallet derives from the
  stored entropy.

## Model

| member | source | states |
|---|---|---|
| Mnemonics.MnemonicAsNumber | src/keystonecrypto/mnemonic.py:2135-2142 | the word indices read in base 2048 are the entropy shifted left by k bits plus the top k bits of its digest |
| Mnemonics.CheckedMeansEncoded | src/keystonecrypto/mnemonic.py:2114-2125 | the checksum comparison passes exactly on the encoding of the recovered entropy, and fails only with InvalidMnemonicError |
| Mnemonics.EntropyOfIndices | src/keystonecrypto/mnemonic.py:2154-2160 | recovering entropy from the indices inverts encoding, for multiples of four bytes up to 1064 |
| MnemonicProofs.LookupInverse | src/keystonecrypto/mnemonic.py:2061-2061 | the word-to-index table and indexing into the list are inverse on all word lists |
| MnemonicProofs.EntropyRoundTrip | src/keystonecrypto/mnemonic.py:2130-2160 | entropy to phrase to entropy is the identity for multiples of four bytes up to 1064, and phrases of BIP-39 sizes validate unchanged |
| MnemonicProofs.EncodedAsNumber | src/keystonecrypto/mnemonic.py:2130-2143 | from_entropy writes list words with one space between any two, whose indices read in base 2048 are the shifted entropy plus the top digest bits |
| MnemonicSizes.Recovery | src/keystonecrypto/mnemonic.py:2130-2160 | entropy of any size encodes; one or two words raise ValueError on recovery, groups of three words give four bytes each, and any other number overflows if the first bit is set and never gives another length than its words carry |
| MnemonicSizes.SurvivingSizes | src/keystonecrypto/mnemonic.py:2130-2160 | entropy of n bytes survives the way to a phrase and back, whatever its value, if and only if n is a multiple of four and at most 1064 |
| Text.SplitMeaning | src/keystonecrypto/mnemonic.py:2104-2104 | split finds a list of words exactly if the text is these words in order with whitespace of any length between any two and possibly around them |
| MnemonicProofs.ExactImage | src/keystonecrypto/mnemonic.py:2099-2127 | from_phrase accepts exactly the phrases whose words encode some entropy of a BIP-39 size; otherwise InvalidMnemonicError |
| MnemonicProofs.AcceptedText | src/keystonecrypto/mnemonic.py:2099-2127 | acceptance in terms of the text: exactly if words that encode some entropy of a BIP-39 size stand in the normalized phrase, whitespace of any length between them |
| MnemonicProofs.SingleSpaced | src/keystonecrypto/mnemonic.py:2099-2127 | a phrase is accepted exactly if its words are listed and the same words joined by single spaces are accepted, as they stand |
| MnemonicProofs.AcceptedEntropy | src/keystonecrypto/mnemonic.py:2150-2160 | the entropy of an accepted phrase is the one and only entropy that encodes to its words |
| MnemonicProofs.UnlistedWord | src/keystonecrypto/mnemonic.py:2154-2155 | the entropy of a phrase raises KeyError exactly if one of its words is not in the list |
| MnemonicProofs.ChecksumDensity | src/keystonecrypto/mnemonic.py:2109-2127 | for any hash and any first 3k - 1 list words exactly 2^(11-k) list words complete an accepted phrase |
| Base58.B58Encode | src/keystonecrypto/derivation.py:203-218 | the divmod, leading-zero and reversal loops compute the encoding the lemmas are about |
| Base58.EncodeDigits | src/keystonecrypto/derivation.py:207-217 | as many leading 1s as leading zero bytes, and the same number in base 58 |
| Base58.RoundTrip | src/keystonecrypto/derivation.py:203-218 | a reference decoder recovers the data, length included, if and only if some byte is nonzero or the data is one byte |
| Base58.DecodeThenEncode | src/keystonecrypto/derivation.py:203-218 | a base58 string is the encoding of what it decodes to if and only if it is not a run of two or more 1s, nor empty |
| Base58.Injective | src/keystonecrypto/derivation.py:203-218 | encoding is injective on data with a nonzero byte |
| Base58.AllZeros | src/keystonecrypto/derivation.py:204-206 | all-zero data of any length, and no data, is encoded as a single 1 |
| Xprv.SerializesIff | src/keystonecrypto/derivation.py:170-187 | serialization fails exactly for an unknown network (KeyError), a depth above 255 (ValueError) or a child number beyond 32 bits (struct.error), in this order |
| Xprv.Serialized | src/keystonecrypto/derivation.py:170-187 | decoding a serialization gives 82 bytes with the version bytes 04 88 AD E4 on mainnet and 04 35 83 94 on testnet, every field at its BIP-32 offset and the double-SHA256 checksum |
| Xprv.MasterSerialized | src/keystonecrypto/derivation.py:96-187 | the string of a seed's master key decodes to zero depth, fingerprint and child number, then the right and the left half of HMAC-SHA512 under "Bitcoin seed" |
| Xprv.DerivedSerializes | src/keystonecrypto/derivation.py:170-195 | a derived key serializes if and only if the network is known and the path has at most 255 components |
| Xprv.Shape | src/keystonecrypto/derivation.py:170-187 | every serialization has 111 characters and starts with xprv on mainnet, tprv on testnet |
| Xprv.Injective | src/keystonecrypto/derivation.py:170-187 | equal strings come from the same network and the same key in every field |
| Derivation.MasterKey | src/keystonecrypto/derivation.py:96-106 | the master key is made of both halves of HMAC-SHA512 under the ASCII of "Bitcoin seed", with depth 0, fingerprint 00000000 and child number 0 |
| Derivation.OrderValue | src/keystonecrypto/derivation.py:41-43 | the order constant is 2^256 minus 0x14551231950B75FC4402DA1732FC9BEBF |
| Derivation.DeriveFromSeed | src/keystonecrypto/derivation.py:190-195 | the loop rebinding the key is the fold the lemmas are about, failures included |
| Derivation.DeriveIsCKDpriv | src/keystonecrypto/derivation.py:134-168 | on a valid parent and a 31-bit index derive is BIP-32's CKDpriv, with depth, child number and parent fingerprint |
| Derivation.DeriveOtherwiseFails | src/keystonecrypto/derivation.py:135-147 | an index outside 31 bits or a parent scalar outside [1, n-1] always raises ValueError |
| Derivation.FollowsBip32 | src/keystonecrypto/derivation.py:96-195 | scalar, chain code and failure agree with BIP-32's key tree on every path, except exactly the empty path of an invalid master |
| Derivation.HmacSeparation | src/keystonecrypto/derivation.py:137-148 | for one parent distinct components give distinct 37-byte HMAC inputs, and the zero-byte layout is used exactly for hardened ones |
| Derivation.PathComposition | src/keystonecrypto/derivation.py:190-195 | deriving p ++ q is deriving p and then q from the result, failures included |
| Derivation.Telescoping | src/keystonecrypto/derivation.py:150-160 | after a nonempty path the scalar is the sum of all IL values modulo n and lies in [1, n-1] |
| Derivation.ValidExceptMaster | src/keystonecrypto/derivation.py:96-106 | a derived scalar is valid exactly if a step was taken or the unchecked master IL is in range; an invalid master has no children |
| Derivation.PathStep | src/keystonecrypto/derivation.py:162-168 | every prefix of a successful path succeeds, and each key records its depth, child number and the fingerprint of the prefix key |
| Path.Parse | src/keystonecrypto/derivation.py:54-74 | the parsing loop computes the function the lemmas are about, with its early failure |
| Path.ParseMeaning | src/keystonecrypto/derivation.py:54-74 | after trimming, exactly the empty text, m, and m/ with slash-separated decimal digits of any script, no more than `int` reads, and any number of ' and h as markers are accepted below 2^31, with the indices and flags they denote |
| Text.StripCuts | src/keystonecrypto/derivation.py:55-55 | strip removes only whitespace, from both ends |
| Path.ParseFailure | src/keystonecrypto/derivation.py:54-74 | everything else raises InvalidDerivationPathError, except that a ValueError escapes exactly when the first component that denotes nothing has digits without a decimal value or more digits than `int` reads |
| Path.SuperscriptRaises | src/keystonecrypto/derivation.py:68-70 | m/ with a superscript two raises ValueError |
| Path.LongDigitsRaise | src/keystonecrypto/derivation.py:68-70 | m/ with more decimal digits than the interpreter's limit raises ValueError, whatever the number |
| Path.PrintParse | src/keystonecrypto/derivation.py:54-74 | parsing the text of any path, with any mix of markers and surrounding whitespace, gives the path back |
| Signing.EncodeInt | src/keystonecrypto/signing.py:204-212 | the scan over leading zeros yields the INTEGER the lemmas are about |
| Signing.RsToDerByLoop | src/keystonecrypto/signing.py:199-216 | the converter built on the scan computes the function the lemmas are about |
| Signing.ForwardInverse | src/keystonecrypto/signing.py:174-216 | any 64 bytes convert to minimal DER of 8 to 72 bytes with the same two values and back to the same bytes |
| Signing.Canonical | src/keystonecrypto/signing.py:174-216 | strict DER converts to 32-byte numbers of the same values and back to itself |
| Signing.RoundTripIffStrict | src/keystonecrypto/signing.py:174-216 | DER to r, s to DER is the identity on exactly the strict DER signatures |
| Signing.Accepts | src/keystonecrypto/signing.py:174-196 | the parser accepts exactly the bytes with both tags and the outer length in place whose integers, the last one cut off at the end of the bytes, have at most 32 bytes or 33 with a leading zero, and returns their values in 32 bytes each |
| Signing.RefusedHow | src/keystonecrypto/signing.py:174-196 | of the refused inputs exactly those that end where the parser looks for the next byte raise IndexError, all others SignatureError |
| Signing.LenientInputs | src/keystonecrypto/signing.py:183-196 | two concrete inputs that are accepted although they are not strict DER |
| Signing.AcceptedIsNormalized | src/keystonecrypto/signing.py:174-216 | whatever the parser accepts becomes two 32-byte halves whose DER is strict and parses to the same halves |
| Signing.VerifySeesNormalized | src/keystonecrypto/signing.py:43-121 | without any promise of the signer, a signature names its scheme and the signer's public key and has the 64 bytes of the numbers that were read; verify hands the library their strict DER, with the key of the signature unless another is given |
| Signing.VerifySeesSignedDer | src/keystonecrypto/signing.py:43-121 | a strict-DER signer yields a signature with its scheme and public key, and verify hands the library the very DER that was signed, with that key unless another is given |
| Signing.OtherSigners | src/keystonecrypto/signing.py:57-165 | Schnorr signs the digest and Ed25519 the message, each under its scheme name and public key; verify checks the shape of the one and asks the library about the other |
| Signing.Verify | src/keystonecrypto/signing.py:43-80 | SignatureError exactly for an unknown scheme; ECDSA and Schnorr signatures verify only with 64 raw bytes |
| Struct.I64RoundTrip | src/keystonecrypto/envelope.py:139-139 | a packed signed 64-bit timestamp is congruent to the number modulo 2^64 and reads back as the number |
| Envelope.PackSucceeds | src/keystonecrypto/envelope.py:109-152 | pack returns a blob exactly when kdf_id, seed length, hash length, salt length, timestamp and KDF fields are in range and Argon2 succeeds |
| Envelope.PackFails | src/keystonecrypto/envelope.py:124-152 | argument checks and the salt length raise ValueError, then Argon2 HashingError, then integers out of range struct.error |
| Envelope.CostRoundTrip | src/keystonecrypto/envelope.py:85-103 | the KDF parameters pack exactly when all are 32-bit, and unpack to themselves |
| Envelope.PlaintextSections | src/keystonecrypto/envelope.py:136-142 | the inner record has its length, seed, timestamp, flag and zero padding at the documented offsets |
| Envelope.PlaintextRoundTrip | src/keystonecrypto/envelope.py:136-142 | the inner record decodes to its seed, flag and timestamp, and an empty seed is refused |
| Envelope.PlaintextMeaning | src/keystonecrypto/envelope.py:194-210 | any decrypted text is read as a record exactly if it starts with one of a nonempty seed; only length byte zero raises ValueError, everything else KeystoreDecryptionError |
| Envelope.PackedLayout | src/keystonecrypto/envelope.py:124-152 | for every salt length a blob starts with KST1, has every header field at its offset, and holds the encryption of the documented inner record under the Argon2 hash of password and salt, with the version bytes as associated data |
| Envelope.RoundTrip | src/keystonecrypto/envelope.py:109-210 | unpacking a packed blob with the same password returns the seed, flag and timestamp |
| Envelope.RoundTripIff16 | src/keystonecrypto/envelope.py:132-177 | under an ideal cipher the round trip succeeds if and only if salt_len is 16 |
| Envelope.Unpack | src/keystonecrypto/envelope.py:154-210 | short blobs, foreign formats and other versions fail with their exceptions, and only version 1, kdf_id 1 and a seed of 1 to 255 bytes can succeed |
| Envelope.UnpackOutcome | src/keystonecrypto/envelope.py:154-193 | on a blob of the format: the hash of the password with the salt and settings of the blob decrypts the rest under its nonce and version bytes, with the exception of each failing step |
| Envelope.WrongPassword | src/keystonecrypto/envelope.py:154-193 | under an ideal cipher a packed blob raises KeystoreDecryptionError for every password with another Argon2 hash, HashingError if Argon2 refuses it |
| Envelope.SameHash | src/keystonecrypto/envelope.py:154-193 | a password with the same Argon2 hash unpacks a packed blob to the same result |
| Envelope.Authenticity | src/keystonecrypto/envelope.py:154-210 | over any interleaving of calls, whatever unpack returns was given to an earlier pack whose nonce and ciphertext the blob carries and whose password hash is that of the password with the salt and settings of the blob |
| Envelope.AcceptsExactlySealed | src/keystonecrypto/envelope.py:154-210 | in a run under an ideal cipher unpack succeeds if and only if the blob is KST1, version 1, kdf_id 1 and carries nonce and ciphertext of an earlier pack of a nonempty seed, with the same password hash |
| Envelope.ReservedIgnored | src/keystonecrypto/envelope.py:93-103 | the twelve reserved header bytes do not influence unpack |
| Secrets.SecretBytes.Make | src/keystonecrypto/secret_bytes.py:34-41 | an empty value is refused; otherwise the buffer is a fresh copy |
| Secrets.SecretBytes.Zeroize | src/keystonecrypto/secret_bytes.py:53-56 | the loop zeroes the whole buffer in place and keeps its length |
| Keystores.Wallet.DeriveAccount | src/keystonecrypto/keystore.py:72-87 | a closed wallet raises; an open one answers from its seed buffer and changes nothing |
| Keystores.Wallet.SignMessage | src/keystonecrypto/keystore.py:89-96 | a closed wallet raises; an open one gives the signature `Keystores.SignedWith` describes and changes nothing |
| Keystores.Wallet.Close | src/keystonecrypto/keystore.py:98-100 | the wallet is closed and its seed buffer all zeros of the same length |
| Keystores.Lifecycle | src/keystonecrypto/keystore.py:56-106 | after any run a wallet closed in it stays closed with a zeroed seed; every other wallet is as it was |
| Keystores.ReplyAt | src/keystonecrypto/keystore.py:72-100 | every reply of a run is a refusal if the wallet was closed before, else computed from its original seed |
| Keystores.Repeatable | src/keystonecrypto/keystore.py:72-96 | the same request to a wallet gets the same reply unless the wallet was closed in between, and then a RuntimeError |
| Keystores.Execute | src/keystonecrypto/keystore.py:56-106 | on heap objects with separate buffers any sequence of calls has the replies and final states of the value-level run |
| Keystores.CloseShared | src/keystonecrypto/keystore.py:59-62 | closing one of two wallets built on one buffer zeroes the seed of the other and leaves it open |
| Keystores.KeystoreContext.Unlock | src/keystonecrypto/keystore.py:115-134 | a successful unlock returns a fresh open wallet with a fresh buffer holding the unpacked seed, and its mnemonic |
| Keystores.Session | src/keystonecrypto/keystore.py:115-134 | any number of wallets unlocked from one blob are separate, so a whole session follows the value-level run, and every wallet keeps its mnemonic |
| Keystores.Create | src/keystonecrypto/keystore.py:158-177 | create refuses an empty password and otherwise packs the entropy of the mnemonic |
| Keystores.CreatedRecord | src/keystonecrypto/keystore.py:158-177 | the keystore holds the packed blob, the parameters and the flag it was given and time 0; an empty password raises ValueError, otherwise the exception of pack |
| Keystores.CreateSucceeds | src/keystonecrypto/keystore.py:158-177 | on a mnemonic with an entropy create succeeds exactly for a non-empty password and arguments `Envelope.Packable` describes |
| Keystores.UnlockedMnemonic | src/keystonecrypto/keystore.py:123-134 | an unlocked wallet has a mnemonic exactly for BIP-39 seed sizes, and that mnemonic's entropy is the seed |
| Keystores.UnlockAndClose | src/keystonecrypto/keystore.py:98-134 | a wallet unlocked and closed has a zeroed seed and still the mnemonic whose entropy is the seed it had |
| Keystores.AccountFollowsBip32 | src/keystonecrypto/keystore.py:72-87 | an open wallet's account of any scheme has the private key BIP-32 gives and the compressed, x-only or Ed25519 public key of it, or a ValueError where the standard gives none; the only exception is Ed25519 at m with an invalid master key |
| Keystores.RefusedAccounts | src/keystonecrypto/keystore.py:72-87 | a closed wallet raises RuntimeError; an open one ValueError for indices beyond 31 bits and unknown schemes |
| Keystores.SignedWith | src/keystonecrypto/keystore.py:89-96 | a signature names the scheme and public key of the account and holds what the library signs with its private key: the digest for ECDSA and Schnorr, the message for Ed25519 |
| Keystores.EndToEnd | src/keystonecrypto/keystore.py:115-177 | for an accepted phrase and any password, create then unlock with that password gives the original entropy and a mnemonic with the same words |
| Keystores.OtherSaltsLock | src/keystonecrypto/keystore.py:115-177 | under an ideal cipher a keystore created with salt_len other than 16 does not unlock |
| Keystores.WrongPasswordLocks | src/keystonecrypto/keystore.py:115-177 | under an ideal cipher a created keystore unlocks to the same result for a password with the same Argon2 hash and raises KeystoreDecryptionError for any other |
| Text.Utf8RoundTrip | src/keystonecrypto/keystore.py:118-118 | the bytes of an encoded password decode to its code points by RFC 3629, so different passwords have different bytes |
| Keystores.SignedVerifies | src/keystonecrypto/keystore.py:89-96 | whatever account an open wallet derives, of any scheme, its signature of any message has 64 bytes, names the account's scheme and key and verifies under its own key |
| Keystores.SignedUnderBip32 | src/keystonecrypto/keystore.py:89-96 | the ECDSA signature carries the public key of the BIP-32 private key of the path, is the library's signature under that key and verifies as it stands |

## Left out

- The internals of SHA-256, RIPEMD-160, HMAC, PBKDF2, Argon2id, AES-GCM, secp256k1 and Ed25519, and constant-time behaviour.
- The 2048 literal words: any list of 2048 distinct lower-case ASCII words stands for them.
- `Mnemonic.generate`, `Mnemonic.seed`, `entropy.py`, `kdf.py` and `aead.py` beyond the checks their callers meet: single library calls.
- The type checks on arguments (`isinstance`), which the types of the model make unnecessary.
- File access in `Keystore.save` and `Keystore.open`; randomness and the clock are arguments.
- Extended keys as objects: their secret bytes are values here, so zeroing of intermediate keys by the garbage collector is not modelled.
- Passwords with lone surrogates, which `encode` refuses: the characters of the model are Unicode scalar values.
- `Account.sign` and `public_key_hex`, which return a field of the signature or of the account.
- `SecretBytes.random`, `from_hex`, `hex` and comparison.
- Pydantic hooks, `__repr__`, `__hash__`, `__eq__`, `__del__` and the context-manager methods, which only call `close` or `zeroize`.
- The chain adapters, which the repository only plans.
