# Ptarmigan: protocol and codec proofs

A Dafny model of the parts of the Ptarmigan Lightning node where a mistake is easy and costly,
with proofs about whole runs and whole codecs. `dafny verify dfyconfig.toml` checks everything.

Functions give the meaning of an operation, methods follow the C function statement by statement
and are proved equal to it, and lemmas state what the operation is for. SHA-256, HMAC, HKDF, the
AEAD cipher, ECDH, signature checks and curve arithmetic are parameters; the laws assumed of them
are named predicates (`NoiseCrypto.AeadLaw`, `NoiseCrypto.EcdhLaw`, `Curve.GroupLaws`), and a small
instance of each shows that they can hold together. Memory
that the C code may read past the end of a buffer, or before writing it, is a parameter too, so
that no result depends on it.

| files | what they model |
|---|---|
| `little_endian`, `secret_storage` | the 49-bucket store of per-commitment secrets (BOLT #3): it answers like the map it replaces, over every run |
| `linear_register`, `polymod`, `bech32`, `bech32_exact`, `bech32_prefix`, `bech32_vectors`, `bech32_buffers`, `convert_bits`, `bit_stream`, `segwit_addr`, `bip173` | Bech32 and segwit addresses (BIP 173): a checksum register linear over GF(2), the codecs on strings, two test vectors, the C functions on buffers, and the promises for the C code's own polynomial |
| `noise_crypto`, `noise_transport`, `noise_session`, `noise_handshake`, `noise_agreement` | the BOLT #8 handshake and transport, over runs that interleave sending and reading in both directions |
| `multisig`, `multisig_script` | the P2SH multisig check and the scripts it is used on |
| `tx_format`, `tx_vector`, `tx_writer`, `tx_reader`, `tx_roundtrip` | the transaction codec (BIP 144): two-pass writer, six-state reader |
| `der_signature` | DER signatures and 64-byte signatures, against the BIP 66 checks |
| `exchange_sort`, `bip69`, `bip69_inputs` | the in-place exchange sort of outputs and inputs |
| `curve`, `key_derivation`, `extended_key` | BOLT #3 key derivation and BIP 32 |
| `basics`, `powers`, `big_endian` | bytes, memory, numbers in bytes, and the arithmetic of shifts and masks |

## What was found

Properties that do not hold for all inputs are stated with their exact condition, and with an input
on which they fail.

- An empty bucket of the secret store is marked with an index that has two trailing zeros, so a
  store with fewer than four secrets answers for four indices it never received
  (`SecretStorage.GetAnswersExactly`, `SecretStorage.EmptyStoreAnswersMarker`).
- The address encoder cuts the version to eight bits, and so takes some negative ones; the round trip
  holds exactly for the others (`SegwitAddr.AddrRoundTrip`, `SegwitAddr.NegativeVersion`). The address
  decoder compares two characters of the human readable part, so an address re-encodes to itself
  exactly if that part has two characters (`SegwitAddr.AddrCanonical`, `SegwitAddr.LongPrefix`).
- `ln_enc_auth_dec_len` adds 16 in 16 bits: the announced length is right exactly up to 65519 bytes,
  though BOLT #8 allows 65535 (`NoiseTransport.AnnouncedLength`).
- The multisig check skips the redeem script's length as a varint: scripts of eight keys or more
  are always refused (`MultisigScript.BuiltAccepted`).
- The transaction writer's size pass is right exactly if no witness is written or every input has
  1 to 252 items (`TxFormat.SizeExact`, `TxFormat.SizeShort`). The reader turns forever exactly on the
  bytes in which an input or output announces a script longer than what is left, where the smallest
  one would still fit (`TxReader.EndsExactly`, `TxRoundTrip.CutShortHangs`).
- `ln_misc_sigtrim` strips at most half of an integer's bytes, and so takes exactly those of at most
  64 bytes below 2^256 (`DerSignature.TrimIntExact`).
- The output sort gives the order of BIP 69 for every arrangement of the outputs exactly if no two
  have the same value and scripts of which one is a proper prefix of the other (`Bip69.SortExact`,
  `Bip69.WrongOrder`). The input sort compares 16 bytes of each id and then 16 that nobody wrote: it
  gives the order of BIP 69, whatever these hold, exactly if no two different inputs agree in the
  last 16 bytes of their ids (`Bip69Inputs.VinsExact`, `Bip69Inputs.SameTransaction`).
- A derived public key is refused where the library does not take the hash as a factor, while the
  secret is given; and the revocation public key is given even where the secret is zero
  (`KeyDerivation.PubOfPriv`, `KeyDerivation.RevocationPubOfPriv`, `KeyDerivation.RefusedHash`,
  `KeyDerivation.ZeroRevocationSecret`).

## Model

| member | source | states |
|---|---|---|
| SecretStorage.GetReturnsInserted | ln/ln_derkey.c:321-382 | After any accepted run of inserts from 2^48 - 1 down, with arbitrary secrets, index 2^48 - 1 - k yields the k-th secret: the buckets refine the full map |
| SecretStorage.GetAnswersExactly | ln/ln_derkey.c:312-382 | An index is answered if and only if it was received, or fewer than four secrets are in and it is one of the four the empty marker matches |
| SecretStorage.EmptyStoreAnswersMarker | ln/ln_derkey.c:312-318 | The marker's own index is answered by an empty store |
| SecretStorage.InsertKeepsInv | ln/ln_derkey.c:321-353 | Each accepted insert keeps the invariant that bucket b holds the smallest received index with exactly b trailing zeros, and derives every secret of its block |
| SecretStorage.RunInv | ln/ln_derkey.c:321-353 | The invariant holds after every accepted run |
| SecretStorage.SeedRunAccepted | ln/ln_derkey.c:304-353 | Secrets made from one seed in descending order are never rejected |
| SecretStorage.DeriveSplit | ln/ln_derkey.c:392-411 | Derivation composes over bit prefixes: the high bits first, then the low ones |
| SecretStorage.SetBitHashes | ln/ln_derkey.c:392-411 | Setting bit b of an index whose bits up to b are clear hashes the one buffer whose little-endian number differs from the secret's by 2^b, added if that bit was clear and subtracted if it was set |
| SecretStorage.SeedIsSecretZero | ln/ln_derkey.c:304-309 | The secret of index 0 is the seed |
| LittleEndian.LeNumberInjective | ln/ln_derkey.c:406 | The number of a buffer determines its bytes |
| LittleEndian.NumberFlip | ln/ln_derkey.c:406 | Turning over bit k of byte i turns over bit 8 i + k of the number |
| SecretStorage.WhereToPutIsZeros | ln/ln_derkey.c:417-437 | The bucket is the trailing-zero count of the index, at most 48 |
| SecretStorage.BitsAreDivMod | ln/ln_derkey.c:356-382 | The masks and bit tests of the model are remainder and quotient by powers of two |
| SecretStorage.DeriveSecret | ln/ln_derkey.c:392-411 | The flip-and-rehash loop on a buffer computes the derivation that SetBitHashes, SeedIsSecretZero and DeriveSplit describe |
| SecretStorage.WhereToPutSecret | ln/ln_derkey.c:417-437 | The search loop finds the bucket |
| SecretStorage.Storage.Init | ln/ln_derkey.c:312-318 | Every bucket is empty |
| SecretStorage.Storage.InsertSecret | ln/ln_derkey.c:321-353 | The secret is accepted if and only if it derives every bucket below its own; then only its bucket changes, else none does |
| SecretStorage.Storage.GetSecret | ln/ln_derkey.c:356-382 | The backward search answers from the first matching bucket, and leaves the store alone |
| LinearRegister.SuffixKeepsApart | btc/segwit_addr.c:165-179 | Different registers stay different however many equal symbols follow |
| LinearRegister.BurstChangesRun | btc/segwit_addr.c:34-42 | Two symbol strings that differ only within six consecutive symbols end in different registers, at any length |
| LinearRegister.ChecksumReaches | btc/segwit_addr.c:99-106 | The six symbols taken from the register bring it to the target |
| LinearRegister.ChecksumUnique | btc/segwit_addr.c:165-182 | No other six symbols do |
| Polymod.Bech32Laws | btc/segwit_addr.c:34-42 | The C code's step is linear over GF(2), injective on 30-bit states, and loses nothing within six symbols |
| Polymod.Bech32Sound | btc/segwit_addr.c:34-42 | So the C code's register has what the codec needs |
| Bech32Prefix.ExpandInjective | btc/segwit_addr.c:77-98 | Different human readable parts enter the checksum as different symbols |
| Bech32Prefix.NearPartDetected | btc/segwit_addr.c:122-183 | An accepted string is rejected with its human readable part exchanged for one that differs in the low bits of at most six characters in a row, or in n characters of a part of at most 5 - n |
| Bech32Prefix.ShortPartDetected | btc/segwit_addr.c:122-183 | A human readable part of at most two characters cannot be exchanged for any other such part, of another length included |
| Bech32Vectors.ShortDecoded | btc/tests/testinc_segwit_addr.cpp:53 | "A12UEL5L" decodes to "a" and no data with the C code's register |
| Bech32Vectors.AllEncoded | btc/tests/testinc_segwit_addr.cpp:55 | "abcdef" with the values 0 to 31 is encoded as the test vector says, which fixes alphabet, generator and target |
| Bech32.EncodeThenDecode | btc/segwit_addr.c:74-183 | Decoding an encoded string gives back the human readable part and the data exactly if the former is not empty and, in the invoice mode, the string has 122 characters |
| Bech32.DecodeThenEncode | btc/segwit_addr.c:74-183 | Every accepted string re-encodes to its own lower case |
| Bech32Exact.AcceptedExactly | btc/segwit_addr.c:122-183 | A string is accepted with a result if and only if its lower case is the encoding of that result, the human readable part is not empty, an invoice has at least 122 characters, and the cases are not mixed |
| Bech32.BurstDetected | btc/segwit_addr.c:122-183 | A string that differs from an accepted one within six consecutive data characters is rejected, at any length |
| Bech32Buffers.Bech32Encode | btc/segwit_addr.c:74-108 | The C loops write the encoding and its terminator, or fail exactly when the specification has none |
| Bech32Buffers.Bech32Decode | btc/segwit_addr.c:122-183 | The C loops accept exactly the strings of the specification and leave its result in the buffers |
| Bech32Buffers.BtcBech32Encode | btc/btc_segwit_addr.c:30-35 | The size check keeps every write, terminator included, inside the buffer |
| Bech32Buffers.BtcBech32Decode | btc/btc_segwit_addr.c:38-62 | For any string and buffers the size checks keep every write inside, and succeed if and only if the result fits |
| Bip173.Roundtrip | btc/segwit_addr.c:74-183 | The encode-decode round trip for the C code's polynomial |
| Bip173.Canonical | btc/segwit_addr.c:74-183 | The decode-encode round trip for the C code's polynomial |
| Bip173.Accepted | btc/segwit_addr.c:122-183 | The exact acceptance for the C code's polynomial |
| Bip173.OneSpelling | btc/segwit_addr.c:122-183 | Two accepted strings with the same content are the same up to case |
| Bip173.DetectsBursts | btc/segwit_addr.c:122-183 | Burst detection for the C code's polynomial, at any length |
| Bip173.DetectsPartChange | btc/segwit_addr.c:122-183 | Detection of an exchanged human readable part for the C code's polynomial |
| Bip173.AddressRoundtrip | btc/segwit_addr.c:216-244 | Every version 0 to 16 and every program of 2 to 40 bytes, 20 or 32 for version 0, has an address that begins with "bc1" or "tb1", decodes to it, and is refused for the other network |
| Bip173.AcceptedAddress | btc/segwit_addr.c:229-244 | An accepted address has a version of 0 to 16 and a permitted size, and begins with "bc" or "tb" as its network demands |
| BitGroups.ConvertBits | btc/segwit_addr.c:194-214 | The loop over a wrapping 32-bit accumulator cuts the whole input, read as one number, into digits; it fails exactly if bits are left over that may not be |
| BitGroups.PadThenUnpad | btc/segwit_addr.c:194-214 | 8 to 5 bits with padding, then 5 to 8 without, is the identity at any length |
| BitGroups.UnpadThenPad | btc/segwit_addr.c:194-214 | Every symbol list that the direction without padding accepts is the padded form of its result |
| BitStream.BitsKept | btc/segwit_addr.c:194-214 | Bit i of the padded form is bit i of the bytes, and zero past their end |
| SegwitAddr.AddrRoundTrip | btc/segwit_addr.c:216-244 | Decoding inverts encoding if and only if the version is not negative |
| SegwitAddr.AddrEncodable | btc/segwit_addr.c:216-227 | All versions 0 to 16 with a permitted program are encoded |
| SegwitAddr.AddrCanonical | btc/segwit_addr.c:229-244 | An accepted address re-encodes to its lower case if and only if its human readable part has two characters |
| SegwitAddr.NegativeVersion | btc/segwit_addr.c:216-227 | Version -255 is encoded and does not come back |
| SegwitAddr.LongPrefix | btc/segwit_addr.c:229-244 | An address of "bcx" is accepted as one of "bc" and re-encodes to another string |
| SegwitAddr.SegwitAddrEncode | btc/segwit_addr.c:216-227 | The C function writes exactly the specified address |
| SegwitAddr.SegwitAddrDecode | btc/segwit_addr.c:229-244 | The C function accepts exactly the specified addresses and returns their version and program |
| SegwitAddr.BtcSegwitAddrEncode | btc/btc_segwit_addr.c:65-70 | The size check keeps every write inside the buffer |
| SegwitAddr.BtcSegwitAddrDecode | btc/btc_segwit_addr.c:73-77 | The size check keeps every write inside the buffer |
| NoiseTransport.AnnouncedLength | ln/ln_enc_auth.c:410 | The length travels as its high and its low byte, and the receiver's reading is right if and only if the message has at most 65519 bytes |
| NoiseTransport.DecAfterEnc | ln/ln_enc_auth.c:236-478 | From equal states, decoding a message gives it back and leaves equal states |
| NoiseTransport.EncAfterDec | ln/ln_enc_auth.c:236-478 | An accepted header and body are exactly what the sender would have written for the decoded message |
| NoiseTransport.HeaderExact | ln/ln_enc_auth.c:349-414 | A header is taken if and only if it seals two bytes under the current key and nonce; then the nonce moves on, else nothing does |
| NoiseTransport.BodyExact | ln/ln_enc_auth.c:417-478 | A body is taken if and only if it seals a message under the current key and nonce; after nonce 999 key and chaining key are replaced |
| NoiseTransport.Peer.Enc | ln/ln_enc_auth.c:236-346 | The sender's new state, the packet, and the key and nonce of each call of the cipher, the abandoned message included |
| NoiseTransport.Peer.DecLen | ln/ln_enc_auth.c:349-414 | The receiver's new state and length for any header, failures included |
| NoiseTransport.Peer.DecMsg | ln/ln_enc_auth.c:417-478 | The receiver's new state and message, with the rotation after nonce 999 |
| NoiseSession.NoiseAt | ln/ln_enc_auth.c:284-334 | After m messages the nonce is even, below 1000, and 1000 times the epoch plus the nonce is 2m |
| NoiseSession.RunKeeps | ln/ln_enc_auth.c:236-478 | In every run no call fails, so the mid-message rotation is unreachable; the ends agree at every message boundary and what was read is a prefix of what was sent |
| NoiseSession.SomethingToRead | ln/ln_enc_auth.c:349-478 | A read is possible exactly while something sent has not arrived |
| NoiseSession.CatchUp | ln/ln_enc_auth.c:236-478 | After any run, in the middle of a message too, reading on delivers every message unchanged and leaves equal key, chaining key and nonce |
| NoiseSession.RunUses | ln/ln_enc_auth.c:284-334 | In every run call j of the cipher uses nonce j % 1000 and the key that j / 1000 applications of HKDF to chaining key and key give |
| NoiseSession.RunStates | ln/ln_enc_auth.c:284-478 | In every run both ends' keys, chaining keys and nonces follow from HKDF and the numbers of messages sent and read |
| NoiseSession.PacketIs | ln/ln_enc_auth.c:236-346 | A message adds its two length bytes and its text to the stream, sealed under the key of that chain with an even nonce and the next one |
| NoiseSession.NoReuse | ln/ln_enc_auth.c:284-334 | No key and nonce are used together twice if and only if the keys that HKDF has given so far are distinct |
| NoiseSession.BothKeep | ln/ln_enc_auth.c:236-478 | Both directions keep their invariants however they interleave |
| NoiseHandshake.Connection.HandshakeInit | ln/ln_enc_auth.c:113-150 | The starting transcript of either role, or no handshake if no ephemeral key was made |
| NoiseHandshake.Connection.HandshakeStart | ln/ln_enc_auth.c:153-171 | Act one is sent, by an initiator that has not started only |
| NoiseHandshake.Connection.HandshakeRecv | ln/ln_enc_auth.c:174-221 | Each message moves the handshake on or ends it; a failed act two or three still overwrites chaining keys and nonces |
| NoiseHandshake.Connection.ActOneSender | ln/ln_enc_auth.c:536-604 | Message and transcript of act one |
| NoiseHandshake.Connection.ActOneReceiver | ln/ln_enc_auth.c:607-678 | What act one leaves at the responder, wherever it stops |
| NoiseHandshake.Connection.ActTwoSender | ln/ln_enc_auth.c:681-748 | Message and transcript of act two |
| NoiseHandshake.Connection.ActTwoReceiver | ln/ln_enc_auth.c:751-822 | What act two leaves at the initiator, wherever it stops |
| NoiseHandshake.Connection.ActThreeSender | ln/ln_enc_auth.c:825-929 | Message of act three and the initiator's keys |
| NoiseHandshake.Connection.ActThreeReceiver | ln/ln_enc_auth.c:932-1046 | What act three leaves at the responder, and the node id it reports |
| NoiseAgreement.ActAccepted | ln/ln_enc_auth.c:607-822 | Acts one and two are accepted if and only if they are what the holder of the key in them would have sent |
| NoiseAgreement.ActThreeAccepted | ln/ln_enc_auth.c:932-1046 | Act three is accepted with an id if and only if it is the message for that id |
| NoiseAgreement.ActOneAgrees | ln/ln_enc_auth.c:536-748 | After act one and its answer both hold the same transcript hash, chaining key and temporary key |
| NoiseAgreement.HandshakeAgrees | ln/ln_enc_auth.c:113-221 | An undisturbed handshake ends with equal chaining keys, crossed send and receive keys, nonces zero, and the initiator's node id at the responder |
| NoiseAgreement.TranscriptAfterTwo | ln/ln_enc_auth.c:113-748 | The transcript hash is that of prologue, responder id, and key and tag of acts one and two, in this order |
| NoiseAgreement.HandshakeMessages | ln/ln_enc_auth.c:536-929 | The three messages and their four seals in terms of the primitives, key, nonce and transcript of each included; no key and nonce are used twice if and only if the three derived keys differ |
| NoiseAgreement.RefusedMessage | ln/ln_enc_auth.c:174-221 | A refused message ends the handshake, and from act two on overwrites the connection's nonces and chaining keys but not its keys |
| NoiseAgreement.HandshakeKeys | ln/ln_enc_auth.c:536-929 | The final keys in closed form from the protocol name and the three shared secrets |
| NoiseAgreement.SessionAfterHandshake | ln/ln_enc_auth.c:113-478 | In every session after it no call fails, and at any moment reading on delivers everything sent and leaves equal states, in both directions |
| NoiseCrypto.TrivialLaws | ln/ln_enc_auth.c:236-478 | The laws assumed of the cipher and of ECDH can hold together |
| Multisig.TakeFirst | btc/btc_tx.c:1056-1085 | Taking the first key that verifies loses no assignment |
| Multisig.PassOver | btc/btc_tx.c:1056-1085 | Passing over a key that does not verify loses no assignment |
| Multisig.NoRoom | btc/btc_tx.c:1056-1080 | With fewer keys left than signatures there is no assignment, so the failure budget loses none |
| Multisig.KeysDistinct | btc/btc_tx.c:1037-1048 | The nested loops find a repeated key if and only if there is one |
| Multisig.MatchSignature | btc/btc_tx.c:1059-1084 | One signature's pass over the keys keeps the question of assignability |
| Multisig.MatchAll | btc/btc_tx.c:1049-1089 | The greedy loop answers whether a strictly increasing assignment exists |
| Multisig.BtcTxVerifyMultisig | btc/btc_tx.c:949-1090 | Any script is accepted if and only if it parses, hashes to the given value, repeats no key, and a strictly increasing assignment of signatures to keys exists under which each verifies |
| MultisigScript.BtcKeysCreateMulti | btc/btc_keys.c:334-361 | The moving pointer writes the redeem script |
| MultisigScript.BtcTxSetVinP2sh | btc/btc_tx.c:347-386 | The moving pointer fills the buffer with signatures, length and redeem script |
| MultisigScript.RedeemBytes | btc/btc_keys.c:334-361 | Where each byte of a redeem script is: 0x50 + m, each key after a 33, 0x50 + n, 0xae |
| MultisigScript.TwoSignatures | btc/btc_tx.c:347-386 | The script for two signatures byte for byte, with 0x4c or 0x4d before the redeem script's length |
| MultisigScript.BuiltAccepted | btc/btc_tx.c:949-1090 | A script built by the two is accepted if and only if it has one to seven distinct keys, as many signatures as asked for, the right hash, and a strictly increasing assignment |
| TxFormat.SizeExact | btc/btc_util.c:735-770 | The size pass never counts too much, and counts right if and only if no witness is written or every input has 1 to 252 items |
| TxFormat.SizeShort | btc/btc_util.c:735-770 | With a witness on one input and none on another the buffer is short |
| TxWriter.SizePass | btc/btc_util.c:735-770 | The loops add up the specified size and find whether there is a witness |
| TxWriter.BtclUtilCreateTx | btc/btc_util.c:719-832 | Any transaction is written from the allocated buffer on, past its end if the size was short; the result says whether it stayed inside |
| TxWriter.BtcTxCreate | btc/btc_tx.c:623-626 | It succeeds if and only if no witness is written or every input has 1 to 252 items, and then the buffer holds the serialisation |
| TxReader.Progress | btc/btc_tx.c:428-617 | Every turn of the reader's loop that is not stuck brings the end nearer |
| TxReader.EndsExactly | btc/btc_tx.c:428-617 | The loop ends if and only if no input or output announces a script longer than what is left, as a walk over the announced lengths finds |
| TxReader.BtcTxRead | btc/btc_tx.c:389-620 | On all bytes on which it ends, the loop leaves the result of the iterated step |
| TxReader.TakeVin | btc/btc_tx.c:456-503 | The turn that reads an input |
| TxReader.TakeVout | btc/btc_tx.c:525-576 | The turn that reads an output |
| TxReader.TakeWitness | btc/btc_tx.c:577-605 | The turn that reads one input's witness items |
| TxRoundTrip.VarintRead | btc/btc_tx.c:1789-1805 | The reader's varint undoes the writer's for 16-bit lengths |
| TxFormat.LeRoundTrip | btc/btc_tx.c:1819-1836 | Little-endian numbers are read back as written |
| TxFormat.LeByte | btc/btc_tx.c:1819-1836 | Byte i of a written number is its digit i to base 256 |
| TxFormat.VarintIsLe | btc/btc_util.c:857-890 | A length from 253 on is 0xfd and two bytes of the number |
| TxVector.Layout | btc/btc_util.c:771-832 | Version, marker and flag, inputs, outputs, witnesses, lock time, in this order |
| TxVector.SampleBytes | btc/btc_util.c:771-832 | One transaction byte for byte, with and without its witness |
| TxRoundTrip.ReadSerialized | btc/btc_tx.c:389-620 | On every serialised transaction in the domain the reader ends and rebuilds it, whatever memory held; without the marker the witnesses are gone |
| TxRoundTrip.CreateThenRead | btc/btc_util.c:719-832 | Reading what the writer wrote ends and gives back version, inputs, outputs, witnesses and lock time |
| TxRoundTrip.CutShortHangs | btc/btc_tx.c:456-503 | On a concrete truncated transaction the loop never ends |
| DerSignature.ValidIsEncoding | btc/btc_tx.c:1429-1535 | The BIP 66 checks accept exactly the encodings of two shortest positive integers |
| DerSignature.ExpandIsValid | ln/ln_misc.c:219-281 | Expanding any 64 bytes gives a valid encoding |
| DerSignature.ExpandIs | ln/ln_misc.c:219-281 | An expanded signature byte for byte, from the two halves in the fewest bytes that do not read as negative |
| DerSignature.ZeroSignature | ln/ln_misc.c:165-166 | Sixty-four zero bytes expand to 30 06 02 01 00 02 01 00 01 |
| DerSignature.EncodingCells | btc/btc_tx.c:1429-1535 | Where each part of an encoding is |
| DerSignature.TrimIntExact | ln/ln_misc.c:178-193 | An integer is taken if and only if it has at most 64 bytes and is below 2^256, and keeps its value |
| DerSignature.TrimExact | ln/ln_misc.c:155-216 | Any memory is trimmed if and only if its size byte fits the two lengths and both integers are taken, and then gives their values |
| DerSignature.TrimAfterExpand | ln/ln_misc.c:155-281 | Trimming an expanded signature gives back any 64 bytes |
| DerSignature.TrimAccepts | ln/ln_misc.c:155-216 | Of the valid encodings exactly those of two numbers below 2^256 are trimmed |
| DerSignature.ExpandAfterTrim | ln/ln_misc.c:155-281 | Expanding a trimmed valid encoding that ends in 0x01 gives the same bytes |
| DerSignature.SigTrim | ln/ln_misc.c:155-216 | The loops compute the trimmed signature in place |
| DerSignature.SigExpand | ln/ln_misc.c:219-281 | The loops compute the expanded signature |
| Bip69.SortVouts | btc/btc_util.c:288-313 | The loops exchange the outputs in place as the sort on sequences does, of which SortedInOrder and SortExact say what it achieves |
| Bip69.SortedInOrder | btc/btc_util.c:288-313 | The exchange sort loses and invents no output and leaves none greater than a later one |
| Bip69.SortExact | btc/btc_util.c:288-313 | Every arrangement of the outputs is sorted into BIP 69 order, by value and by the first byte of the scripts that differs, if and only if no two have the same value and scripts of which one is a proper prefix of the other |
| Bip69.WrongOrder | btc/btc_util.c:288-313 | Two outputs that the sort leaves in the wrong order |
| Bip69Inputs.SortVins | btc/btc_util.c:247-284 | The loops exchange the inputs in place as the sort on sequences does, for any unwritten bytes |
| Bip69Inputs.VinsInHalfOrder | btc/btc_util.c:247-284 | Whatever was not written, the inputs are permuted into the order of the last 16 bytes of their ids, read backwards |
| Bip69Inputs.VinsExact | btc/btc_util.c:247-284 | Every arrangement of the inputs ends in BIP 69 order, by reversed id and index, whatever was not written, if and only if no two different ones agree in the last 16 bytes of their ids |
| Bip69Inputs.SameTransaction | btc/btc_util.c:262-275 | Two inputs from one transaction are ordered by the unwritten bytes, and by index only if these are equal |
| Bip69Inputs.BtcUtilSortBip69 | btc/btc_util.c:247-314 | Both sorts |
| Bip69.MemcmpSign | btc/btc_util.c:301-302 | The comparison is negative or positive according to the first byte that differs |
| Bip69.GreaterTransitive | btc/btc_util.c:292-304 | Being greater is transitive |
| Bip69.EqualNotTransitive | btc/btc_util.c:292-304 | Being neither greater nor less is not |
| Bip69.OrderExact | btc/btc_util.c:292-304 | Two outputs of which the first is not greater are in BIP 69 order if and only if the second script is not a proper prefix of the first at the same value |
| Curve.MulAddIsPub | btc/btc_util.c:586-634 | Adding to a public key is adding to the secret, failures included, for the factors the library takes; others have no result |
| Curve.CyclicLaws | btc/btc_util.c:586-634 | The laws assumed of the curve hold of the numbers modulo any n |
| KeyDerivation.PubOfPriv | ln/ln_derkey.c:45-134 | The derived public key is that of the derived secret, or none if that is zero, exactly if the library takes the hash as a factor or the secret is zero; else it is refused |
| KeyDerivation.RevocationPubOfPriv | ln/ln_derkey.c:140-298 | The revocation public key is given if and only if the library takes both hashes as factors, and is that of the revocation secret if and only if it is given just where the secret is not zero |
| KeyDerivation.ZeroRevocationSecret | ln/ln_derkey.c:140-298 | A revocation public key is given for a zero revocation secret |
| KeyDerivation.RefusedHash | ln/ln_derkey.c:45-134 | A public key is refused while the secret is given |
| ExtendedKey.ExtKey.Hmac512 | btc/btc_extkey.c:506-548 | A left half from 1 to the order less one succeeds and sets the chain code; any other fails and leaves it |
| ExtendedKey.ExtKey.BtcExtkeyGenerate | btc/btc_extkey.c:149-281 | All fields after the call, failures included, wherever the call stops, as SecretChild, PublicChild and MasterKey spell them out |
| ExtendedKey.SecretChild | btc/btc_extkey.c:149-281 | The child of a secret hashes 0x00 and the secret's 32 bytes for a hardened index, else the public key, and then the index in four bytes; chain code, key, fingerprint and failure follow from the two halves |
| ExtendedKey.PublicChild | btc/btc_extkey.c:149-281 | The child of a public key hashes that key and the index; a hardened index has none |
| ExtendedKey.MasterKey | btc/btc_extkey.c:149-281 | The master key hashes the seed under "Bitcoin seed" |
| BigEndian.BeUnique | btc/btc_extkey.c:177-185 | A number has exactly one form in a given number of bytes, if it has one |
| ExtendedKey.StepTwins | btc/btc_extkey.c:149-281 | A child derived from a secret and one derived from its public key succeed or fail together, with equal chain code, fingerprint, depth and index, and matching keys |
| ExtendedKey.PathTwins | btc/btc_extkey.c:149-281 | The same along every path without hardened indices |

## Left out

- Hashes, HMAC, HKDF, the cipher, curve arithmetic and signature checks: foreign code, kept as parameters; of the library's multiplication it is only assumed which factors it takes and that they include 1 to n - 1.
- Bech32Prefix.NearPartDetected: changes of a longer human readable part that are farther apart, or that change high bits, are not promised to be detected.
- Bech32 on buffers: the methods take the checksum register as a parameter; `Bip173` gives the results for the C code's polynomial.
- NoiseTransport.Peer.DecMsg: asks for at least 16 bytes; on fewer the C function reads outside its buffer.
- NoiseSession.RunKeeps: messages are at most 65519 bytes; for longer ones the announced length is wrong (NoiseTransport.AnnouncedLength).
- NoiseHandshake.Connection.HandshakeRecv: the reply is returned; that a failed call leaves the caller's buffer alone is not modelled, nor is a key that is not on the curve.
- TxReader.BtcTxRead: asks for bytes on which its loop ends, which TxReader.EndsExactly decides; the build without `PTARM_DEBUG` is modelled, the other leaves the loop after six turns at one position.
- TxWriter.BtclUtilCreateTx: what a write past the buffer does to other memory is not modelled; memory simply goes on.
- TxRoundTrip.ReadSerialized: 32-bit wrap-around of sizes is not modelled, so transactions of 2 GB and more are outside what it says about the C code; the reader's fields are values rather than a structure filled in place.
- Multisig.BtcTxVerifyMultisig: the bit mask of checked keys is a set of positions, and 32-bit wrap-around of script positions is not modelled.
- MultisigScript.BuiltAccepted: signatures are shorter than 0x4c bytes; a longer one can be taken for a push opcode.
- Bip69Inputs.SortVins: the bytes that were never written are a parameter at each comparison, and every id has 32 bytes.
- Bip69Inputs.VinsExact: says nothing of what the unwritten bytes are likely to be.
- KeyDerivation.PubOfPriv: results are returned rather than written to buffers, and secrets are numbers; which hashes the library takes as factors is a parameter.
- ExtendedKey.ExtKey.BtcExtkeyGenerate: the key field is a number or 33 bytes; that the byte after a secret keeps its old value is not modelled, nor that a child secret of zero ends the program at an `assert` unless `NDEBUG` is set.
- SecretStorage.Storage.InsertSecret: a rejected secret returns false, as with `NDEBUG`; the library's own Makefile leaves it unset, so that the program ends at an `assert` there (ln/ln_derkey.c:345). The 64-bit index is a natural number below 2^48 in a run.
- The fixed BIP 44 and BIP 49 paths, base58, WIF and extended-key strings: they would only add easy members.
- The channel state machine, closing messages, short channel ids, HTLC flags, storage, the daemon and all printing.
- malloc, free and the libsodium branches.
