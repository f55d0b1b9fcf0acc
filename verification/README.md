# Ironcoin transaction authorization and wallet key list, in Dafny

This project models two parts of the Ironcoin ledger client.

**Transaction authorization** (`src/tx.rs`). A `TransactionBuilder` collects
transfers, each paired with a caller-supplied secret key, which `build` checks
against the transfer's source key, plus an optional bounty. `build` serializes
the commitment, signs it once per (transfer, key) pair of the `zip`, checks each
fresh signature against that transfer's source key, packages a `Transaction`,
and then re-runs `verify_signatures` on it, which serializes the commitment a
second time. Because the serializer is modelled as a function, both
serializations yield the same bytes. `verify_signatures` is the receiver's check. It maps
every signer's public key to its payload; a later entry for the same key
overwrites an earlier one. Then it requires each transfer's source key to have
an entry that decodes and verifies against the commitment bytes.

**Wallet key list** (`impl WalletExt for Wallet` in `src/wallet.rs`). The list
supports appending keypairs, choosing the next free `addr<N>` name, and an
order-preserving prefix search over names and Base64-encoded public keys.

The cryptography and the encodings are abstract. `Crypto.Scheme` bundles four
uninterpreted functions: `sign`, `verify`, and the length checks of
`PublicKey::from_slice` and `Signature::from_slice`. A successful decode wraps
the same bytes. `Proto.Serializer` stands for protobuf `write_to_bytes` on a
commitment. Because it is a function, it is deterministic. The Base64 encoder
of `search_keys` is passed in as a parameter. So is the keypair that
`generate_new_key` obtains from the key generator. Everything is pure: the
builder and the wallet are immutable values, and each mutating method returns
the updated value.

Modules: `Wrappers` (Option/Result/Outcome), `Types` (bytes, `u32`, `u64`),
`Crypto`, `Proto` (the protobuf messages), `Tx` (the two entry points and the
builder), `TxProperties` (lemmas across those operations), `Decimal` (how
`format!("addr{}", i)` prints the index), and `Wallets`.

Behaviour of the code that is easy to miss:
- `build` emits one detached signature per transfer. It does not emit one per
  distinct source key: nothing is deduplicated.
- `op_index` is whatever the caller passes. The builder does not assign it.
- Only transfer sources are mandatory signers. The bounty key is stored but
  never used to sign, and `bounty_pk` is never checked.
- `set_bounty` appends the source bytes to `bounty_pk` rather than replacing
  them.

## Model

| member | source | states |
|---|---|---|
| Tx.SignMap | src/tx.rs:16-19 | The signature map holds an entry for a key exactly when some detached signature carries that public key |
| TxProperties.SignMapLastWins | src/tx.rs:16-19 | When a public key repeats in the signature list, the map keeps the payload of its last entry |
| Tx.SourceStatus | src/tx.rs:21-28 | The check of one source fails with MissingKey exactly when the key has no map entry. Otherwise it fails with PublicKeyDecode when the key does not decode, then SignatureDecode when the payload does not decode, then BadSignature when the payload does not verify against the commitment bytes. It passes exactly when all four steps succeed |
| Tx.CheckSources | src/tx.rs:20-31 | The loop over the first n transfers passes exactly when every one of them checks; otherwise it returns the error of the first source that does not check |
| Tx.VerifySignatures | src/tx.rs:14-32 | `verify_signatures` is Ok exactly when every transfer source has a map entry that decodes and verifies against the serialized commitment. A failure is the first failing source's error. With zero transfers it is Ok |
| TxProperties.SourceStatusMeansAuthorized | src/tx.rs:21-27 | The hash-map check for one source agrees with a map-free reference: the last signature entry for that key exists, decodes and verifies |
| TxProperties.VerifyPassesIffAllSourcesAuthorized | src/tx.rs:14-32 | Verification is Ok if and only if every transfer source is authorized in the reference sense |
| TxProperties.VerifyReportsFirstFailure | src/tx.rs:20-30 | Verification returns exactly the error of the first transfer whose source fails the check |
| TxProperties.VerifyMissingKey | src/tx.rs:20-28 | A transfer source without any detached signature makes verification fail. The error is "Missing key." when every earlier source is authorized |
| TxProperties.CheckSourcesOnlyReadsSources | src/tx.rs:20-30 | Two signature maps that agree at every transfer source give the same verdict |
| TxProperties.VerifyIgnoresUnrelatedSignatures | src/tx.rs:16-30 | Appending signatures for keys that are no transfer's source leaves the verdict unchanged |
| TxProperties.BountySignatureIsIgnored | src/tx.rs:20-30 | If `bounty_pk` is no transfer's source, adding a signature for it does not change the verdict: the bounty payer is never a mandatory signer |
| Tx.NewBuilder | src/tx.rs:43-49 | A new builder has no transfers, no keys and no bounty key, and its key list matches its transfer list |
| Tx.AddTransfer | src/tx.rs:51-63 | Appends exactly one transfer carrying the caller's op_index, tokens, source and destination, plus exactly its secret key. Earlier entries and the bounty fields are unchanged, and the key/transfer length match is preserved |
| Tx.SetBounty | src/tx.rs:65-71 | Stores the bounty key and amount and appends the source bytes to `bounty_pk`. Transfers and transfer keys are unchanged |
| TxProperties.ApiBuildersPairEveryTransfer | src/tx.rs:36-71 | Any builder reached from `new` by `add_transfer` and `set_bounty` calls holds exactly one secret key per transfer, so the `zip` in `build` pairs every transfer with its key |
| Tx.PairStatus | src/tx.rs:79-90 | The self-check of one (transfer, key) pair fails with PublicKeyDecode exactly when the source key does not decode. It fails with InvalidKeyForSource exactly when the key decodes but rejects the fresh signature by the paired secret key. It passes otherwise |
| Tx.SignTransfers | src/tx.rs:76-91 | The signing loop succeeds exactly when every zipped pair passes its self-check. On success, entry i is transfer i's source key with the signature by key i, in transfer order and with no deduplication. On failure, it returns the error of the first failing pair |
| Tx.Build | src/tx.rs:73-95 | On success, the transaction carries the builder's commitment and one signature per zipped pair (entry i for transfer i's source), and it passes `verify_signatures` |
| TxProperties.SignedTransactionVerifies | src/tx.rs:76-93 | Assume one secret key per transfer and a scheme whose signatures pass `Signature::from_slice`. Then the signature list from a successful signing loop over all transfers authorizes every source, including repeated sources, so the closing verification passes |
| TxProperties.BuildSucceedsIffEveryPairSigns | src/tx.rs:73-95 | For a builder holding one key per transfer (every builder reached through its API), with signatures that decode, `build` succeeds exactly when every source key decodes and verifies the signature made by its paired secret key |
| TxProperties.BuildRejectsMismatchedKey | src/tx.rs:79-89 | Let pair i be the first whose secret key does not match its decodable source key. Then `build` fails with "Invalid key for source account." and returns no transaction |
| TxProperties.ClosingCheckCanFailBuild | src/tx.rs:73-95 | Concrete case: with a scheme whose signatures never pass `Signature::from_slice`, every self-check of a one-transfer build passes, yet the closing `verify_signatures` makes `build` fail with the signature-decode error |
| TxProperties.RepeatedSourceIsSignedPerTransfer | src/tx.rs:76-91 | Concrete case: two transfers from one account build successfully with two detached signatures, both for that account |
| Wallets.AddKey | src/wallet.rs:64-71 | Appends exactly one keypair with the given name, public key and secret key; earlier keypairs are unchanged |
| Wallets.AddPublicKey | src/wallet.rs:73-78 | Appends exactly one keypair with the given name and public key and an empty secret key; earlier keypairs are unchanged |
| Wallets.GenerateNewKey | src/wallet.rs:80-89 | Appends one keypair built from the name and the generated keys, and returns a value equal to the appended element |
| Wallets.AddPublicKeyIsAddKeyWithoutSecret | src/wallet.rs:64-78 | `add_public_key` leaves the wallet exactly as `add_key` with an empty secret key would |
| Wallets.GenerateNewKeyIsAddKey | src/wallet.rs:64-89 | `generate_new_key` leaves the wallet exactly as `add_key` with the generated public and secret keys would |
| Wallets.AddrPrefixFits | src/wallet.rs:100-103 | If addr1 .. addr m are all taken, then m is at most the number of keypairs, so the scan over `count(1, 1)` stops |
| Wallets.FirstFreeFrom | src/wallet.rs:99-103 | The scan from i returns the first index at or after i whose `addr` name is free, and every index below it is taken |
| Wallets.GenerateName | src/wallet.rs:91-104 | Returns addr n with n at least 1, where addr n is free and addr 1 .. addr n-1 are all taken; so it never returns a name already in the wallet |
| Wallets.GeneratedNameIsConsumed | src/wallet.rs:64-104 | After any one keypair is appended under the generated name (by `add_key`, `add_public_key` or `generate_new_key`), that name exists and the next generated name differs |
| Wallets.SelectMatching | src/wallet.rs:107-114 | Each keypair occurs in the result as often as in the input if its name or Base64 public key starts with the search string, and otherwise not at all |
| Wallets.SearchKeys | src/wallet.rs:106-115 | `search_keys` returns exactly the keypairs whose name or Base64 public key starts with the search string, with their multiplicities |
| Wallets.SelectMatchingAppend | src/wallet.rs:107-114 | The search keeps order: searching a concatenation gives the concatenation of the two searches |
| Wallets.SearchAfterAppend | src/wallet.rs:64-115 | After any one keypair is appended (by `add_key`, `add_public_key` or `generate_new_key`), the search returns the earlier result followed by the new keypair if it matches |
| Wallets.SearchEmptyReturnsAll | src/wallet.rs:112-113 | With the empty search string, every keypair is returned in wallet order |
| Decimal.NatToString | src/wallet.rs:99 | The `addr` index prints as one or more decimal digits, with a leading zero only for zero |
| Decimal.ParseNatToString | src/wallet.rs:99 | Reading the printed index back gives the index, so distinct indices give distinct names |

## Left out

- Protobuf encoding: `write_to_bytes` is an abstract total function. Its error path is not modelled: the `try!` at src/tx.rs:15 and the panicking `unwrap` at src/tx.rs:75 are both dropped. `parse_from_bytes` is not modelled.
- Ed25519 internals: `sign`, `verify_signature` and `gen_keypair` are uninterpreted. `verify_signature`'s error is reduced to a boolean with one error value.
- `PublicKey::from_slice` and `Signature::from_slice` are modelled as an abstract length check that, on success, wraps the same bytes. The library's real lengths are not fixed.
- TxProperties.BuildSucceedsIffEveryPairSigns: requires `Crypto.SignaturesDecode`, i.e. every signature the library produces passes `Signature::from_slice`. Without it, the closing `verify_signatures` inside `build` could reject a payload it just produced.
- TxProperties.SignedTransactionVerifies: requires Crypto.SignaturesDecode and one secret key per transfer. Without the first, the closing `verify_signatures` can fail with a signature-decode error after every self-check passed. The second holds for every builder reached through its API (TxProperties.ApiBuildersPairEveryTransfer).
- Error messages: only "Missing key." and "Invalid key for source account." are literal in the source. The other errors come from the unseen crypto module and are kept as distinct error values without text.
- `decode_public_key` and `decode_secret_key` (src/wallet.rs:123-131): they call decoders in a crypto module that is not part of this model.
- Wallet file load and save (src/wallet.rs:14-37): file I/O.
- `pretty_format` (src/wallet.rs:39-52): display formatting only.
- Base64: the encoder is a parameter, not an implementation of the encoding.
- Wallets.SearchKeys: returns copies of the matching keypairs rather than references into the wallet.
- Field presence: an unset protobuf field is modelled as its default value (the empty bytes, 0). So a keypair from `add_public_key` cannot be told apart from one whose secret key was set to empty, which `has_secret_key` and the wire encoding can.
- Integer widths: `op_index`, `tokens` and `bounty` are range-restricted to u32/u64 as in the schema. The `usize` counter in `generate_name` is unbounded, since it cannot overflow before memory runs out.
