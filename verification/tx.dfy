/** Transaction authorization (`src/tx.rs`): the `verify_signatures` predicate
    and the `TransactionBuilder` that signs a commitment once per transfer. */
module Tx {
  import opened Types
  import opened Wrappers
  import opened Crypto
  import opened Proto

  /** The failures the two entry points can report. */
  datatype Error =
    | MissingKey            // "Missing key.": a transfer source has no detached signature
    | InvalidKeyForSource   // "Invalid key for source account.": a fresh signature fails its self-check
    | PublicKeyDecode       // `PublicKey::from_slice` rejected a source key
    | SignatureDecode       // `Signature::from_slice` rejected a payload
    | BadSignature          // `verify_signature` rejected a payload

  // ---------------------------------------------------------------------------
  // verify_signatures
  // ---------------------------------------------------------------------------

  /** Some detached signature in `sigs` is for public key `pk`. */
  predicate HasSignatureFor(sigs: seq<DetachedSignature>, pk: Bytes) {
    exists i :: 0 <= i < |sigs| && sigs[i].publicKey == pk
  }

  /** The hash map built by inserting every (public key, payload) pair in list
      order; a repeated key is overwritten by its later entry. */
  function SignMap(sigs: seq<DetachedSignature>): (m: map<Bytes, Bytes>)
    ensures forall pk :: pk in m <==> HasSignatureFor(sigs, pk)
  {
    if |sigs| == 0 then map[]
    else
      var last := sigs[|sigs| - 1];
      var m := SignMap(sigs[..|sigs| - 1]);
      assert forall pk :: HasSignatureFor(sigs, pk) <==>
        HasSignatureFor(sigs[..|sigs| - 1], pk) || last.publicKey == pk by {
        forall pk | HasSignatureFor(sigs, pk) && last.publicKey != pk
          ensures HasSignatureFor(sigs[..|sigs| - 1], pk)
        {
          var i :| 0 <= i < |sigs| && sigs[i].publicKey == pk;
          assert sigs[..|sigs| - 1][i] == sigs[i];
        }
        forall pk | HasSignatureFor(sigs[..|sigs| - 1], pk)
          ensures HasSignatureFor(sigs, pk)
        {
          var i :| 0 <= i < |sigs| - 1 && sigs[..|sigs| - 1][i].publicKey == pk;
          assert sigs[i].publicKey == pk;
        }
      }
      m[last.publicKey := last.payload]
  }

  /** The check applied to one transfer source: look the key up, decode the key
      and the payload, and verify the payload against the commitment bytes. */
  function SourceStatus(cs: Scheme, commitBytes: Bytes, signMap: map<Bytes, Bytes>,
                        source: Bytes): (r: Outcome<Error>)
    ensures r == Fail(MissingKey) <==> source !in signMap
    ensures r == Fail(PublicKeyDecode) <==> source in signMap && !cs.publicKeyFits(source)
    ensures r == Fail(SignatureDecode) <==>
      source in signMap && cs.publicKeyFits(source) && !cs.signatureFits(signMap[source])
    ensures r == Fail(BadSignature) <==>
      source in signMap && cs.publicKeyFits(source) && cs.signatureFits(signMap[source])
      && !cs.verify(PublicKey(source), commitBytes, Signature(signMap[source]))
    ensures r.Pass? <==>
      source in signMap && cs.publicKeyFits(source) && cs.signatureFits(signMap[source])
      && cs.verify(PublicKey(source), commitBytes, Signature(signMap[source]))
  {
    if source !in signMap then Fail(MissingKey)
    else
      match PublicKeyFromSlice(cs, source)
      case None => Fail(PublicKeyDecode)
      case Some(pk) =>
        match SignatureFromSlice(cs, signMap[source])
        case None => Fail(SignatureDecode)
        case Some(sig) =>
          if cs.verify(pk, commitBytes, sig) then Pass else Fail(BadSignature)
  }

  /** `i` is the first transfer among `ts` whose source does not check. */
  predicate FirstFailingSource(cs: Scheme, commitBytes: Bytes, signMap: map<Bytes, Bytes>,
                               ts: seq<Transfer>, i: int)
  {
    && 0 <= i < |ts|
    && SourceStatus(cs, commitBytes, signMap, ts[i].sourcePk).Fail?
    && forall j :: 0 <= j < i ==> SourceStatus(cs, commitBytes, signMap, ts[j].sourcePk).Pass?
  }

  /** The loop over the first `n` transfers, returning on the first failure. */
  function CheckSources(cs: Scheme, commitBytes: Bytes, signMap: map<Bytes, Bytes>,
                        ts: seq<Transfer>, n: nat): (r: Outcome<Error>)
    requires n <= |ts|
    ensures r.Pass? <==>
      forall i :: 0 <= i < n ==> SourceStatus(cs, commitBytes, signMap, ts[i].sourcePk).Pass?
    ensures r.Fail? ==> exists i :: (i < n && FirstFailingSource(cs, commitBytes, signMap, ts, i)
      && r == SourceStatus(cs, commitBytes, signMap, ts[i].sourcePk))
  {
    if n == 0 then Pass
    else
      var prev := CheckSources(cs, commitBytes, signMap, ts, n - 1);
      if prev.Fail? then prev
      else SourceStatus(cs, commitBytes, signMap, ts[n - 1].sourcePk)
  }

  /** `TransactionExt::verify_signatures`: every transfer's source key must have
      a detached signature whose (last-inserted) payload verifies against the
      serialized commitment. Signatures for other keys, and `bounty_pk`, are
      not consulted. */
  function VerifySignatures(cs: Scheme, ser: Serializer, tx: Transaction): (r: Outcome<Error>)
    ensures |tx.commit.transfers| == 0 ==> r.Pass?
    ensures r.Pass? <==> forall i :: 0 <= i < |tx.commit.transfers| ==>
      SourceStatus(cs, ser(tx.commit), SignMap(tx.signatures), tx.commit.transfers[i].sourcePk).Pass?
    ensures r.Fail? ==> exists i ::
      FirstFailingSource(cs, ser(tx.commit), SignMap(tx.signatures), tx.commit.transfers, i)
      && r == SourceStatus(cs, ser(tx.commit), SignMap(tx.signatures), tx.commit.transfers[i].sourcePk)
  {
    var commitBytes := ser(tx.commit);
    var signMap := SignMap(tx.signatures);
    CheckSources(cs, commitBytes, signMap, tx.commit.transfers, |tx.commit.transfers|)
  }

  // ---------------------------------------------------------------------------
  // TransactionBuilder
  // ---------------------------------------------------------------------------

  datatype TransactionBuilder = TransactionBuilder(
    transferSecretKeys: seq<SecretKey>,
    bountySecretKey: Option<SecretKey>,
    commit: Commitment)

  /** The builder keeps one secret key per transfer, so the `zip` in `build` covers them all. */
  predicate KeysMatchTransfers(b: TransactionBuilder) {
    |b.transferSecretKeys| == |b.commit.transfers|
  }

  /** `TransactionBuilder::new`. */
  function NewBuilder(): (b: TransactionBuilder)
    ensures KeysMatchTransfers(b)
    ensures b.commit.transfers == [] && b.bountySecretKey.None?
    ensures b.commit.bountyPk == [] && b.commit.bounty == 0
  {
    TransactionBuilder([], None, EmptyCommitment)
  }

  /** `TransactionBuilder::add_transfer`: the caller chooses `opIndex`. */
  function AddTransfer(b: TransactionBuilder, sk: SecretKey, source: PublicKey,
                       destination: PublicKey, tokens: u64, opIndex: u32): (r: TransactionBuilder)
    ensures |r.commit.transfers| == |b.commit.transfers| + 1
    ensures r.commit.transfers[..|b.commit.transfers|] == b.commit.transfers
    ensures r.commit.transfers[|b.commit.transfers|]
      == Transfer(opIndex, tokens, source.bytes, destination.bytes)
    ensures |r.transferSecretKeys| == |b.transferSecretKeys| + 1
    ensures r.transferSecretKeys[..|b.transferSecretKeys|] == b.transferSecretKeys
    ensures r.transferSecretKeys[|b.transferSecretKeys|] == sk
    ensures r.bountySecretKey == b.bountySecretKey
    ensures r.commit.bountyPk == b.commit.bountyPk && r.commit.bounty == b.commit.bounty
    ensures KeysMatchTransfers(r) <==> KeysMatchTransfers(b)
  {
    var transfer := Transfer(opIndex, tokens, source.bytes, destination.bytes);
    b.(transferSecretKeys := b.transferSecretKeys + [sk],
       commit := b.commit.(transfers := b.commit.transfers + [transfer]))
  }

  /** `TransactionBuilder::set_bounty`: the bounty key is stored (and never used
      to sign); the source bytes are appended to `bounty_pk`, not substituted. */
  function SetBounty(b: TransactionBuilder, sk: SecretKey, source: PublicKey,
                     bounty: u64): (r: TransactionBuilder)
    ensures r.bountySecretKey == Some(sk)
    ensures r.commit.bounty == bounty
    ensures |r.commit.bountyPk| == |b.commit.bountyPk| + |source.bytes|
    ensures r.commit.bountyPk[..|b.commit.bountyPk|] == b.commit.bountyPk
    ensures r.commit.bountyPk[|b.commit.bountyPk|..] == source.bytes
    ensures r.commit.transfers == b.commit.transfers
    ensures r.transferSecretKeys == b.transferSecretKeys
    ensures KeysMatchTransfers(r) <==> KeysMatchTransfers(b)
  {
    b.(bountySecretKey := Some(sk),
       commit := b.commit.(bountyPk := b.commit.bountyPk + source.bytes, bounty := bounty))
  }

  /** A call on the builder's public API. */
  datatype BuilderCall =
    | AddTransferCall(sk: SecretKey, source: PublicKey, destination: PublicKey, tokens: u64, opIndex: u32)
    | SetBountyCall(sk: SecretKey, source: PublicKey, bounty: u64)

  /** The builder left by `TransactionBuilder::new()` followed by `calls`, in order. */
  function Replay(calls: seq<BuilderCall>): TransactionBuilder {
    if |calls| == 0 then NewBuilder()
    else
      var b := Replay(calls[..|calls| - 1]);
      match calls[|calls| - 1]
      case AddTransferCall(sk, source, destination, tokens, opIndex) =>
        AddTransfer(b, sk, source, destination, tokens, opIndex)
      case SetBountyCall(sk, source, bounty) => SetBounty(b, sk, source, bounty)
  }

  /** The self-check `build` applies to one (transfer, secret key) pair: the
      source key must decode and must verify a fresh signature by `sk`. */
  function PairStatus(cs: Scheme, commitBytes: Bytes, t: Transfer, sk: SecretKey): (r: Outcome<Error>)
    ensures r == Fail(PublicKeyDecode) <==> !cs.publicKeyFits(t.sourcePk)
    ensures r == Fail(InvalidKeyForSource) <==>
      cs.publicKeyFits(t.sourcePk) && !cs.verify(PublicKey(t.sourcePk), commitBytes, cs.sign(sk, commitBytes))
    ensures r.Pass? <==>
      cs.publicKeyFits(t.sourcePk) && cs.verify(PublicKey(t.sourcePk), commitBytes, cs.sign(sk, commitBytes))
  {
    match PublicKeyFromSlice(cs, t.sourcePk)
    case None => Fail(PublicKeyDecode)
    case Some(pk) =>
      if cs.verify(pk, commitBytes, cs.sign(sk, commitBytes)) then Pass
      else Fail(InvalidKeyForSource)
  }

  /** The signing loop of `build` over the first `n` zipped pairs: one detached
      signature per transfer, in transfer order, stopping at the first pair whose
      self-check fails. */
  function SignTransfers(cs: Scheme, commitBytes: Bytes, ts: seq<Transfer>,
                         sks: seq<SecretKey>, n: nat): (r: Result<seq<DetachedSignature>, Error>)
    requires n <= |ts| && n <= |sks|
    ensures r.Success? <==> forall i :: 0 <= i < n ==> PairStatus(cs, commitBytes, ts[i], sks[i]).Pass?
    ensures r.Success? ==> |r.value| == n
    ensures r.Success? ==> forall i :: 0 <= i < n ==>
      r.value[i] == DetachedSignature(ts[i].sourcePk, cs.sign(sks[i], commitBytes).bytes)
    ensures r.Failure? ==> exists i :: (0 <= i < n
      && (forall j :: 0 <= j < i ==> PairStatus(cs, commitBytes, ts[j], sks[j]).Pass?)
      && PairStatus(cs, commitBytes, ts[i], sks[i]) == Fail(r.error))
  {
    if n == 0 then Success([])
    else
      var prev :- SignTransfers(cs, commitBytes, ts, sks, n - 1);
      var signature := cs.sign(sks[n - 1], commitBytes);
      match PublicKeyFromSlice(cs, ts[n - 1].sourcePk)
      case None => Failure(PublicKeyDecode)
      case Some(pk) =>
        if cs.verify(pk, commitBytes, signature) then
          Success(prev + [DetachedSignature(pk.bytes, signature.bytes)])
        else Failure(InvalidKeyForSource)
  }

  /** `TransactionBuilder::build`: serialize the commitment, sign and self-check
      every zipped (transfer, key) pair, then re-run `verify_signatures` on the
      result, which serializes the commitment again. */
  function Build(cs: Scheme, ser: Serializer, b: TransactionBuilder): (r: Result<Transaction, Error>)
    ensures r.Success? ==> r.value.commit == b.commit
    ensures r.Success? ==> VerifySignatures(cs, ser, r.value).Pass?
    ensures r.Success? ==>
      |r.value.signatures| == Min(|b.commit.transfers|, |b.transferSecretKeys|)
    ensures r.Success? ==> forall i :: 0 <= i < |r.value.signatures| ==>
      r.value.signatures[i] == DetachedSignature(b.commit.transfers[i].sourcePk,
                                                 cs.sign(b.transferSecretKeys[i], ser(b.commit)).bytes)
  {
    var commitBytes := ser(b.commit);
    var n := Min(|b.commit.transfers|, |b.transferSecretKeys|);
    var signatures :- SignTransfers(cs, commitBytes, b.commit.transfers, b.transferSecretKeys, n);
    var tx := Transaction(b.commit, signatures);
    var verdict := VerifySignatures(cs, ser, tx);
    if verdict.Fail? then Failure(verdict.error) else Success(tx)
  }
}
