/** Properties relating the operations of `src/tx.rs`: what the signature map
    holds, when `verify_signatures` accepts, and why a successful signing loop
    in `build` always yields a transaction that verifies. */
module TxProperties {
  import opened Types
  import opened Wrappers
  import opened Crypto
  import opened Proto
  import opened Tx

  /** Entry `i` is the last detached signature for `pk`: the one the map keeps. */
  predicate IsLastSignatureFor(sigs: seq<DetachedSignature>, i: int, pk: Bytes) {
    && 0 <= i < |sigs|
    && sigs[i].publicKey == pk
    && forall j :: i < j < |sigs| ==> sigs[j].publicKey != pk
  }

  /** Reference meaning of "source `pk` is authorized", stated on the signature
      list itself: its last signature entry for `pk` exists, decodes, and
      verifies against the commitment bytes. */
  ghost predicate Authorized(cs: Scheme, commitBytes: Bytes, sigs: seq<DetachedSignature>, pk: Bytes) {
    exists i :: IsLastSignatureFor(sigs, i, pk)
      && cs.publicKeyFits(pk)
      && cs.signatureFits(sigs[i].payload)
      && cs.verify(PublicKey(pk), commitBytes, Signature(sigs[i].payload))
  }

  /** A repeated public key maps to the payload of its last entry. */
  lemma {:induction false} SignMapLastWins(sigs: seq<DetachedSignature>, i: int)
    requires 0 <= i < |sigs|
    requires IsLastSignatureFor(sigs, i, sigs[i].publicKey)
    ensures sigs[i].publicKey in SignMap(sigs)
    ensures SignMap(sigs)[sigs[i].publicKey] == sigs[i].payload
  {
    var pk := sigs[i].publicKey;
    if i < |sigs| - 1 {
      var front := sigs[..|sigs| - 1];
      assert front[i] == sigs[i];
      assert IsLastSignatureFor(front, i, pk) by {
        forall j | i < j < |front| ensures front[j].publicKey != pk {
          assert front[j] == sigs[j];
        }
      }
      SignMapLastWins(front, i);
      assert sigs[|sigs| - 1].publicKey != pk;
    }
  }

  /** Every key that occurs in the list has a last occurrence. */
  lemma {:induction false} LastSignatureExists(sigs: seq<DetachedSignature>, pk: Bytes)
    requires HasSignatureFor(sigs, pk)
    ensures exists i :: IsLastSignatureFor(sigs, i, pk)
  {
    if sigs[|sigs| - 1].publicKey == pk {
      assert IsLastSignatureFor(sigs, |sigs| - 1, pk);
    } else {
      var front := sigs[..|sigs| - 1];
      var k :| 0 <= k < |sigs| && sigs[k].publicKey == pk;
      assert front[k] == sigs[k];
      LastSignatureExists(front, pk);
      var i :| IsLastSignatureFor(front, i, pk);
      assert IsLastSignatureFor(sigs, i, pk) by {
        forall j | i < j < |sigs| ensures sigs[j].publicKey != pk {
          if j < |sigs| - 1 {
            assert front[j] == sigs[j];
          }
        }
      }
    }
  }

  /** A key has at most one last occurrence. */
  lemma LastSignatureUnique(sigs: seq<DetachedSignature>, i: int, k: int, pk: Bytes)
    requires IsLastSignatureFor(sigs, i, pk) && IsLastSignatureFor(sigs, k, pk)
    ensures i == k
  {
    assert !(i < k) by { assert sigs[k].publicKey == pk; }
    assert !(k < i) by { assert sigs[i].publicKey == pk; }
  }

  /** The per-source check over the hash map agrees with the reference meaning. */
  lemma SourceStatusMeansAuthorized(cs: Scheme, commitBytes: Bytes, sigs: seq<DetachedSignature>, pk: Bytes)
    ensures SourceStatus(cs, commitBytes, SignMap(sigs), pk).Pass? <==> Authorized(cs, commitBytes, sigs, pk)
  {
    var m := SignMap(sigs);
    if HasSignatureFor(sigs, pk) {
      LastSignatureExists(sigs, pk);
      var i :| IsLastSignatureFor(sigs, i, pk);
      SignMapLastWins(sigs, i);
      var payload := sigs[i].payload;
      assert m[pk] == payload;
      var ok := cs.publicKeyFits(pk) && cs.signatureFits(payload)
        && cs.verify(PublicKey(pk), commitBytes, Signature(payload));
      assert SourceStatus(cs, commitBytes, m, pk).Pass? <==> ok;
      forall k | IsLastSignatureFor(sigs, k, pk) ensures k == i {
        LastSignatureUnique(sigs, i, k, pk);
      }
    } else {
      assert pk !in m;
      assert forall k :: !IsLastSignatureFor(sigs, k, pk);
    }
  }

  /** `verify_signatures` is `Ok` exactly when every transfer source is authorized. */
  lemma VerifyPassesIffAllSourcesAuthorized(cs: Scheme, ser: Serializer, tx: Transaction)
    ensures VerifySignatures(cs, ser, tx).Pass? <==>
      forall i :: 0 <= i < |tx.commit.transfers| ==>
        Authorized(cs, ser(tx.commit), tx.signatures, tx.commit.transfers[i].sourcePk)
  {
    forall i | 0 <= i < |tx.commit.transfers| {
      SourceStatusMeansAuthorized(cs, ser(tx.commit), tx.signatures, tx.commit.transfers[i].sourcePk);
    }
  }

  /** Verification reports the failure of the first source that does not check. */
  lemma VerifyReportsFirstFailure(cs: Scheme, ser: Serializer, tx: Transaction, i: int)
    requires FirstFailingSource(cs, ser(tx.commit), SignMap(tx.signatures), tx.commit.transfers, i)
    ensures VerifySignatures(cs, ser, tx)
         == SourceStatus(cs, ser(tx.commit), SignMap(tx.signatures), tx.commit.transfers[i].sourcePk)
  {
    var ts := tx.commit.transfers;
    var commitBytes := ser(tx.commit);
    var m := SignMap(tx.signatures);
    var r := VerifySignatures(cs, ser, tx);
    assert r.Fail?;
    var k :| FirstFailingSource(cs, commitBytes, m, ts, k)
      && r == SourceStatus(cs, commitBytes, m, ts[k].sourcePk);
    assert SourceStatus(cs, commitBytes, m, ts[k].sourcePk).Fail?;
    assert SourceStatus(cs, commitBytes, m, ts[i].sourcePk).Fail?;
    assert k >= i;
    assert k <= i;
  }

  /** A transfer source with no detached signature makes verification fail, and
      with "Missing key." when every earlier source is authorized. */
  lemma VerifyMissingKey(cs: Scheme, ser: Serializer, tx: Transaction, i: int)
    requires 0 <= i < |tx.commit.transfers|
    requires !HasSignatureFor(tx.signatures, tx.commit.transfers[i].sourcePk)
    ensures VerifySignatures(cs, ser, tx).Fail?
    ensures (forall j :: 0 <= j < i ==>
               Authorized(cs, ser(tx.commit), tx.signatures, tx.commit.transfers[j].sourcePk))
            ==> VerifySignatures(cs, ser, tx) == Fail(MissingKey)
  {
    var ts := tx.commit.transfers;
    var commitBytes := ser(tx.commit);
    var m := SignMap(tx.signatures);
    assert SourceStatus(cs, commitBytes, m, ts[i].sourcePk) == Fail(MissingKey);
    if forall j :: 0 <= j < i ==> Authorized(cs, commitBytes, tx.signatures, ts[j].sourcePk) {
      forall j | 0 <= j < i ensures SourceStatus(cs, commitBytes, m, ts[j].sourcePk).Pass? {
        SourceStatusMeansAuthorized(cs, commitBytes, tx.signatures, ts[j].sourcePk);
      }
      VerifyReportsFirstFailure(cs, ser, tx, i);
    }
  }

  /** The per-source check reads the map only at that source. */
  lemma SourceStatusReadsOneEntry(cs: Scheme, commitBytes: Bytes,
                                  m1: map<Bytes, Bytes>, m2: map<Bytes, Bytes>, source: Bytes)
    requires source in m1 <==> source in m2
    requires source in m1 ==> m1[source] == m2[source]
    ensures SourceStatus(cs, commitBytes, m1, source) == SourceStatus(cs, commitBytes, m2, source)
  {
  }

  /** Two signature maps that agree on every transfer source give the same verdict. */
  lemma {:induction false} CheckSourcesOnlyReadsSources(cs: Scheme, commitBytes: Bytes,
                                                        m1: map<Bytes, Bytes>, m2: map<Bytes, Bytes>,
                                                        ts: seq<Transfer>, n: nat)
    requires n <= |ts|
    requires forall i :: 0 <= i < n ==>
      (ts[i].sourcePk in m1 <==> ts[i].sourcePk in m2)
      && (ts[i].sourcePk in m1 ==> m1[ts[i].sourcePk] == m2[ts[i].sourcePk])
    ensures CheckSources(cs, commitBytes, m1, ts, n) == CheckSources(cs, commitBytes, m2, ts, n)
  {
    if n > 0 {
      CheckSourcesOnlyReadsSources(cs, commitBytes, m1, m2, ts, n - 1);
      SourceStatusReadsOneEntry(cs, commitBytes, m1, m2, ts[n - 1].sourcePk);
    }
  }

  /** Appending entries for public keys unrelated to any transfer changes nothing
      in the map at a transfer source. */
  lemma {:induction false} SignMapAppendUnrelated(sigs: seq<DetachedSignature>, extra: seq<DetachedSignature>, pk: Bytes)
    requires forall e :: 0 <= e < |extra| ==> extra[e].publicKey != pk
    ensures pk in SignMap(sigs + extra) <==> pk in SignMap(sigs)
    ensures pk in SignMap(sigs) ==> SignMap(sigs + extra)[pk] == SignMap(sigs)[pk]
    decreases |extra|
  {
    if |extra| > 0 {
      var front := extra[..|extra| - 1];
      assert (sigs + extra)[..|sigs + extra| - 1] == sigs + front;
      SignMapAppendUnrelated(sigs, front, pk);
    } else {
      assert sigs + extra == sigs;
    }
  }

  /** Signatures for keys that are no transfer's source are ignored by verification. */
  lemma VerifyIgnoresUnrelatedSignatures(cs: Scheme, ser: Serializer, tx: Transaction,
                                         extra: seq<DetachedSignature>)
    requires forall e, i :: 0 <= e < |extra| && 0 <= i < |tx.commit.transfers| ==>
      extra[e].publicKey != tx.commit.transfers[i].sourcePk
    ensures VerifySignatures(cs, ser, tx.(signatures := tx.signatures + extra))
         == VerifySignatures(cs, ser, tx)
  {
    var ts := tx.commit.transfers;
    forall i | 0 <= i < |ts| {
      SignMapAppendUnrelated(tx.signatures, extra, ts[i].sourcePk);
    }
    CheckSourcesOnlyReadsSources(cs, ser(tx.commit), SignMap(tx.signatures + extra),
                                 SignMap(tx.signatures), ts, |ts|);
  }

  /** The bounty payer is never a mandatory signer: when `bounty_pk` is no
      transfer's source, a signature for it neither helps nor hurts. */
  lemma BountySignatureIsIgnored(cs: Scheme, ser: Serializer, tx: Transaction, payload: Bytes)
    requires forall i :: 0 <= i < |tx.commit.transfers| ==>
      tx.commit.transfers[i].sourcePk != tx.commit.bountyPk
    ensures VerifySignatures(cs, ser,
              tx.(signatures := tx.signatures + [DetachedSignature(tx.commit.bountyPk, payload)]))
         == VerifySignatures(cs, ser, tx)
  {
    VerifyIgnoresUnrelatedSignatures(cs, ser, tx, [DetachedSignature(tx.commit.bountyPk, payload)]);
  }

  /** The heart of build-then-verify: the signature list produced by a
      successful signing loop over all transfers authorizes every source, even
      when sources repeat (the map keeps the last, equally valid, signature). */
  lemma SignedTransactionVerifies(cs: Scheme, ser: Serializer, commit: Commitment,
                                  sks: seq<SecretKey>)
    requires SignaturesDecode(cs)
    requires |sks| == |commit.transfers|
    requires SignTransfers(cs, ser(commit), commit.transfers, sks, |sks|).Success?
    ensures VerifySignatures(cs, ser,
      Transaction(commit, SignTransfers(cs, ser(commit), commit.transfers, sks, |sks|).value)).Pass?
  {
    var ts := commit.transfers;
    var commitBytes := ser(commit);
    var sigs := SignTransfers(cs, commitBytes, ts, sks, |sks|).value;
    var m := SignMap(sigs);
    forall j | 0 <= j < |ts| ensures SourceStatus(cs, commitBytes, m, ts[j].sourcePk).Pass? {
      var pk := ts[j].sourcePk;
      assert sigs[j].publicKey == pk;
      LastSignatureExists(sigs, pk);
      var i :| IsLastSignatureFor(sigs, i, pk);
      SignMapLastWins(sigs, i);
      var signature := cs.sign(sks[i], commitBytes);
      assert sigs[i] == DetachedSignature(ts[i].sourcePk, signature.bytes);
      assert PairStatus(cs, commitBytes, ts[i], sks[i]).Pass?;
      assert Signature(signature.bytes) == signature;
    }
  }

  /** Every builder reachable through the public API holds exactly one secret
      key per transfer, so the `zip` in `build` pairs every transfer with its key. */
  lemma {:induction false} ApiBuildersPairEveryTransfer(calls: seq<BuilderCall>)
    ensures KeysMatchTransfers(Replay(calls))
  {
    if |calls| > 0 {
      ApiBuildersPairEveryTransfer(calls[..|calls| - 1]);
    }
  }

  /** Main theorem: with a builder reached through its API (one key per
      transfer) and a scheme whose signatures decode, `build` succeeds exactly
      when every transfer's source key decodes and verifies its own fresh
      signature; the closing `verify_signatures` never rejects. */
  lemma BuildSucceedsIffEveryPairSigns(cs: Scheme, ser: Serializer, b: TransactionBuilder)
    requires SignaturesDecode(cs)
    requires KeysMatchTransfers(b)
    ensures Build(cs, ser, b).Success? <==> forall i :: 0 <= i < |b.commit.transfers| ==>
      PairStatus(cs, ser(b.commit), b.commit.transfers[i], b.transferSecretKeys[i]).Pass?
  {
    var n := |b.commit.transfers|;
    if SignTransfers(cs, ser(b.commit), b.commit.transfers, b.transferSecretKeys, n).Success? {
      SignedTransactionVerifies(cs, ser, b.commit, b.transferSecretKeys);
    }
  }

  /** The first (transfer, key) pair whose key does not match its declared
      source aborts `build` with "Invalid key for source account."; no
      transaction is returned. */
  lemma BuildRejectsMismatchedKey(cs: Scheme, ser: Serializer, b: TransactionBuilder, i: int)
    requires 0 <= i < |b.commit.transfers| && i < |b.transferSecretKeys|
    requires forall j :: 0 <= j < i ==>
      PairStatus(cs, ser(b.commit), b.commit.transfers[j], b.transferSecretKeys[j]).Pass?
    requires cs.publicKeyFits(b.commit.transfers[i].sourcePk)
    requires !cs.verify(PublicKey(b.commit.transfers[i].sourcePk), ser(b.commit),
                        cs.sign(b.transferSecretKeys[i], ser(b.commit)))
    ensures Build(cs, ser, b) == Failure(InvalidKeyForSource)
  {
    var commitBytes := ser(b.commit);
    var ts := b.commit.transfers;
    var sks := b.transferSecretKeys;
    var n := Min(|ts|, |sks|);
    var r := SignTransfers(cs, commitBytes, ts, sks, n);
    assert PairStatus(cs, commitBytes, ts[i], sks[i]) == Fail(InvalidKeyForSource);
    assert r.Failure?;
    var k :| 0 <= k < n
      && (forall j :: 0 <= j < k ==> PairStatus(cs, commitBytes, ts[j], sks[j]).Pass?)
      && PairStatus(cs, commitBytes, ts[k], sks[k]) == Fail(r.error);
    assert !(k < i) by { assert PairStatus(cs, commitBytes, ts[k], sks[k]).Fail?; }
    assert !(i < k) by { assert PairStatus(cs, commitBytes, ts[i], sks[i]).Fail?; }
  }

  /** A scheme in which a signature is the secret key's bytes and verifies
      under the public key with the same bytes; it makes the scenario below concrete. */
  function EchoScheme(): Scheme {
    Scheme((sk: SecretKey, m: Bytes) => Signature(sk.bytes),
           (pk: PublicKey, m: Bytes, s: Signature) => pk.bytes == s.bytes,
           (b: Bytes) => true,
           (b: Bytes) => true)
  }

  /** Two transfers from the same account, built with that account's key for
      each: `build` succeeds and emits two detached signatures, one per
      transfer, with no deduplication by source key. */
  lemma RepeatedSourceIsSignedPerTransfer(ser: Serializer)
    ensures var a := PublicKey([1]);
            var b := AddTransfer(AddTransfer(NewBuilder(), SecretKey([1]), a, PublicKey([2]), 5, 0),
                                 SecretKey([1]), a, PublicKey([3]), 7, 1);
            && Build(EchoScheme(), ser, b).Success?
            && |Build(EchoScheme(), ser, b).value.signatures| == 2
            && Build(EchoScheme(), ser, b).value.signatures[0].publicKey == a.bytes
            && Build(EchoScheme(), ser, b).value.signatures[1].publicKey == a.bytes
  {
    var cs := EchoScheme();
    var a := PublicKey([1]);
    var b := AddTransfer(AddTransfer(NewBuilder(), SecretKey([1]), a, PublicKey([2]), 5, 0),
                         SecretKey([1]), a, PublicKey([3]), 7, 1);
    assert SignaturesDecode(cs);
    forall i | 0 <= i < |b.commit.transfers|
      ensures PairStatus(cs, ser(b.commit), b.commit.transfers[i], b.transferSecretKeys[i]).Pass?
    {
      assert b.commit.transfers[i].sourcePk == [1] && b.transferSecretKeys[i] == SecretKey([1]);
    }
    BuildSucceedsIffEveryPairSigns(cs, ser, b);
  }

  /** Without `SignaturesDecode` the closing `verify_signatures` matters: here
      every self-check passes, yet the payload `build` just produced fails
      `Signature::from_slice`, so `build` returns that error. */
  lemma ClosingCheckCanFailBuild(ser: Serializer)
    ensures var cs := EchoScheme().(signatureFits := (b: Bytes) => false);
            var b := AddTransfer(NewBuilder(), SecretKey([1]), PublicKey([1]), PublicKey([2]), 5, 0);
            && PairStatus(cs, ser(b.commit), b.commit.transfers[0], b.transferSecretKeys[0]).Pass?
            && Build(cs, ser, b) == Failure(SignatureDecode)
  {
    var cs := EchoScheme().(signatureFits := (b: Bytes) => false);
    var b := AddTransfer(NewBuilder(), SecretKey([1]), PublicKey([1]), PublicKey([2]), 5, 0);
    var sigs := SignTransfers(cs, ser(b.commit), b.commit.transfers, b.transferSecretKeys, 1);
    assert sigs.Success?;
    var tx := Transaction(b.commit, sigs.value);
    assert SourceStatus(cs, ser(tx.commit), SignMap(tx.signatures), b.commit.transfers[0].sourcePk)
        == Fail(SignatureDecode);
    VerifyReportsFirstFailure(cs, ser, tx, 0);
  }
}
