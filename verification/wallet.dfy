/** The key list of a wallet (`impl WalletExt for Wallet` in `src/wallet.rs`):
    appending keypairs, choosing a fresh `addr<N>` name, and prefix search. */
module Wallets {
  import opened Types
  import opened Crypto
  import Decimal

  /** `WalletKeypair`; a keypair added without a secret key carries the
      protobuf default, the empty byte string. */
  datatype WalletKeypair = WalletKeypair(name: string, publicKey: Bytes, secretKey: Bytes)

  datatype Wallet = Wallet(keypairs: seq<WalletKeypair>)

  /** `add_key`. */
  function AddKey(w: Wallet, name: string, pk: PublicKey, sk: SecretKey): (r: Wallet)
    ensures |r.keypairs| == |w.keypairs| + 1
    ensures r.keypairs[..|w.keypairs|] == w.keypairs
    ensures r.keypairs[|w.keypairs|] == WalletKeypair(name, pk.bytes, sk.bytes)
  {
    Wallet(w.keypairs + [WalletKeypair(name, pk.bytes, sk.bytes)])
  }

  /** `add_public_key`: the secret key is left unset. */
  function AddPublicKey(w: Wallet, name: string, pk: PublicKey): (r: Wallet)
    ensures |r.keypairs| == |w.keypairs| + 1
    ensures r.keypairs[..|w.keypairs|] == w.keypairs
    ensures r.keypairs[|w.keypairs|] == WalletKeypair(name, pk.bytes, [])
  {
    Wallet(w.keypairs + [WalletKeypair(name, pk.bytes, [])])
  }

  /** `generate_new_key`, with the output of the key generator passed in as
      `pk` and `sk`: appends the new keypair and returns a copy of it. */
  function GenerateNewKey(w: Wallet, name: string, pk: PublicKey, sk: SecretKey): (r: (Wallet, WalletKeypair))
    ensures r.0.keypairs == w.keypairs + [r.1]
    ensures r.1.name == name && r.1.publicKey == pk.bytes && r.1.secretKey == sk.bytes
  {
    var key := WalletKeypair(name, pk.bytes, sk.bytes);
    (Wallet(w.keypairs + [key]), key)
  }

  /** `add_public_key` is `add_key` with the empty secret key. */
  lemma AddPublicKeyIsAddKeyWithoutSecret(w: Wallet, name: string, pk: PublicKey)
    ensures AddPublicKey(w, name, pk) == AddKey(w, name, pk, SecretKey([]))
  {
    var a := AddPublicKey(w, name, pk);
    var b := AddKey(w, name, pk, SecretKey([]));
    assert a.keypairs == b.keypairs by {
      assert a.keypairs == a.keypairs[..|w.keypairs|] + [a.keypairs[|w.keypairs|]];
      assert b.keypairs == b.keypairs[..|w.keypairs|] + [b.keypairs[|w.keypairs|]];
    }
  }

  /** `generate_new_key` leaves the wallet exactly as `add_key` with the generated keys would. */
  lemma GenerateNewKeyIsAddKey(w: Wallet, name: string, pk: PublicKey, sk: SecretKey)
    ensures GenerateNewKey(w, name, pk, sk).0 == AddKey(w, name, pk, sk)
  {
    var a := GenerateNewKey(w, name, pk, sk).0;
    var b := AddKey(w, name, pk, sk);
    assert b.keypairs == b.keypairs[..|w.keypairs|] + [b.keypairs[|w.keypairs|]];
    assert a.keypairs == b.keypairs;
  }

  // ---------------------------------------------------------------------------
  // generate_name
  // ---------------------------------------------------------------------------

  /** The `already_exists` closure: some keypair carries `name`. */
  predicate NameExists(w: Wallet, name: string) {
    exists k :: 0 <= k < |w.keypairs| && w.keypairs[k].name == name
  }

  /** The `make_name` closure. */
  function AddrName(i: nat): string {
    "addr" + Decimal.NatToString(i)
  }

  lemma AddrNameInjective(i: nat, j: nat)
    requires AddrName(i) == AddrName(j)
    ensures i == j
  {
    assert AddrName(i)[4..] == Decimal.NatToString(i);
    assert AddrName(j)[4..] == Decimal.NatToString(j);
    Decimal.NatToStringInjective(i, j);
  }

  /** The names used in a keypair list. */
  ghost function Names(kps: seq<WalletKeypair>): (names: set<string>)
    ensures forall x :: x in names <==> exists k :: 0 <= k < |kps| && kps[k].name == x
    ensures |names| <= |kps|
  {
    if |kps| == 0 then {}
    else
      var front := kps[..|kps| - 1];
      assert forall k :: 0 <= k < |front| ==> front[k] == kps[k];
      Names(front) + {kps[|kps| - 1].name}
  }

  /** `addr1`, ..., `addr<m>`. */
  ghost function AddrNames(m: nat): (names: set<string>)
    ensures forall x :: x in names <==> exists j :: 1 <= j <= m && x == AddrName(j)
  {
    if m == 0 then {} else AddrNames(m - 1) + {AddrName(m)}
  }

  lemma {:induction false} AddrNamesCount(m: nat)
    ensures |AddrNames(m)| == m
  {
    if m > 0 {
      AddrNamesCount(m - 1);
      if AddrName(m) in AddrNames(m - 1) {
        var j :| 1 <= j <= m - 1 && AddrName(m) == AddrName(j);
        AddrNameInjective(m, j);
      }
    }
  }

  /** Pigeonhole: if `addr1` .. `addr<m>` are all taken, the wallet holds at
      least `m` keypairs. */
  lemma AddrPrefixFits(w: Wallet, m: nat)
    requires forall j :: 1 <= j <= m ==> NameExists(w, AddrName(j))
    ensures m <= |w.keypairs|
  {
    AddrNamesCount(m);
    var names := Names(w.keypairs);
    var taken := AddrNames(m);
    forall x | x in taken ensures x in names {
      var j :| 1 <= j <= m && x == AddrName(j);
      assert NameExists(w, AddrName(j));
    }
    assert names == taken + (names - taken);
  }

  /** The `count(1, 1).take_while(already_exists)` scan, started at `i`:
      the first index at or after `i` whose name is free. */
  function FirstFreeFrom(w: Wallet, i: nat): (n: nat)
    requires 1 <= i
    requires forall j :: 1 <= j < i ==> NameExists(w, AddrName(j))
    ensures i <= n
    ensures !NameExists(w, AddrName(n))
    ensures forall j :: 1 <= j < n ==> NameExists(w, AddrName(j))
    decreases |w.keypairs| + 1 - i
  {
    if NameExists(w, AddrName(i)) then
      AddrPrefixFits(w, i);
      FirstFreeFrom(w, i + 1)
    else i
  }

  /** `generate_name`: `addr<n>` for the least `n >= 1` whose name is free;
      every `addr<j>` below it is taken. */
  function GenerateName(w: Wallet): (r: string)
    ensures !NameExists(w, r)
    ensures exists n: nat :: (1 <= n && r == AddrName(n)
      && forall j :: 1 <= j < n ==> NameExists(w, AddrName(j)))
  {
    var n := FirstFreeFrom(w, 1);
    AddrName(n)
  }

  /** Appending any keypair under the generated name (by `add_key`,
      `add_public_key` or `generate_new_key`) consumes that name: it now exists,
      and the next generated name differs. */
  lemma GeneratedNameIsConsumed(w: Wallet, w': Wallet)
    requires |w'.keypairs| == |w.keypairs| + 1
    requires w'.keypairs[..|w.keypairs|] == w.keypairs
    requires w'.keypairs[|w.keypairs|].name == GenerateName(w)
    ensures NameExists(w', GenerateName(w))
    ensures GenerateName(w') != GenerateName(w)
  {
    assert w'.keypairs[|w.keypairs|].name == GenerateName(w);
  }

  // ---------------------------------------------------------------------------
  // search_keys
  // ---------------------------------------------------------------------------

  /** `str::starts_with`. */
  predicate StartsWith(s: string, prefix: string) {
    |prefix| <= |s| && s[..|prefix|] == prefix
  }

  /** The filter closure of `search_keys`: the name or the Base64 form of the
      public key starts with the search string. */
  predicate Matches(kp: WalletKeypair, base64: Bytes -> string, search: string) {
    StartsWith(kp.name, search) || StartsWith(base64(kp.publicKey), search)
  }

  /** The matching keypairs of `kps`, in their original order. */
  function SelectMatching(kps: seq<WalletKeypair>, base64: Bytes -> string, search: string)
    : (r: seq<WalletKeypair>)
    ensures forall k :: multiset(r)[k] == if Matches(k, base64, search) then multiset(kps)[k] else 0
  {
    if |kps| == 0 then []
    else
      var front := kps[..|kps| - 1];
      var last := kps[|kps| - 1];
      assert kps == front + [last];
      SelectMatching(front, base64, search) + (if Matches(last, base64, search) then [last] else [])
  }

  /** `search_keys`, with the Base64 encoder passed in. */
  function SearchKeys(w: Wallet, base64: Bytes -> string, search: string): (r: seq<WalletKeypair>)
    ensures forall k :: k in r <==> k in w.keypairs && Matches(k, base64, search)
    ensures forall k :: multiset(r)[k] == if Matches(k, base64, search) then multiset(w.keypairs)[k] else 0
  {
    SelectMatching(w.keypairs, base64, search)
  }

  /** The filter keeps order: selecting from a concatenation concatenates the selections. */
  lemma {:induction false} SelectMatchingAppend(a: seq<WalletKeypair>, b: seq<WalletKeypair>,
                                                base64: Bytes -> string, search: string)
    ensures SelectMatching(a + b, base64, search)
         == SelectMatching(a, base64, search) + SelectMatching(b, base64, search)
    decreases |b|
  {
    if |b| == 0 {
      assert a + b == a;
    } else {
      var front := b[..|b| - 1];
      assert (a + b)[..|a + b| - 1] == a + front;
      SelectMatchingAppend(a, front, base64, search);
    }
  }

  /** Searching after any append (`add_key`, `add_public_key` or
      `generate_new_key`) finds what it found before, then the new keypair if it matches. */
  lemma SearchAfterAppend(w: Wallet, w': Wallet, base64: Bytes -> string, search: string)
    requires |w'.keypairs| == |w.keypairs| + 1
    requires w'.keypairs[..|w.keypairs|] == w.keypairs
    ensures SearchKeys(w', base64, search)
         == SearchKeys(w, base64, search)
          + (var k := w'.keypairs[|w.keypairs|]; if Matches(k, base64, search) then [k] else [])
  {
    var k := w'.keypairs[|w.keypairs|];
    assert w'.keypairs == w.keypairs + [k];
    SelectMatchingAppend(w.keypairs, [k], base64, search);
    assert [k][..0] == [];
  }

  /** Every string starts with the empty string, so the empty search returns every keypair. */
  lemma {:induction false} SearchEmptyReturnsAll(w: Wallet, base64: Bytes -> string)
    ensures SearchKeys(w, base64, "") == w.keypairs
  {
    SelectAllOnEmptySearch(w.keypairs, base64);
  }

  /** Every string starts with the empty string. */
  lemma EveryKeypairMatchesEmpty(kp: WalletKeypair, base64: Bytes -> string)
    ensures Matches(kp, base64, "")
  {
    assert kp.name[..0] == "";
  }

  lemma {:induction false} SelectAllOnEmptySearch(kps: seq<WalletKeypair>, base64: Bytes -> string)
    ensures SelectMatching(kps, base64, "") == kps
    decreases |kps|
  {
    if |kps| > 0 {
      var front := kps[..|kps| - 1];
      var last := kps[|kps| - 1];
      SelectAllOnEmptySearch(front, base64);
      EveryKeypairMatchesEmpty(last, base64);
      assert kps == front + [last];
      calc {
        SelectMatching(kps, base64, "");
        SelectMatching(front, base64, "") + [last];
        front + [last];
      }
    }
  }
}
