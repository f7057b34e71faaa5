/**
 * `InMemoryKeyStore`: a dictionary from `<accountId>:<networkId>` to the
 * string form of a key pair, with the enumerations `getNetworks` and
 * `getAccounts` that take the storage keys apart again at `:`.
 *
 * Alongside the dictionary the store keeps, as ghost state, the set of
 * (network, account) pairs written and not removed since; `Valid` ties the
 * dictionary's keys to the storage keys of those pairs.
 */
module InMemoryKeyStores {
  import opened Wrappers
  import opened Strings
  import opened KeyPairs

  /** The dictionary key of an entry: the account, a colon, the network. */
  function StorageKey(networkId: string, accountId: string): (k: string)
    ensures ':' in k
  {
    var k := accountId + ":" + networkId;
    assert k[|accountId|] == ':';
    k
  }

  /** `key.split(':')[1]`, what `getNetworks` takes as the network of a key. */
  function NetworkPart(key: string): string
    requires ':' in key
  {
    CountPresent(key, ':');
    SplitShape(key, ':');
    Split(key, ':')[1]
  }

  /** The last `:`-segment of a key, which `getAccounts` compares with the network asked for. */
  function LastPart(key: string): string
  {
    var parts := Split(key, ':');
    parts[|parts| - 1]
  }

  /** All `:`-segments of a key but the last, joined again with `:`. */
  function AccountPart(key: string): string
  {
    var parts := Split(key, ':');
    Join(parts[..|parts| - 1], ':')
  }

  /** The storage keys of a set of (network, account) entries. */
  function StorageKeys(entries: set<(string, string)>): set<string>
  {
    set e | e in entries :: StorageKey(e.0, e.1)
  }

  /** The networks `getNetworks` reports for a set of storage keys. */
  function Networks(keys: set<string>): set<string>
    requires forall k | k in keys :: ':' in k
  {
    set k | k in keys :: NetworkPart(k)
  }

  /** The accounts `getAccounts(networkId)` reports for a set of storage keys. */
  function Accounts(keys: set<string>, networkId: string): set<string>
  {
    set k | k in keys && LastPart(k) == networkId :: AccountPart(k)
  }

  predicate NoDuplicates(s: seq<string>)
  {
    forall i, j | 0 <= i < j < |s| :: s[i] != s[j]
  }

  /**
   * A key holding a colon is its account part, a colon and its last part:
   * `getAccounts` takes a key apart without losing anything.
   */
  lemma {:induction false} KeyRejoins(key: string)
    requires ':' in key
    ensures key == StorageKey(LastPart(key), AccountPart(key))
  {
    var parts := Split(key, ':');
    SplitPresent(key, ':');
    var account, network := AccountPart(key), LastPart(key);
    assert account == Join(parts[..|parts| - 1], ':');
    assert network == parts[|parts| - 1];
    JoinLast(parts, ':');
    JoinSplit(key, ':');
    StorageKeyIs(network, account);
  }

  /** Entries on colon-free networks never share a storage key. */
  lemma {:induction false} StorageKeyInjective(n1: string, a1: string, n2: string, a2: string)
    requires ':' !in n1 && ':' !in n2
    requires StorageKey(n1, a1) == StorageKey(n2, a2)
    ensures n1 == n2 && a1 == a2
  {
    StorageKeyParts(n1, a1);
    StorageKeyParts(n2, a2);
  }

  /** A storage key spelled out. */
  lemma {:induction false} StorageKeyIs(networkId: string, accountId: string)
    ensures StorageKey(networkId, accountId) == accountId + [':'] + networkId
  {
  }

  /** Two keys with the same account part and last part are the same key. */
  lemma {:induction false} KeyPartsInjective(k1: string, k2: string)
    requires ':' in k1 && ':' in k2
    requires LastPart(k1) == LastPart(k2) && AccountPart(k1) == AccountPart(k2)
    ensures k1 == k2
  {
    KeyRejoins(k1);
    KeyRejoins(k2);
  }

  /**
   * With a colon-free network, the last part of a storage key is the
   * network and its account part is the account, whatever the account holds.
   */
  lemma {:induction false} StorageKeyParts(networkId: string, accountId: string)
    requires ':' !in networkId
    ensures LastPart(StorageKey(networkId, accountId)) == networkId
    ensures AccountPart(StorageKey(networkId, accountId)) == accountId
  {
    var parts := Split(StorageKey(networkId, accountId), ':');
    assert StorageKey(networkId, accountId) == accountId + [':'] + networkId;
    SplitAppend(accountId, networkId, ':');
    assert parts[..|parts| - 1] == Split(accountId, ':');
    JoinSplit(accountId, ':');
  }

  /** With a colon-free account and network, segment [1] of a storage key is the network. */
  lemma {:induction false} StorageKeyNetwork(networkId: string, accountId: string)
    requires ':' !in networkId && ':' !in accountId
    ensures NetworkPart(StorageKey(networkId, accountId)) == networkId
  {
    assert StorageKey(networkId, accountId) == accountId + [':'] + networkId;
    SplitAppend(accountId, networkId, ':');
    FirstSegment(accountId, ':');
  }

  /**
   * `getNetworks` reports exactly the networks that have an entry, provided
   * no account or network holds a colon.
   */
  lemma {:induction false} NetworksOfEntries(entries: set<(string, string)>)
    requires forall e | e in entries :: ':' !in e.0 && ':' !in e.1
    ensures Networks(StorageKeys(entries)) == set e | e in entries :: e.0
  {
    var keys := StorageKeys(entries);
    forall e | e in entries
      ensures NetworkPart(StorageKey(e.0, e.1)) == e.0
    {
      StorageKeyNetwork(e.0, e.1);
    }
    forall n | n in Networks(keys)
      ensures n in set e | e in entries :: e.0
    {
      var k :| k in keys && NetworkPart(k) == n;
      var e :| e in entries && k == StorageKey(e.0, e.1);
    }
    forall n | n in set e | e in entries :: e.0
      ensures n in Networks(keys)
    {
      var e :| e in entries && e.0 == n;
      assert StorageKey(e.0, e.1) in keys;
    }
  }

  /**
   * `getAccounts(networkId)` reports exactly the accounts with an entry under
   * `networkId`, provided no network holds a colon (accounts may).
   */
  lemma {:induction false} AccountsOfEntries(entries: set<(string, string)>, networkId: string)
    requires forall e | e in entries :: ':' !in e.0
    ensures Accounts(StorageKeys(entries), networkId) == set e | e in entries && e.0 == networkId :: e.1
  {
    var keys := StorageKeys(entries);
    forall e | e in entries
      ensures LastPart(StorageKey(e.0, e.1)) == e.0 && AccountPart(StorageKey(e.0, e.1)) == e.1
    {
      StorageKeyParts(e.0, e.1);
    }
    forall a | a in Accounts(keys, networkId)
      ensures a in set e | e in entries && e.0 == networkId :: e.1
    {
      var k :| k in keys && LastPart(k) == networkId && AccountPart(k) == a;
      var e :| e in entries && k == StorageKey(e.0, e.1);
    }
    forall a | a in set e | e in entries && e.0 == networkId :: e.1
      ensures a in Accounts(keys, networkId)
    {
      var e :| e in entries && e.0 == networkId && e.1 == a;
      assert StorageKey(e.0, e.1) in keys;
    }
  }

  /**
   * A colon in an account breaks `getNetworks`: the only entry, for account
   * `a:x` on a network `n`, is reported under network `x` instead of `n`.
   */
  lemma {:induction false} NetworksWithColonAccount(networkId: string, a: string, x: string)
    requires ':' !in networkId && ':' !in a && ':' !in x
    ensures Networks(StorageKeys({(networkId, a + ":" + x)})) == {x}
  {
    var k := StorageKey(networkId, a + ":" + x);
    ColonAccountSegments(networkId, a, x);
    assert StorageKeys({(networkId, a + ":" + x)}) == {k};
    NetworksAdd({}, k);
  }

  /** The storage key of account `a:x` on network `n` has the three segments `a`, `x`, `n`. */
  lemma {:induction false} ColonAccountSegments(networkId: string, a: string, x: string)
    requires ':' !in networkId && ':' !in a && ':' !in x
    ensures NetworkPart(StorageKey(networkId, a + ":" + x)) == x
  {
    var account := a + ":" + x;
    assert account == a + [':'] + x;
    var k := StorageKey(networkId, account);
    assert k == account + [':'] + networkId;
    SplitAppend(account, networkId, ':');
    SplitAppend(a, x, ':');
    FirstSegment(a, ':');
    assert Split(k, ':') == [a, x, networkId];
  }

  /** Dropping the entries stored under `k` drops `k` from the storage keys. */
  lemma {:induction false} StorageKeysRemove(entries: set<(string, string)>, kept: set<(string, string)>, k: string)
    requires kept == set e | e in entries && StorageKey(e.0, e.1) != k
    ensures StorageKeys(kept) == StorageKeys(entries) - {k}
  {
  }

  /** Reporting one more key adds its network. */
  lemma {:induction false} NetworksAdd(keys: set<string>, k: string)
    requires forall k' | k' in keys :: ':' in k'
    requires ':' in k
    ensures Networks(keys + {k}) == Networks(keys) + {NetworkPart(k)}
  {
  }

  /** Reporting one more key adds its account when its last part is the network asked for. */
  lemma {:induction false} AccountsAdd(keys: set<string>, k: string, networkId: string)
    ensures Accounts(keys + {k}, networkId) ==
      Accounts(keys, networkId) + (if LastPart(k) == networkId then {AccountPart(k)} else {})
  {
  }

  /** One more key taken from `remaining` adds its network to those reported so far. */
  lemma {:induction false} NetworksStep(all: set<string>, remaining: set<string>, k: string)
    requires k in remaining && remaining <= all
    requires forall k' | k' in all :: ':' in k'
    ensures all - (remaining - {k}) == (all - remaining) + {k}
    ensures Networks(all - (remaining - {k})) == Networks(all - remaining) + {NetworkPart(k)}
  {
    assert all - (remaining - {k}) == (all - remaining) + {k};
    NetworksAdd(all - remaining, k);
  }

  /**
   * One more key taken from `remaining` adds its account to those reported so
   * far when its last part is the network asked for, and that account is new.
   */
  lemma {:induction false} AccountsStep(all: set<string>, remaining: set<string>, k: string, networkId: string)
    requires k in remaining && remaining <= all
    requires forall k' | k' in all :: ':' in k'
    ensures Accounts(all - (remaining - {k}), networkId) ==
      Accounts(all - remaining, networkId) + (if LastPart(k) == networkId then {AccountPart(k)} else {})
    ensures LastPart(k) == networkId ==> AccountPart(k) !in Accounts(all - remaining, networkId)
  {
    var before := all - remaining;
    assert all - (remaining - {k}) == before + {k};
    AccountsAdd(before, k, networkId);
    if LastPart(k) == networkId {
      forall k' | k' in before && LastPart(k') == networkId
        ensures AccountPart(k') != AccountPart(k)
      {
        if AccountPart(k') == AccountPart(k) {
          KeyPartsInjective(k', k);
        }
      }
    }
  }

  /** Appending a new element keeps a sequence duplicate-free and adds it to its elements. */
  lemma {:induction false} Appended(r: seq<string>, x: string)
    requires NoDuplicates(r) && x !in (set y | y in r)
    ensures NoDuplicates(r + [x]) && (set y | y in r + [x]) == (set y | y in r) + {x}
  {
    assert (set y | y in r + [x]) == (set y | y in r) + {x};
  }

  /** A duplicate-free sequence has as many distinct elements as it has elements. */
  lemma {:induction false} DistinctCount(r: seq<string>)
    requires NoDuplicates(r)
    ensures |(set y | y in r)| == |r|
    decreases |r|
  {
    if r != [] {
      var init := r[..|r| - 1];
      DistinctCount(init);
      assert (set y | y in r) == (set y | y in init) + {r[|r| - 1]};
      assert r[|r| - 1] !in (set y | y in init);
    }
  }

  /** A duplicate-free sequence holding just `x` is `[x]`. */
  lemma {:induction false} OnlyElement(r: seq<string>, x: string)
    requires NoDuplicates(r) && (set y | y in r) == {x}
    ensures r == [x]
  {
    DistinctCount(r);
    assert r[0] in (set y | y in r);
  }

  class InMemoryKeyStore {
    /** The dictionary from storage keys to key pair strings. */
    var keys: map<string, string>
    /** The (network, account) entries written and not removed since. */
    ghost var entries: set<(string, string)>

    ghost predicate Valid()
      reads this
    {
      keys.Keys == StorageKeys(entries) &&
      forall k | k in keys :: ':' in keys[k]
    }

    constructor()
      ensures Valid() && keys == map[] && entries == {}
    {
      keys := map[];
      entries := {};
    }

    /** `getKey`: the key pair stored for the entry, or `null` when there is none. */
    function GetKey(networkId: string, accountId: string): (r: Option<KeyPair>)
      reads this
      ensures Valid() ==> (r.None? <==> StorageKey(networkId, accountId) !in keys)
      ensures Valid() && r.Some? ==> KeyPairToString(r.value) == keys[StorageKey(networkId, accountId)]
    {
      var k := StorageKey(networkId, accountId);
      if k !in keys || keys[k] == "" then None
      else
        var kp := KeyPairFromString(keys[k]);
        if ':' in keys[k] then
          KeyPairStringRoundTrip(keys[k]);
          Some(kp)
        else Some(kp)
    }

    /** `setKey`: store the key pair's string under the entry's storage key, replacing any earlier one. */
    method SetKey(networkId: string, accountId: string, keyPair: KeyPair)
      requires Valid()
      modifies this
      ensures Valid()
      ensures keys == old(keys)[StorageKey(networkId, accountId) := KeyPairToString(keyPair)]
      ensures entries == old(entries) + {(networkId, accountId)}
      ensures GetKey(networkId, accountId) == Some(keyPair)
      ensures forall n, a | StorageKey(n, a) != StorageKey(networkId, accountId) :: GetKey(n, a) == old(GetKey(n, a))
    {
      keys := keys[StorageKey(networkId, accountId) := KeyPairToString(keyPair)];
      entries := entries + {(networkId, accountId)};
      KeyPairRoundTrip(keyPair);
    }

    /** `removeKey`: delete the entry's storage key; nothing happens when it is absent. */
    method RemoveKey(networkId: string, accountId: string)
      requires Valid()
      modifies this
      ensures Valid()
      ensures keys == old(keys) - {StorageKey(networkId, accountId)}
      ensures entries == set e | e in old(entries) && StorageKey(e.0, e.1) != StorageKey(networkId, accountId)
      ensures GetKey(networkId, accountId) == None
      ensures StorageKey(networkId, accountId) !in old(keys) ==> keys == old(keys)
      ensures forall n, a | StorageKey(n, a) != StorageKey(networkId, accountId) :: GetKey(n, a) == old(GetKey(n, a))
    {
      var k := StorageKey(networkId, accountId);
      ghost var kept := set e | e in entries && StorageKey(e.0, e.1) != k;
      StorageKeysRemove(entries, kept, k);
      keys := keys - {k};
      entries := kept;
    }

    /** `clear`: forget every entry. */
    method Clear()
      requires Valid()
      modifies this
      ensures Valid() && keys == map[] && entries == {}
      ensures forall n, a :: GetKey(n, a) == None
    {
      keys := map[];
      entries := {};
    }

    /**
     * `getNetworks`: segment [1] of every storage key, each reported once
     * (the source collects them in a `Set`).
     */
    method GetNetworks() returns (r: seq<string>)
      requires Valid()
      ensures NoDuplicates(r)
      ensures (set x | x in r) == Networks(keys.Keys)
      ensures (forall e | e in entries :: ':' !in e.0 && ':' !in e.1) ==> (set x | x in r) == set e | e in entries :: e.0
    {
      r := [];
      var remaining := keys.Keys;
      while remaining != {}
        invariant remaining <= keys.Keys
        invariant NoDuplicates(r)
        invariant (set x | x in r) == Networks(keys.Keys - remaining)
        decreases remaining
      {
        var k :| k in remaining;
        var network := NetworkPart(k);
        NetworksStep(keys.Keys, remaining, k);
        if network !in r {
          Appended(r, network);
          r := r + [network];
        }
        remaining := remaining - {k};
      }
      assert keys.Keys - remaining == keys.Keys;
      if forall e | e in entries :: ':' !in e.0 && ':' !in e.1 {
        NetworksOfEntries(entries);
      }
    }

    /**
     * `getAccounts(networkId)`: for every storage key whose last segment is
     * `networkId`, the segments before it joined with `:`. No account is
     * reported twice, because a key is its account part and last part.
     */
    method GetAccounts(networkId: string) returns (r: seq<string>)
      requires Valid()
      ensures NoDuplicates(r)
      ensures (set x | x in r) == Accounts(keys.Keys, networkId)
      ensures (forall e | e in entries :: ':' !in e.0) ==>
        (set x | x in r) == set e | e in entries && e.0 == networkId :: e.1
    {
      r := [];
      var remaining := keys.Keys;
      while remaining != {}
        invariant remaining <= keys.Keys
        invariant NoDuplicates(r)
        invariant (set x | x in r) == Accounts(keys.Keys - remaining, networkId)
        decreases remaining
      {
        var k :| k in remaining;
        AccountsStep(keys.Keys, remaining, k, networkId);
        if LastPart(k) == networkId {
          var account := AccountPart(k);
          Appended(r, account);
          r := r + [account];
        }
        remaining := remaining - {k};
      }
      assert keys.Keys - remaining == keys.Keys;
      if forall e | e in entries :: ':' !in e.0 {
        AccountsOfEntries(entries, networkId);
      }
    }
  }

  /**
   * Two keys set on two colon-free networks are each reported by
   * `getAccounts` for their own network only, and an unused network reports
   * no account.
   */
  method AccountsPerNetwork(n1: string, a1: string, n2: string, a2: string, unused: string, keyPair: KeyPair)
    returns (r1: seq<string>, r2: seq<string>, r3: seq<string>)
    requires ':' !in n1 && ':' !in n2 && n1 != n2 && unused != n1 && unused != n2
    ensures r1 == [a1] && r2 == [a2] && r3 == []
  {
    var store := TwoEntryStore(n1, a1, n2, a2, keyPair);
    r1 := AccountsOfTwoEntryStore(store, n1, a1, n2, a2, n1);
    r2 := AccountsOfTwoEntryStore(store, n1, a1, n2, a2, n2);
    r3 := AccountsOfTwoEntryStore(store, n1, a1, n2, a2, unused);
  }

  /** After `clear()`, `getNetworks()` and `getAccounts(n)` report nothing. */
  method EnumerationsAfterClear(store: InMemoryKeyStore, networkId: string) returns (networks: seq<string>, accounts: seq<string>)
    requires store.Valid()
    modifies store
    ensures networks == [] && accounts == []
  {
    store.Clear();
    networks := store.GetNetworks();
    accounts := store.GetAccounts(networkId);
    NothingReported(networks);
    NothingReported(accounts);
  }

  /** A duplicate-free sequence with no elements is empty. */
  lemma {:induction false} NothingReported(r: seq<string>)
    requires NoDuplicates(r) && (set y | y in r) == {}
    ensures r == []
  {
    DistinctCount(r);
  }

  /** `getAccounts(n)` on a store holding one entry on each of two colon-free networks. */
  method AccountsOfTwoEntryStore(store: InMemoryKeyStore, n1: string, a1: string, n2: string, a2: string, n: string)
    returns (r: seq<string>)
    requires store.Valid() && store.entries == {(n1, a1), (n2, a2)}
    requires ':' !in n1 && ':' !in n2 && n1 != n2
    ensures r == (if n == n1 then [a1] else if n == n2 then [a2] else [])
  {
    r := store.GetAccounts(n);
    AccountsOfTwo(n1, a1, n2, a2, n);
    if n == n1 {
      OnlyElement(r, a1);
    } else if n == n2 {
      OnlyElement(r, a2);
    } else {
      NothingReported(r);
    }
  }

  /** A fresh store after `setKey(n1, a1, keyPair)` and `setKey(n2, a2, keyPair)`. */
  method TwoEntryStore(n1: string, a1: string, n2: string, a2: string, keyPair: KeyPair)
    returns (store: InMemoryKeyStore)
    ensures fresh(store) && store.Valid() && store.entries == {(n1, a1), (n2, a2)}
  {
    store := new InMemoryKeyStore();
    store.SetKey(n1, a1, keyPair);
    store.SetKey(n2, a2, keyPair);
  }

  /** The accounts of two entries on two different networks, per network. */
  lemma {:induction false} AccountsOfTwo(n1: string, a1: string, n2: string, a2: string, n: string)
    requires n1 != n2
    ensures (set e | e in {(n1, a1), (n2, a2)} && e.0 == n :: e.1) ==
      (if n == n1 then {a1} else if n == n2 then {a2} else {})
  {
    var s := set e | e in {(n1, a1), (n2, a2)} && e.0 == n :: e.1;
    if n == n1 {
      assert a1 in s;
    } else if n == n2 {
      assert a2 in s;
    }
  }
}
