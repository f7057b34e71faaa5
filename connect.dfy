/**
 * The key-file step of `connect`: when the configuration names both a key
 * file and a key store, the key read from the file is put in a fresh
 * in-memory store that is merged in front of the configured one, and the
 * account becomes the master account unless one is already set.
 *
 * Reading the key file is not modelled; its outcome is a parameter. Building
 * the `Stream` connection afterwards is not modelled either.
 */
module Connect {
  import opened Wrappers
  import opened KeyPairs
  import opened InMemoryKeyStores

  /** What `readKeyFile(keyPath)` produced: it threw, or it gave `[accountId, keyPair]`. */
  datatype KeyFile = ReadFailed | KeyFile(accountId: Option<string>, keyPair: KeyPair)

  /** The key stores `connect` handles: an in-memory store, a merge of stores, or any other store. */
  datatype KeyStore =
    | InMemory(store: InMemoryKeyStore)
    | Merge(keyStores: seq<KeyStore>, writeKeyStoreIndex: nat)
    | OtherStore(name: string)

  /** Which branch `connect` took, as its log output shows it. */
  datatype Outcome =
    | Skipped                                 // no key file or no key store configured
    | Warned                                  // reading the key file failed: a warning is logged
    | NoAccount                               // the key file names no account
    | Loaded(keyPathStore: InMemoryKeyStore)  // the key was loaded: a message is logged

  /** JavaScript truthiness of an optional string: present and not empty. */
  predicate Truthy(s: Option<string>)
  {
    s.Some? && s.value != ""
  }

  /** The part of `ConnectConfig` that `connect` reads and writes. */
  class ConnectConfig {
    var networkId: string
    var keyPath: Option<string>
    var keyStore: Option<KeyStore>
    var masterAccount: Option<string>

    constructor(networkId: string, keyPath: Option<string>, keyStore: Option<KeyStore>, masterAccount: Option<string>)
      ensures this.networkId == networkId && this.keyPath == keyPath
      ensures this.keyStore == keyStore && this.masterAccount == masterAccount
    {
      this.networkId := networkId;
      this.keyPath := keyPath;
      this.keyStore := keyStore;
      this.masterAccount := masterAccount;
    }
  }

  /**
   * `connect(config)` up to the construction of the connection. Only
   * `keyStore` and `masterAccount` may change, and only when the key was
   * loaded; the fresh store holds exactly the loaded key, under the
   * configured network and the file's account.
   */
  method Connect(config: ConnectConfig, keyFile: KeyFile) returns (outcome: Outcome)
    modifies config
    ensures config.networkId == old(config.networkId) && config.keyPath == old(config.keyPath)
    ensures !(Truthy(old(config.keyPath)) && old(config.keyStore).Some?) ==>
      outcome == Skipped && unchanged(config)
    ensures Truthy(old(config.keyPath)) && old(config.keyStore).Some? && keyFile.ReadFailed? ==>
      outcome == Warned && unchanged(config)
    ensures Truthy(old(config.keyPath)) && old(config.keyStore).Some? && keyFile.KeyFile? && !Truthy(keyFile.accountId) ==>
      outcome == NoAccount && unchanged(config)
    ensures Truthy(old(config.keyPath)) && old(config.keyStore).Some? && keyFile.KeyFile? && Truthy(keyFile.accountId) ==>
      outcome.Loaded? && fresh(outcome.keyPathStore)
    ensures outcome.Loaded? ==>
      var accountId := keyFile.accountId.value;
      var store := outcome.keyPathStore;
      store.Valid() &&
      store.keys == map[StorageKey(old(config.networkId), accountId) := KeyPairToString(keyFile.keyPair)] &&
      store.entries == {(old(config.networkId), accountId)} &&
      store.GetKey(old(config.networkId), accountId) == Some(keyFile.keyPair) &&
      config.keyStore == Some(Merge([InMemory(store), old(config.keyStore).value], 1)) &&
      config.masterAccount == (if Truthy(old(config.masterAccount)) then old(config.masterAccount) else keyFile.accountId)
  {
    if !(Truthy(config.keyPath) && config.keyStore.Some?) {
      return Skipped;
    }
    if keyFile.ReadFailed? {
      return Warned;
    }
    if !Truthy(keyFile.accountId) {
      return NoAccount;
    }
    var accountId := keyFile.accountId.value;
    var keyPathStore := new InMemoryKeyStore();
    keyPathStore.SetKey(config.networkId, accountId, keyFile.keyPair);
    if !Truthy(config.masterAccount) {
      config.masterAccount := keyFile.accountId;
    }
    config.keyStore := Some(Merge([InMemory(keyPathStore), config.keyStore.value], 1));
    outcome := Loaded(keyPathStore);
  }
}
