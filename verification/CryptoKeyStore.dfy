/** The key store as an object, each method one step of the state machine. */
module CryptoKeyStore {
  import opened Basics
  import opened KeyStore

  class Keys {
    const c: Crypto
    var mapKeys: map<KeyId, Key>
    var mapCryptedKeys: map<KeyId, (PubKey, Bytes)>
    var masterKey: Bytes
    var unlockScope: Scope
    var unlockDeadline: Option<int>
    var unlockEpoch: nat
    var useCrypto: bool
    var thoroughlyChecked: bool

    function State(): Store
      reads this
    {
      Store(mapKeys, mapCryptedKeys, masterKey, unlockScope, unlockDeadline, unlockEpoch, useCrypto, thoroughlyChecked)
    }

    constructor (c: Crypto)
      ensures State() == EMPTY && Consistent(State()) && this.c == c
    {
      this.c := c;
      mapKeys, mapCryptedKeys, masterKey := map[], map[], [];
      unlockScope, unlockDeadline, unlockEpoch := Locked, None, 0;
      useCrypto, thoroughlyChecked := false, false;
    }

    method SetCrypted() returns (ok: bool)
      modifies this
      ensures State() == Crypted(old(State())) && ok == CanCrypt(old(State()))
    {
      if useCrypto {
        return true;
      }
      if mapKeys != map[] {
        return false;
      }
      useCrypto := true;
      return true;
    }

    /** Lock, and report what the unlock that ends had permitted and until when. */
    method LockAndCapture() returns (prior: Option<(Scope, Option<int>)>)
      modifies this
      ensures State() == Lock(old(State()))
      ensures prior == if CanCrypt(old(State())) then Some((old(unlockScope), old(unlockDeadline))) else None
    {
      var ok := SetCrypted();
      if !ok {
        return None;
      }
      prior := Some((unlockScope, unlockDeadline));
      masterKey := [];
      unlockScope := Locked;
      unlockDeadline := None;
      unlockEpoch := unlockEpoch + 1;
    }

    method LockIfCurrent(epoch: nat) returns (ok: bool)
      modifies this
      ensures State() == Relock(old(State()), epoch) && ok == Turns(c, old(State()), Relocking(epoch))
    {
      ok := SetCrypted();
      if !ok {
        return false;
      }
      if epoch != unlockEpoch {
        return false;
      }
      masterKey := [];
      unlockScope := Locked;
      unlockDeadline := None;
      unlockEpoch := unlockEpoch + 1;
      return true;
    }

    /** Try the master key on the encrypted keys: on all of them the first time, on one later. */
    method TryKeys(order: seq<KeyId>, master: Bytes) returns (pass: bool, fail: bool)
      requires forall i :: 0 <= i < |order| ==> order[i] in mapCryptedKeys
      ensures (pass, fail) == Check(c, master, Entries(mapCryptedKeys, order), thoroughlyChecked)
    {
      pass, fail := false, false;
      var i := 0;
      ghost var all := Check(c, master, Entries(mapCryptedKeys, order), thoroughlyChecked);
      assert order[0..] == order;
      while i < |order|
        invariant 0 <= i <= |order| && !fail && (i > 0 ==> pass && !thoroughlyChecked) && (i == 0 ==> !pass)
        invariant var rest := Check(c, master, Entries(mapCryptedKeys, order[i..]), thoroughlyChecked);
          all == (pass || rest.0, rest.1)
      {
        var entry := mapCryptedKeys[order[i]];
        ghost var entries := Entries(mapCryptedKeys, order[i..]);
        assert order[i..][0] == order[i] && order[i..][1..] == order[i + 1..];
        assert entries == [entry] + Entries(mapCryptedKeys, order[i + 1..]);
        assert entries[1..] == Entries(mapCryptedKeys, order[i + 1..]);
        if !Opens(c, master, entry) {
          fail := true;
          return;
        }
        pass := true;
        if thoroughlyChecked {
          return;
        }
        i := i + 1;
      }
      assert order[i..] == [];
    }

    /** A successful unlock reports its epoch. A mixture of keys that open and keys that do not is corruption. */
    method Unlock(order: seq<KeyId>, master: Bytes, scope: Scope, deadline: Option<int>)
      returns (outcome: Outcome, epoch: nat)
      requires (forall i :: 0 <= i < |order| ==> order[i] in mapCryptedKeys) &&
          (forall id :: id in mapCryptedKeys ==> id in order)
      modifies this
      ensures State() == KeyStore.Unlock(c, old(State()), order, master, scope, deadline)
      ensures outcome == Verdict(c, old(State()), order, master, scope)
      ensures outcome == Done ==> epoch == unlockEpoch == old(unlockEpoch) + 1
    {
      epoch := 0;
      if scope == Locked {
        return Refused, epoch;
      }
      var ok := SetCrypted();
      if !ok {
        return Refused, epoch;
      }
      var pass, fail := TryKeys(order, master);
      if pass && fail {
        return Corrupt, epoch;
      }
      if fail || !pass {
        return Refused, epoch;
      }
      masterKey := master;
      unlockScope := scope;
      unlockDeadline := deadline;
      unlockEpoch := unlockEpoch + 1;
      thoroughlyChecked := true;
      return Done, unlockEpoch;
    }

    method Elevate(master: Bytes) returns (ok: bool)
      modifies this
      ensures State() == KeyStore.Elevate(old(State()), master) && ok == Elevates(old(State()), master)
    {
      if !useCrypto {
        return false;
      }
      if unlockScope == Locked {
        return false;
      }
      if |master| != |masterKey| || master != masterKey {
        return false;
      }
      if unlockScope == Full {
        return true;
      }
      unlockScope := Full;
      return true;
    }

    method RestrictToStakingOnly() returns (ok: bool)
      modifies this
      ensures State() == Restrict(old(State())) && ok == (old(useCrypto) && old(unlockScope) != Locked)
    {
      if !useCrypto {
        return false;
      }
      if unlockScope == Locked {
        return false;
      }
      if unlockScope == StakingOnly {
        return true;
      }
      unlockScope := StakingOnly;
      return true;
    }

    method AddCryptedKey(pub: PubKey, secret: Bytes) returns (ok: bool)
      modifies this
      ensures State() == KeyStore.AddCryptedKey(c, old(State()), pub, secret) && ok == CanCrypt(old(State()))
    {
      ok := SetCrypted();
      if ok {
        mapCryptedKeys := mapCryptedKeys[c.id(pub) := (pub, secret)];
      }
    }

    method AddKeyPubKey(key: Key, pub: PubKey) returns (ok: bool)
      modifies this
      ensures State() == AddKey(c, old(State()), key, pub)
      ensures ok <==> !old(useCrypto) || (old(unlockScope) != Locked && |old(masterKey)| == KEY_SIZE)
    {
      if !useCrypto {
        mapKeys := mapKeys[c.id(pub) := key];
        return true;
      }
      if unlockScope == Locked {
        return false;
      }
      var secret := EncryptSecret(c, masterKey, key.secret, c.iv(pub));
      if secret.None? {
        return false;
      }
      ok := AddCryptedKey(pub, secret.value);
    }

    method GetKey(id: KeyId) returns (key: Option<Key>)
      ensures key == KeyStore.GetKey(c, State(), id)
    {
      if !useCrypto {
        return if id in mapKeys then Some(mapKeys[id]) else None;
      }
      if id !in mapCryptedKeys {
        return None;
      }
      var (pub, secret) := mapCryptedKeys[id];
      var plain := DecryptSecret(c, masterKey, secret, c.iv(pub));
      if plain.None? || |plain.value| != KEY_SIZE {
        return None;
      }
      var k := Key(plain.value, pub.compressed);
      return if c.valid(k) then Some(k) else None;
    }

    /**
    Encrypt the plain keys, in the order given, and drop them. A master key of the wrong size encrypts none
    of them and leaves them there, though the store is taken for encrypted from then on.
    */
    method EncryptKeys(master: Bytes, order: seq<KeyId>) returns (ok: bool)
      requires (forall i :: 0 <= i < |order| ==> order[i] in mapKeys) && (forall id :: id in mapKeys ==> id in order)
      modifies this
      ensures var s := old(State()); var refused := s.useCrypto || s.crypted != map[];
        && (ok <==> !refused && (|master| == KEY_SIZE || s.keys == map[]))
        && (if refused then State() == s
            else if ok then State() == s.(keys := map[], useCrypto := true,
              crypted := SealAll(c, s.keys, order, master))
            else State() == s.(useCrypto := true))
      ensures State() == Step(c, old(State()), Encrypting(order, master))
    {
      if mapCryptedKeys != map[] || useCrypto {
        return false;
      }
      useCrypto := true;
      ghost var s := old(State());
      for i := 0 to |order|
        invariant State() == s.(useCrypto := true, crypted := SealAll(c, s.keys, order[..i], master))
        invariant i > 0 ==> |master| == KEY_SIZE
      {
        var key := mapKeys[order[i]];
        var pub := c.pub(key);
        var secret := EncryptSecret(c, master, key.secret, c.iv(pub));
        if secret.None? {
          return false;
        }
        assert order[..i + 1][..i] == order[..i];
        var added := AddCryptedKey(pub, secret.value);
      }
      assert order[..|order|] == order;
      mapKeys := map[];
      return true;
    }
  }
}
