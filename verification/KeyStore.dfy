/**
The encrypted key store: what an unlock permits, when it ends, and why a relock that
cannot be cancelled does no harm. Each operation is a step of a state machine; what
every run of it keeps is proved here.
*/
module KeyStore {
  import opened Basics

  type Bytes = seq<nat>
  type KeyId = nat

  const KEY_SIZE := 32

  datatype Scope = Locked | StakingOnly | Full

  function Rank(s: Scope): nat {
    match s
    case Locked => 0
    case StakingOnly => 1
    case Full => 2
  }

  datatype Key = Key(secret: Bytes, compressed: bool)
  datatype PubKey = PubKey(point: Bytes, compressed: bool)

  /** The cipher and the key functions, as far as the store uses them. */
  datatype Crypto = Crypto(encrypt: (Bytes, Bytes, Bytes) -> Bytes, decrypt: (Bytes, Bytes, Bytes) -> Option<Bytes>,
                           pub: Key -> PubKey, id: PubKey -> KeyId, iv: PubKey -> Bytes, valid: Key -> bool)

  function EncryptSecret(c: Crypto, master: Bytes, plain: Bytes, iv: Bytes): Option<Bytes> {
    if |master| != KEY_SIZE then None else Some(c.encrypt(master, plain, iv))
  }

  function DecryptSecret(c: Crypto, master: Bytes, secret: Bytes, iv: Bytes): Option<Bytes> {
    if |master| != KEY_SIZE then None else c.decrypt(master, secret, iv)
  }

  /** Whether a master key opens an encrypted key and the result belongs to its public key. */
  predicate Opens(c: Crypto, master: Bytes, entry: (PubKey, Bytes)) {
    var plain := DecryptSecret(c, master, entry.1, c.iv(entry.0));
    plain.Some? && |plain.value| == KEY_SIZE && c.pub(Key(plain.value, entry.0.compressed)) == entry.0
  }

  /** The state of the store. */
  datatype Store = Store(keys: map<KeyId, Key>, crypted: map<KeyId, (PubKey, Bytes)>, master: Bytes, scope: Scope,
                         deadline: Option<int>, epoch: nat, useCrypto: bool, checked: bool)

  const EMPTY := Store(map[], map[], [], Locked, None, 0, false, false)

  // ----- the operations -----

  /** Using encryption from now on, unless there are plain keys. */
  predicate CanCrypt(s: Store) {
    s.useCrypto || s.keys == map[]
  }

  function Crypted(s: Store): Store {
    if CanCrypt(s) then s.(useCrypto := true) else s
  }

  /** The unlock ends: the key, what it permits and when it expires go together, and a new epoch begins. */
  function Ended(s: Store): Store {
    s.(master := [], scope := Locked, deadline := None, epoch := s.epoch + 1)
  }

  function Lock(s: Store): Store {
    if CanCrypt(s) then Ended(Crypted(s)) else s
  }

  function Relock(s: Store, epoch: nat): Store {
    if CanCrypt(s) && epoch == s.epoch then Ended(Crypted(s)) else Crypted(s)
  }

  /** How far the check of a key went: some entry opened, some entry did not. */
  function Check(c: Crypto, master: Bytes, entries: seq<(PubKey, Bytes)>, first: bool): (bool, bool) {
    if entries == [] then (false, false)
    else if !Opens(c, master, entries[0]) then (false, true)
    else if first then (true, false)
    else (true, Check(c, master, entries[1..], first).1)
  }

  /** The encrypted keys, in the order in which the store goes through them. */
  function Entries(crypted: map<KeyId, (PubKey, Bytes)>, order: seq<KeyId>): seq<(PubKey, Bytes)> {
    if order == [] then []
    else (if order[0] in crypted then [crypted[order[0]]] else []) + Entries(crypted, order[1..])
  }

  datatype Outcome = Done | Refused | Corrupt

  function Verdict(c: Crypto, s: Store, order: seq<KeyId>, master: Bytes, scope: Scope): Outcome {
    if scope == Locked || !CanCrypt(s) then Refused else
    var (pass, fail) := Check(c, master, Entries(s.crypted, order), s.checked);
    if pass && fail then Corrupt else if fail || !pass then Refused else Done
  }

  function Unlock(c: Crypto, s: Store, order: seq<KeyId>, master: Bytes, scope: Scope, deadline: Option<int>): Store {
    if scope == Locked then s
    else if Verdict(c, s, order, master, scope) != Done then Crypted(s)
    else Crypted(s).(master := master, scope := scope, deadline := deadline, epoch := s.epoch + 1, checked := true)
  }

  predicate Elevates(s: Store, master: Bytes) {
    s.useCrypto && s.scope != Locked && master == s.master
  }

  function Elevate(s: Store, master: Bytes): Store {
    if Elevates(s, master) then s.(scope := Full) else s
  }

  function Restrict(s: Store): Store {
    if s.useCrypto && s.scope != Locked then s.(scope := StakingOnly) else s
  }

  function AddCryptedKey(c: Crypto, s: Store, pub: PubKey, secret: Bytes): Store {
    if CanCrypt(s) then var t := Crypted(s); t.(crypted := t.crypted[c.id(pub) := (pub, secret)]) else s
  }

  function AddKey(c: Crypto, s: Store, key: Key, pub: PubKey): Store {
    if !s.useCrypto then s.(keys := s.keys[c.id(pub) := key])
    else if s.scope == Locked then s
    else
      var secret := EncryptSecret(c, s.master, key.secret, c.iv(pub));
      if secret.None? then s else AddCryptedKey(c, s, pub, secret.value)
  }

  function GetKey(c: Crypto, s: Store, id: KeyId): Option<Key> {
    if !s.useCrypto then (if id in s.keys then Some(s.keys[id]) else None)
    else if id !in s.crypted then None
    else
      var (pub, secret) := s.crypted[id];
      var plain := DecryptSecret(c, s.master, secret, c.iv(pub));
      if plain.None? || |plain.value| != KEY_SIZE then None
      else
        var key := Key(plain.value, pub.compressed);
        if c.valid(key) then Some(key) else None
  }

  // ----- encrypting what was plain -----

  function Sealed(c: Crypto, key: Key, master: Bytes): (PubKey, Bytes) {
    (c.pub(key), c.encrypt(master, key.secret, c.iv(c.pub(key))))
  }

  /**
  The encrypted keys in the order in which they are come upon, each under the name of its own public key, which
  need not be the name it was added under.
  */
  function SealAll(c: Crypto, keys: map<KeyId, Key>, order: seq<KeyId>, master: Bytes): map<KeyId, (PubKey, Bytes)> {
    if order == [] then map[] else
    var n := |order| - 1;
    var before := SealAll(c, keys, order[..n], master);
    if order[n] !in keys then before else
    var sealed := Sealed(c, keys[order[n]], master);
    before[c.id(sealed.0) := sealed]
  }

  /** The store after its keys were encrypted under a master key of the right size. */
  function Encrypted(c: Crypto, s: Store, order: seq<KeyId>, master: Bytes): Store {
    s.(keys := map[], useCrypto := true, crypted := SealAll(c, s.keys, order, master))
  }

  /** With keys filed under their own public keys every key keeps its name and the order does not matter. */
  lemma {:induction false} SealAllFiled(c: Crypto, keys: map<KeyId, Key>, order: seq<KeyId>, master: Bytes)
    requires Filed(c, keys)
    ensures var m := SealAll(c, keys, order, master);
      && (forall id :: id in m <==> id in keys && id in order)
      && (forall id :: id in m ==> id in keys && m[id] == Sealed(c, keys[id], master))
  {
    if order != [] {
      var n := |order| - 1;
      SealAllFiled(c, keys, order[..n], master);
      assert order == order[..n] + [order[n]];
    }
  }

  // ----- steps and runs -----

  datatype Op =
    | Unlocking(order: seq<KeyId>, master: Bytes, scope: Scope, deadline: Option<int>)
    | Locking
    | Elevating(master: Bytes)
    | Restricting
    | Relocking(epoch: nat)
    | Adding(key: Key, pub: PubKey)
    | AddingCrypted(pub: PubKey, secret: Bytes)
    | Encrypting(order: seq<KeyId>, master: Bytes)

  /** The wallet encrypts with master keys of the right size. */
  predicate Proper(op: Op) {
    op.Encrypting? ==> |op.master| == KEY_SIZE
  }

  predicate AllProper(ops: seq<Op>) {
    forall i :: 0 <= i < |ops| ==> Proper(ops[i])
  }

  function Step(c: Crypto, s: Store, op: Op): Store {
    match op
    case Unlocking(order, master, scope, deadline) => Unlock(c, s, order, master, scope, deadline)
    case Locking => Lock(s)
    case Elevating(master) => Elevate(s, master)
    case Restricting => Restrict(s)
    case Relocking(epoch) => Relock(s, epoch)
    case Adding(key, pub) => AddKey(c, s, key, pub)
    case AddingCrypted(pub, secret) => AddCryptedKey(c, s, pub, secret)
    case Encrypting(order, master) =>
      if s.useCrypto || s.crypted != map[] then s
      else if |master| != KEY_SIZE && s.keys != map[] then s.(useCrypto := true)
      else Encrypted(c, s, order, master)
  }

  function Run(c: Crypto, s: Store, ops: seq<Op>): Store {
    if ops == [] then s else Step(c, Run(c, s, ops[..|ops| - 1]), ops[|ops| - 1])
  }

  /** Locked exactly without a master key, and then without a deadline; plain and encrypted keys never together. */
  predicate Consistent(s: Store) {
    && (s.scope == Locked <==> s.master == [])
    && (s.scope == Locked ==> s.deadline == None)
    && (if s.useCrypto then s.keys == map[] else s.crypted == map[] && s.scope == Locked)
  }

  /** A key that opens anything is not empty. */
  lemma PassingKey(c: Crypto, master: Bytes, entries: seq<(PubKey, Bytes)>, first: bool)
    requires Check(c, master, entries, first).0
    ensures |master| == KEY_SIZE && entries != [] && Opens(c, master, entries[0])
  {
  }

  /** Every step keeps the store consistent, but for encrypting with a master key of the wrong size. */
  lemma StepConsistent(c: Crypto, s: Store, op: Op)
    requires Consistent(s) && (s.useCrypto || Proper(op))
    ensures Consistent(Step(c, s, op)) && (s.useCrypto ==> Step(c, s, op).useCrypto) && s.epoch <= Step(c, s, op).epoch
  {
    if op.Unlocking? && Verdict(c, s, op.order, op.master, op.scope) == Done {
      PassingKey(c, op.master, Entries(s.crypted, op.order), s.checked);
    }
  }

  /**
  A master key of the wrong size encrypts nothing and leaves the store saying that it is encrypted: it is
  inconsistent afterwards exactly if it was not encrypted and held a plain key.
  */
  lemma WrongMasterKey(c: Crypto, s: Store, order: seq<KeyId>, master: Bytes)
    requires Consistent(s)
    ensures Consistent(Step(c, s, Encrypting(order, master))) <==>
              |master| == KEY_SIZE || s.useCrypto || s.keys == map[]
  {
  }

  /** A store with one plain key and an empty master key. The wallet itself always makes one of the right size. */
  lemma EmptyMasterKey(c: Crypto, key: Key)
    ensures var s := EMPTY.(keys := map[1 := key]); var t := Step(c, s, Encrypting([1], []));
      && Consistent(s) && t.useCrypto && t.keys == map[1 := key] && t.crypted == map[]
      && !Consistent(t) && GetKey(c, t, 1) == None
  {
  }

  lemma {:induction false} RunConsistent(c: Crypto, s: Store, ops: seq<Op>)
    requires Consistent(s) && (s.useCrypto || AllProper(ops))
    ensures Consistent(Run(c, s, ops)) && (s.useCrypto ==> Run(c, s, ops).useCrypto) && s.epoch <= Run(c, s, ops).epoch
  {
    if ops != [] {
      RunConsistent(c, s, ops[..|ops| - 1]);
      StepConsistent(c, Run(c, s, ops[..|ops| - 1]), ops[|ops| - 1]);
    }
  }

  /** What the store permits: everything while it is not encrypted. */
  function Permitted(s: Store): Scope {
    if !s.useCrypto then Full else s.scope
  }

  /** Every step of an unlock's life permits exactly what it was asked for, and leaves the rest of the unlock alone. */
  lemma PermittedAfter(c: Crypto, s: Store, op: Op)
    requires Consistent(s)
    ensures var t := Step(c, s, op);
      && (op.Unlocking? && Verdict(c, s, op.order, op.master, op.scope) == Done ==>
            Permitted(t) == op.scope && t.master == op.master && t.deadline == op.deadline && t.epoch == s.epoch + 1)
      && (op.Unlocking? && Verdict(c, s, op.order, op.master, op.scope) != Done && s.useCrypto ==>
            Permitted(t) == Permitted(s) && t.master == s.master && t.deadline == s.deadline && t.epoch == s.epoch)
      && (op.Restricting? && s.useCrypto && Permitted(s) != Locked ==> Permitted(t) == StakingOnly)
      && (op.Elevating? && s.useCrypto && Permitted(s) != Locked && op.master == s.master ==> Permitted(t) == Full)
      && (op.Restricting? || op.Elevating? ==>
            t.master == s.master && t.deadline == s.deadline && t.epoch == s.epoch && t.crypted == s.crypted)
      && (op.Locking? && s.useCrypto ==> Permitted(t) == Locked && t.master == [] && t.deadline == None)
  {
    if op.Unlocking? && Verdict(c, s, op.order, op.master, op.scope) == Done {
      PassingKey(c, op.master, Entries(s.crypted, op.order), s.checked);
    }
  }

  lemma {:induction false} CheckExactly(c: Crypto, master: Bytes, entries: seq<(PubKey, Bytes)>, first: bool)
    ensures var (pass, fail) := Check(c, master, entries, first);
      && (pass <==> entries != [] && Opens(c, master, entries[0]))
      && (fail <==> if first then entries != [] && !Opens(c, master, entries[0])
                    else exists i :: 0 <= i < |entries| && !Opens(c, master, entries[i]))
  {
    hide Opens;
    if entries != [] && Opens(c, master, entries[0]) && !first {
      CheckExactly(c, master, entries[1..], first);
      var rest := entries[1..];
      if i :| 0 <= i < |entries| && !Opens(c, master, entries[i]) { assert entries[i] == rest[i - 1]; }
      if i :| 0 <= i < |rest| && !Opens(c, master, rest[i]) { assert rest[i] == entries[i + 1]; }
    }
  }

  /** The first unlock needs a key that opens every entry, a later one a key that opens the first. */
  lemma VerdictExactly(c: Crypto, s: Store, order: seq<KeyId>, master: Bytes, scope: Scope)
    ensures var entries := Entries(s.crypted, order); var verdict := Verdict(c, s, order, master, scope);
      && (verdict == Done <==>
            && scope != Locked && CanCrypt(s) && entries != []
            && (if s.checked then Opens(c, master, entries[0])
                else forall i :: 0 <= i < |entries| ==> Opens(c, master, entries[i])))
      && (verdict == Corrupt <==>
            && scope != Locked && CanCrypt(s) && !s.checked && entries != [] && Opens(c, master, entries[0])
            && exists i :: 0 <= i < |entries| && !Opens(c, master, entries[i]))
  {
    hide Opens, Entries, Check;
    CheckExactly(c, master, Entries(s.crypted, order), s.checked);
  }

  /** Permission grows only at a step that presents a key: one that opens an encrypted key, or the one installed. */
  lemma PermissionNeedsKey(c: Crypto, s: Store, op: Op)
    requires Consistent(s) && Rank(Permitted(Step(c, s, op))) > Rank(Permitted(s))
    ensures (op.Unlocking? && exists id :: id in s.crypted && Opens(c, op.master, s.crypted[id])) ||
        (op.Elevating? && op.master == s.master)
    ensures Step(c, s, op).master == op.master && |op.master| > 0
  {
    if op.Unlocking? && Verdict(c, s, op.order, op.master, op.scope) == Done {
      var entries := Entries(s.crypted, op.order);
      PassingKey(c, op.master, entries, s.checked);
      EntriesAre(s.crypted, op.order);
      assert IsEntry(s.crypted, entries[0]);
      var id :| id in s.crypted && s.crypted[id] == entries[0];
    }
  }

  ghost predicate IsEntry(crypted: map<KeyId, (PubKey, Bytes)>, e: (PubKey, Bytes)) {
    exists id :: id in crypted && crypted[id] == e
  }

  lemma {:induction false} EntriesAre(crypted: map<KeyId, (PubKey, Bytes)>, order: seq<KeyId>)
    ensures forall i :: 0 <= i < |Entries(crypted, order)| ==> IsEntry(crypted, Entries(crypted, order)[i])
    ensures Entries(crypted, order) == [] <==> forall i :: 0 <= i < |order| ==> order[i] !in crypted
  {
    if order != [] {
      EntriesAre(crypted, order[1..]);
      if order[0] in crypted {
        assert IsEntry(crypted, crypted[order[0]]);
      }
    }
  }

  // ----- relocks -----

  /** The steps that begin or end an unlock. */
  predicate Turns(c: Crypto, s: Store, op: Op) {
    match op
    case Unlocking(order, master, scope, deadline) => Verdict(c, s, order, master, scope) == Done
    case Locking => CanCrypt(s)
    case Relocking(epoch) => CanCrypt(s) && epoch == s.epoch
    case _ => false
  }

  lemma EpochCountsTurns(c: Crypto, s: Store, op: Op)
    ensures Step(c, s, op).epoch == if Turns(c, s, op) then s.epoch + 1 else s.epoch
  {
  }

  /** No step of a run begins or ends an unlock. */
  predicate Quiet(c: Crypto, s: Store, ops: seq<Op>) {
    forall i :: 0 <= i < |ops| ==> !Turns(c, Run(c, s, ops[..i]), ops[i])
  }

  lemma {:induction false} QuietKeeps(c: Crypto, s: Store, ops: seq<Op>)
    requires Consistent(s) && s.useCrypto
    ensures Quiet(c, s, ops) ==>
        var t := Run(c, s, ops); t.epoch == s.epoch && t.master == s.master && t.deadline == s.deadline
    ensures !Quiet(c, s, ops) ==> Run(c, s, ops).epoch > s.epoch
  {
    hide Step, Turns, Quiet, Consistent;
    if ops == [] {
      QuietNothing(c, s);
    } else {
      var n := |ops| - 1;
      var front := ops[..n];
      QuietKeeps(c, s, front);
      RunConsistent(c, s, front);
      var t := Run(c, s, front);
      EpochCountsTurns(c, t, ops[n]);
      QuietTail(c, s, ops);
      if !Turns(c, t, ops[n]) { KeepsUnlock(c, t, ops[n]); }
    }
  }

  lemma QuietNothing(c: Crypto, s: Store)
    ensures Quiet(c, s, [])
  {
  }

  lemma QuietTail(c: Crypto, s: Store, ops: seq<Op>)
    requires ops != []
    ensures var n := |ops| - 1; Quiet(c, s, ops) <==> Quiet(c, s, ops[..n]) && !Turns(c, Run(c, s, ops[..n]), ops[n])
  {
    hide Turns, Run;
    var n := |ops| - 1;
    assert forall i :: 0 <= i < n ==> ops[..n][..i] == ops[..i] && ops[..n][i] == ops[i];
  }

  lemma KeepsUnlock(c: Crypto, s: Store, op: Op)
    requires Consistent(s) && s.useCrypto && !Turns(c, s, op)
    ensures Step(c, s, op).master == s.master && Step(c, s, op).deadline == s.deadline
  {
  }

  /**
  A relock armed with the epoch of an unlock ends that unlock, keys and deadline and all, if no step
  since began or ended one, whatever else happened; otherwise it changes nothing.
  */
  lemma RelockEndsOnlyItsOwn(c: Crypto, s: Store, ops: seq<Op>)
    requires Consistent(s) && s.useCrypto
    ensures var t := Run(c, s, ops); var u := Relock(t, s.epoch);
      && (Quiet(c, s, ops) ==>
            t.master == s.master && t.deadline == s.deadline && u == Ended(t) && u.scope == Locked && u.master == [])
      && (!Quiet(c, s, ops) ==> u == t)
  {
    QuietKeeps(c, s, ops);
    RunConsistent(c, s, ops);
  }

  // ----- encrypting -----

  /** Decryption undoes encryption under the same key, and public keys say whether they are compressed. */
  ghost predicate Lawful(c: Crypto) {
    && (forall k, p, iv :: |k| == KEY_SIZE ==> c.decrypt(k, c.encrypt(k, p, iv), iv) == Some(p))
    && (forall key :: c.pub(key).compressed == key.compressed)
  }

  /** Plain keys are filed under their own public keys. */
  ghost predicate Filed(c: Crypto, keys: map<KeyId, Key>) {
    forall id :: id in keys ==> c.id(c.pub(keys[id])) == id && |keys[id].secret| == KEY_SIZE && c.valid(keys[id])
  }

  lemma SealedOpens(c: Crypto, key: Key, master: Bytes)
    requires Lawful(c) && |master| == KEY_SIZE && |key.secret| == KEY_SIZE
    ensures Opens(c, master, Sealed(c, key, master))
    ensures DecryptSecret(c, master, Sealed(c, key, master).1, c.iv(c.pub(key))) == Some(key.secret)
  {
    var plain := c.decrypt(master, c.encrypt(master, key.secret, c.iv(c.pub(key))), c.iv(c.pub(key)));
    assert plain == Some(key.secret);
    assert c.pub(key).compressed == key.compressed;
    assert Key(key.secret, c.pub(key).compressed) == key;
  }

  lemma {:induction false} AllOpen(c: Crypto, master: Bytes, entries: seq<(PubKey, Bytes)>, first: bool)
    requires forall i :: 0 <= i < |entries| ==> Opens(c, master, entries[i])
    ensures Check(c, master, entries, first) == (entries != [], false)
  {
    if entries != [] {
      AllOpen(c, master, entries[1..], first);
    }
  }

  /**
  Encrypting and then unlocking with the same key succeeds whenever there are keys at all, and gives
  back every key the store held, under the same names.
  */
  lemma EncryptThenUnlock(c: Crypto, s: Store, master: Bytes, order: seq<KeyId>, scope: Scope, deadline: Option<int>)
    requires Lawful(c) && Consistent(s) && !s.useCrypto && Filed(c, s.keys) && |master| == KEY_SIZE && scope != Locked
    requires forall id :: id in s.keys ==> id in order
    ensures var e := Step(c, s, Encrypting(order, master)); var u := Unlock(c, e, order, master, scope, deadline);
      && Consistent(e) && (Verdict(c, e, order, master, scope) == Done <==> s.keys != map[])
      && e.crypted.Keys == s.keys.Keys
      && forall id :: id in s.keys ==> GetKey(c, u, id) == Some(s.keys[id])
  {
    hide Entries, Opens, Sealed, SealAll;
    var e := Encrypted(c, s, order, master);
    SealAllFiled(c, s.keys, order, master);
    EncryptedOpens(c, s, master, order);
    AllOpen(c, master, Entries(e.crypted, order), e.checked);
    var u := Unlock(c, e, order, master, scope, deadline);
    forall id | id in s.keys ensures GetKey(c, u, id) == Some(s.keys[id]) {
      GetsBack(c, s, u, id);
    }
  }

  lemma EncryptedOpens(c: Crypto, s: Store, master: Bytes, order: seq<KeyId>)
    requires Lawful(c) && Filed(c, s.keys) && |master| == KEY_SIZE && forall id :: id in s.keys ==> id in order
    ensures var entries := Entries(Encrypted(c, s, order, master).crypted, order);
      && (forall i :: 0 <= i < |entries| ==> Opens(c, master, entries[i]))
      && (entries == [] <==> s.keys == map[])
  {
    hide Opens, Sealed, SealAll;
    var e := Encrypted(c, s, order, master);
    SealAllFiled(c, s.keys, order, master);
    var entries := Entries(e.crypted, order);
    EntriesAre(e.crypted, order);
    forall i | 0 <= i < |entries| ensures Opens(c, master, entries[i]) {
      assert IsEntry(e.crypted, entries[i]);
      var id :| id in e.crypted && e.crypted[id] == entries[i];
      SealedOpens(c, s.keys[id], master);
    }
    if s.keys != map[] {
      var id :| id in s.keys;
      assert id in e.crypted && id in order;
    }
  }

  lemma GetsBack(c: Crypto, s: Store, u: Store, id: KeyId)
    requires Lawful(c) && Filed(c, s.keys) && id in s.keys && u.useCrypto && |u.master| == KEY_SIZE
    requires id in u.crypted && u.crypted[id] == Sealed(c, s.keys[id], u.master)
    ensures GetKey(c, u, id) == Some(s.keys[id])
  {
    SealedOpens(c, s.keys[id], u.master);
    assert c.pub(s.keys[id]).compressed == s.keys[id].compressed;
  }
}
