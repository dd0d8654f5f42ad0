/** The undo-log transactions of transaction.c: a key/value store kept as an
    array of items, at most one current transaction, and an undo log whose
    newest entry is at its head.

    C strings are modelled as sequences of characters without NUL, one
    character per byte; the fixed 100-byte key and value buffers become the
    bound `IsCString`, which every operation that copies a string with strcpy
    demands of its arguments. */
module Transactions {
  import opened Wrappers
  import Search

  const MAX_KEY_LENGTH: nat := 100
  const MAX_VALUE_LENGTH: nat := 100

  datatype Item = Item(key: string, value: string)

  datatype LogEntry = LogEntry(key: string, oldValue: string, newValue: string)

  /** `log[0]` is the head of the C linked list: the newest entry. */
  datatype Transaction = Transaction(log: seq<LogEntry>, isActive: bool)

  /** `store` is dataStore[0 .. dataCount); `current == None` is a NULL currentTransaction. */
  datatype Database = Database(store: seq<Item>, current: Option<Transaction>)

  /** A string strcpy can copy into a buffer of `limit` bytes, terminator
      included: each character is one byte, none is NUL. */
  predicate IsCString(s: string, limit: nat) {
    |s| < limit && '\0' !in s && forall c :: c in s ==> (c as int) < 256
  }

  /** Every key and value fits its fixed-size buffer, as strcpy left it. */
  predicate ValidStore(store: seq<Item>) {
    forall i :: 0 <= i < |store| ==>
      IsCString(store[i].key, MAX_KEY_LENGTH) && IsCString(store[i].value, MAX_VALUE_LENGTH)
  }

  /** Every logged key and value fits its buffer. */
  predicate ValidLog(log: seq<LogEntry>) {
    forall k :: 0 <= k < |log| ==>
      && IsCString(log[k].key, MAX_KEY_LENGTH)
      && IsCString(log[k].oldValue, MAX_VALUE_LENGTH)
      && IsCString(log[k].newValue, MAX_VALUE_LENGTH)
  }

  /** The database invariant every operation keeps: all strings fit their
      buffers, and a transaction that is no longer active has an empty log. */
  predicate ValidDb(db: Database) {
    && ValidStore(db.store)
    && (db.current.Some? ==>
          && ValidLog(db.current.value.log)
          && (!db.current.value.isActive ==> db.current.value.log == []))
  }

  predicate Active(db: Database) {
    db.current.Some? && db.current.value.isActive
  }

  /** createDatabase: no items and no transaction. */
  function CreateDatabase(): (db: Database)
    ensures |db.store| == 0 && !Active(db) && db.current.None?
  {
    Database([], None)
  }

  /** createTransaction: an active transaction with an empty log. */
  function CreateTransaction(): (t: Transaction)
    ensures t.isActive && |t.log| == 0
  {
    Transaction([], true)
  }

  predicate HasKey(it: Item, key: string) {
    it.key == key
  }

  /** findData: the first item whose key matches, or None. */
  function FindData(store: seq<Item>, key: string): (r: Option<nat>)
    ensures r.Some? ==> r.value < |store| && store[r.value].key == key
    ensures r.Some? ==> forall j :: 0 <= j < r.value ==> store[j].key != key
    ensures r.None? <==> forall j :: 0 <= j < |store| ==> store[j].key != key
  {
    var p := (it: Item) => HasKey(it, key);
    var r := Search.First(store, p);
    assert r.None? ==> forall j :: 0 <= j < |store| ==> store[j].key != key by {
      if r.None? {
        forall j | 0 <= j < |store| ensures store[j].key != key {
          assert !p(store[j]);
        }
      }
    }
    r
  }

  /** The lookup finds the `i`th item when it has the key and no earlier one does. */
  lemma FindDataAt(store: seq<Item>, key: string, i: nat)
    requires i < |store| && store[i].key == key
    requires forall j :: 0 <= j < i ==> store[j].key != key
    ensures FindData(store, key) == Some(i)
  {
  }

  /** Lookups depend on the keys only. */
  lemma FindDataSameKeys(s1: seq<Item>, s2: seq<Item>, key: string)
    requires |s1| == |s2|
    requires forall j :: 0 <= j < |s1| ==> s1[j].key == s2[j].key
    ensures FindData(s1, key) == FindData(s2, key)
  {
    var r1 := FindData(s1, key);
    var r2 := FindData(s2, key);
    if r1.Some? {
      assert s2[r1.value].key == key;
    }
    if r2.Some? {
      assert s1[r2.value].key == key;
    }
  }

  /** insertData: append the item at the end; earlier items are untouched. */
  function InsertData(db: Database, key: string, value: string): (r: Database)
    requires IsCString(key, MAX_KEY_LENGTH) && IsCString(value, MAX_VALUE_LENGTH)
    ensures |r.store| == |db.store| + 1
    ensures r.store[..|db.store|] == db.store
    ensures r.store[|db.store|] == Item(key, value)
    ensures r.current == db.current
  {
    db.(store := db.store + [Item(key, value)])
  }

  /** addTransactionLog: the new entry goes on the front of the log. */
  function AddTransactionLog(t: Transaction, key: string, oldValue: string, newValue: string): (r: Transaction)
    requires IsCString(key, MAX_KEY_LENGTH)
    requires IsCString(oldValue, MAX_VALUE_LENGTH) && IsCString(newValue, MAX_VALUE_LENGTH)
    ensures |r.log| == |t.log| + 1
    ensures r.log[0] == LogEntry(key, oldValue, newValue) && r.log[1..] == t.log
    ensures r.isActive == t.isActive
  {
    t.(log := [LogEntry(key, oldValue, newValue)] + t.log)
  }

  /** startTransaction: refused while a transaction is active; otherwise a
      fresh active transaction with an empty log replaces the old one. */
  function StartTransaction(db: Database): (r: Database)
    ensures Active(r) && r.store == db.store
    ensures Active(db) ==> r == db
    ensures !Active(db) ==> r.current == Some(Transaction([], true))
  {
    if Active(db) then db else db.(current := Some(CreateTransaction()))
  }

  /** commitTransaction: the log is dropped and the transaction deactivated;
      the store is untouched. Without an active transaction nothing happens. */
  function CommitTransaction(db: Database): (r: Database)
    ensures r.store == db.store
    ensures !Active(r)
    ensures Active(db) ==> r.current == Some(Transaction([], false))
    ensures !Active(db) ==> r == db
  {
    if !Active(db) then db
    else db.(current := Some(Transaction([], false)))
  }

  /** The restoring step of rollbackTransaction for one log entry: the first
      item with the entry's key, if any, gets the entry's old value back. */
  function RestoreEntry(store: seq<Item>, e: LogEntry): (r: seq<Item>)
    ensures |r| == |store|
    ensures forall j :: 0 <= j < |store| ==> r[j].key == store[j].key
  {
    match FindData(store, e.key)
    case None => store
    case Some(i) => store[i := store[i].(value := e.oldValue)]
  }

  /** The loop of rollbackTransaction: restore each log entry, newest first. */
  function Undo(store: seq<Item>, log: seq<LogEntry>): (r: seq<Item>)
    ensures |r| == |store|
    ensures forall j :: 0 <= j < |store| ==> r[j].key == store[j].key
    decreases |log|
  {
    if |log| == 0 then store
    else Undo(RestoreEntry(store, log[0]), log[1..])
  }

  /** The old value of the oldest entry of `log` for `key`, if any. */
  function OldestOldValue(log: seq<LogEntry>, key: string): Option<string>
    decreases |log|
  {
    if |log| == 0 then None
    else match OldestOldValue(log[1..], key)
      case Some(v) => Some(v)
      case None => if log[0].key == key then Some(log[0].oldValue) else None
  }

  /** What rollback leaves in slot `i`: the first item with a logged key gets
      the old value of that key's oldest log entry; every other item is kept. */
  function RolledBack(store: seq<Item>, log: seq<LogEntry>, i: nat): Item
    requires i < |store|
  {
    var key := store[i].key;
    if FindData(store, key) == Some(i) && OldestOldValue(log, key).Some?
    then store[i].(value := OldestOldValue(log, key).value)
    else store[i]
  }

  /** The undo loop matches the reference description item by item. */
  lemma {:induction false} UndoRestoresOldest(store: seq<Item>, log: seq<LogEntry>)
    ensures forall i :: 0 <= i < |store| ==> Undo(store, log)[i] == RolledBack(store, log, i)
    decreases |log|
  {
    if |log| > 0 {
      var e := log[0];
      var s1 := RestoreEntry(store, e);
      UndoRestoresOldest(s1, log[1..]);
      forall i | 0 <= i < |store|
        ensures Undo(store, log)[i] == RolledBack(store, log, i)
      {
        var key := store[i].key;
        FindDataSameKeys(s1, store, key);
        if key == e.key && FindData(store, key) == Some(i) {
          assert s1[i] == store[i].(value := e.oldValue);
        } else if FindData(store, key) != Some(i) {
          assert s1[i] == store[i];
        } else {
          assert s1[i] == store[i];
        }
      }
    }
  }

  /** rollbackTransaction: every logged key's first item gets back the value
      it had before the transaction's first update of it; nothing else in the
      store changes; the transaction ends with an empty log. Without an active
      transaction nothing happens. */
  function RollbackTransaction(db: Database): (r: Database)
    ensures !Active(r) && |r.store| == |db.store|
    ensures Active(db) ==> r.current == Some(Transaction([], false))
    ensures Active(db) ==> forall i :: 0 <= i < |db.store| ==>
      r.store[i] == RolledBack(db.store, db.current.value.log, i)
    ensures !Active(db) ==> r == db
  {
    if !Active(db) then db
    else
      UndoRestoresOldest(db.store, db.current.value.log);
      Database(Undo(db.store, db.current.value.log), Some(Transaction([], false)))
  }

  /** updateData. Without an active transaction it does nothing. Otherwise a
      missing key is first inserted with the new value (so its logged old
      value is the new value); then the first item with the key gets the new
      value and the change goes on the front of the log. */
  function UpdateData(db: Database, key: string, newValue: string): (r: Database)
    requires IsCString(key, MAX_KEY_LENGTH) && IsCString(newValue, MAX_VALUE_LENGTH)
    requires ValidStore(db.store)
    ensures !Active(db) ==> r == db
    ensures Active(db) ==> Active(r)
    ensures ValidStore(r.store)
    ensures Active(db) && FindData(db.store, key).Some? ==>
      var i := FindData(db.store, key).value;
      && r.store == db.store[i := Item(key, newValue)]
      && r.current.value.log == [LogEntry(key, db.store[i].value, newValue)] + db.current.value.log
    ensures Active(db) && FindData(db.store, key).None? ==>
      && r.store == db.store + [Item(key, newValue)]
      && r.current.value.log == [LogEntry(key, newValue, newValue)] + db.current.value.log
  {
    if !Active(db) then db
    else
      var db1 := if FindData(db.store, key).None? then InsertData(db, key, newValue) else db;
      assert FindData(db1.store, key).Some?;
      var i := FindData(db1.store, key).value;
      var oldValue := db1.store[i].value;
      var t := AddTransactionLog(db1.current.value, key, oldValue, newValue);
      Database(db1.store[i := db1.store[i].(value := newValue)], Some(t))
  }

  /** Applying a sequence of (key, value) updates in order. */
  function UpdateAll(db: Database, updates: seq<(string, string)>): (r: Database)
    requires forall u :: u in updates ==> IsCString(u.0, MAX_KEY_LENGTH) && IsCString(u.1, MAX_VALUE_LENGTH)
    requires ValidStore(db.store)
    ensures ValidStore(r.store) && Active(r) == Active(db)
    decreases |updates|
  {
    if |updates| == 0 then db
    else
      var init := updates[..|updates| - 1];
      assert forall u :: u in init ==> u in updates;
      UpdateData(UpdateAll(db, init), updates[|updates| - 1].0, updates[|updates| - 1].1)
  }

  /** A new database satisfies the invariant. */
  lemma CreateDatabaseValid()
    ensures ValidDb(CreateDatabase())
  {
  }

  /** Inserting keeps the invariant. */
  lemma InsertDataKeepsValid(db: Database, key: string, value: string)
    requires ValidDb(db)
    requires IsCString(key, MAX_KEY_LENGTH) && IsCString(value, MAX_VALUE_LENGTH)
    ensures ValidDb(InsertData(db, key, value))
  {
  }

  /** After an insert the key is found: at its first earlier item if there
      was one, otherwise at the new last item; every other key is found
      where it was. */
  lemma FindAfterInsert(db: Database, key: string, value: string, other: string)
    requires IsCString(key, MAX_KEY_LENGTH) && IsCString(value, MAX_VALUE_LENGTH)
    ensures var s := InsertData(db, key, value).store;
      FindData(s, key) == if FindData(db.store, key).Some? then FindData(db.store, key) else Some(|db.store|)
    ensures var s := InsertData(db, key, value).store;
      other != key ==> FindData(s, other) == FindData(db.store, other)
  {
    var s := InsertData(db, key, value).store;
    assert forall j :: 0 <= j < |db.store| ==> s[j] == db.store[j];
    if FindData(db.store, key).None? {
      FindDataAt(s, key, |db.store|);
    }
  }

  /** Starting a transaction keeps the invariant. */
  lemma StartTransactionKeepsValid(db: Database)
    requires ValidDb(db)
    ensures ValidDb(StartTransaction(db))
  {
  }

  /** Committing keeps the invariant. */
  lemma CommitTransactionKeepsValid(db: Database)
    requires ValidDb(db)
    ensures ValidDb(CommitTransaction(db))
  {
  }

  /** Restoring one valid log entry keeps every string within its buffer. */
  lemma RestoreEntryKeepsValid(store: seq<Item>, e: LogEntry)
    requires ValidStore(store)
    requires IsCString(e.key, MAX_KEY_LENGTH) && IsCString(e.oldValue, MAX_VALUE_LENGTH)
    ensures ValidStore(RestoreEntry(store, e))
  {
    var r := RestoreEntry(store, e);
    forall j | 0 <= j < |r|
      ensures IsCString(r[j].key, MAX_KEY_LENGTH) && IsCString(r[j].value, MAX_VALUE_LENGTH)
    {
      assert r[j].key == store[j].key;
      assert r[j] == store[j] || r[j].value == e.oldValue;
    }
  }

  /** The undo loop writes only logged old values, so it keeps every string
      within its buffer. */
  lemma {:induction false} UndoKeepsValid(store: seq<Item>, log: seq<LogEntry>)
    requires ValidStore(store) && ValidLog(log)
    ensures ValidStore(Undo(store, log))
    decreases |log|
  {
    if |log| > 0 {
      RestoreEntryKeepsValid(store, log[0]);
      assert ValidLog(log[1..]) by {
        forall k | 0 <= k < |log[1..]| ensures log[1..][k] == log[k + 1] { }
      }
      UndoKeepsValid(RestoreEntry(store, log[0]), log[1..]);
    }
  }

  /** Rolling back keeps the invariant. */
  lemma RollbackTransactionKeepsValid(db: Database)
    requires ValidDb(db)
    ensures ValidDb(RollbackTransaction(db))
  {
    if Active(db) {
      UndoKeepsValid(db.store, db.current.value.log);
      assert RollbackTransaction(db).store == Undo(db.store, db.current.value.log);
    }
  }

  /** Updating keeps the invariant: the logged old value is a value the
      store held, or the new value itself. */
  lemma UpdateDataKeepsValid(db: Database, key: string, value: string)
    requires ValidDb(db)
    requires IsCString(key, MAX_KEY_LENGTH) && IsCString(value, MAX_VALUE_LENGTH)
    ensures ValidDb(UpdateData(db, key, value))
  {
    if Active(db) {
      var r := UpdateData(db, key, value);
      var log := r.current.value.log;
      assert log[1..] == db.current.value.log;
      assert IsCString(log[0].oldValue, MAX_VALUE_LENGTH);
      forall k | 0 <= k < |log|
        ensures IsCString(log[k].key, MAX_KEY_LENGTH)
        ensures IsCString(log[k].oldValue, MAX_VALUE_LENGTH) && IsCString(log[k].newValue, MAX_VALUE_LENGTH)
      {
        if k > 0 {
          assert log[k] == db.current.value.log[k - 1];
        }
      }
    }
  }

  /** Updates of keys already in the store keep its keys and length. */
  lemma {:induction false} UpdateAllKeepsKeys(db: Database, updates: seq<(string, string)>)
    requires Active(db)
    requires forall u :: u in updates ==> IsCString(u.0, MAX_KEY_LENGTH) && IsCString(u.1, MAX_VALUE_LENGTH)
    requires ValidStore(db.store)
    requires forall u :: u in updates ==> FindData(db.store, u.0).Some?
    ensures |UpdateAll(db, updates).store| == |db.store|
    ensures forall j :: 0 <= j < |db.store| ==> UpdateAll(db, updates).store[j].key == db.store[j].key
    decreases |updates|
  {
    if |updates| > 0 {
      var init := updates[..|updates| - 1];
      assert forall u :: u in init ==> u in updates;
      UpdateAllKeepsKeys(db, init);
      var db1 := UpdateAll(db, init);
      var u := updates[|updates| - 1];
      FindDataSameKeys(db1.store, db.store, u.0);
      UpdateExistingKeepsKeys(db1, u.0, u.1);
    }
  }

  /** An update of a key already in the store keeps its keys and length. */
  lemma UpdateExistingKeepsKeys(db: Database, key: string, value: string)
    requires Active(db) && ValidStore(db.store)
    requires IsCString(key, MAX_KEY_LENGTH) && IsCString(value, MAX_VALUE_LENGTH)
    requires FindData(db.store, key).Some?
    ensures |UpdateData(db, key, value).store| == |db.store|
    ensures forall j :: 0 <= j < |db.store| ==> UpdateData(db, key, value).store[j].key == db.store[j].key
  {
  }

  /** Undoing the newest entry of an update of a key already in the store
      gives back the store from before that update. */
  lemma UndoLastUpdate(db: Database, key: string, value: string)
    requires Active(db) && ValidStore(db.store)
    requires IsCString(key, MAX_KEY_LENGTH) && IsCString(value, MAX_VALUE_LENGTH)
    requires FindData(db.store, key).Some?
    ensures
      var log := UpdateData(db, key, value).current.value.log;
      && |log| > 0
      && log[1..] == db.current.value.log
      && RestoreEntry(UpdateData(db, key, value).store, log[0]) == db.store
  {
    var db2 := UpdateData(db, key, value);
    FindDataSameKeys(db2.store, db.store, key);
  }

  /** The undo-log guarantee: when every update of an active transaction that
      started with an empty log hits a key already in the store, rollback
      gives back exactly the store the transaction started from. */
  lemma {:induction false} RollbackUndoesUpdates(db: Database, updates: seq<(string, string)>)
    requires Active(db) && db.current.value.log == []
    requires forall u :: u in updates ==> IsCString(u.0, MAX_KEY_LENGTH) && IsCString(u.1, MAX_VALUE_LENGTH)
    requires ValidStore(db.store)
    requires forall u :: u in updates ==> FindData(db.store, u.0).Some?
    ensures Active(UpdateAll(db, updates))
    ensures Undo(UpdateAll(db, updates).store, UpdateAll(db, updates).current.value.log) == db.store
    ensures RollbackTransaction(UpdateAll(db, updates)).store == db.store
    decreases |updates|
  {
    if |updates| > 0 {
      var init := updates[..|updates| - 1];
      assert forall u :: u in init ==> u in updates;
      RollbackUndoesUpdates(db, init);
      UpdateAllKeepsKeys(db, init);
      var db1 := UpdateAll(db, init);
      var u := updates[|updates| - 1];
      FindDataSameKeys(db1.store, db.store, u.0);
      UndoLastUpdate(db1, u.0, u.1);
    }
  }

  /** Rollback does not undo an update that inserted a missing key: the
      logged old value is the new value, so the item stays. */
  lemma RollbackKeepsInsertedItem()
    ensures
      var db := UpdateData(StartTransaction(CreateDatabase()), "k", "v");
      RollbackTransaction(db).store == [Item("k", "v")]
  {
    var db0 := StartTransaction(CreateDatabase());
    assert FindData(db0.store, "k").None?;
    var db := UpdateData(db0, "k", "v");
    assert db.store == [Item("k", "v")];
    assert FindData(db.store, "k") == Some(0);
  }

  /** The call sequence in main: key1 and key2 are inserted inside a transaction,
      key1 is updated and rolled back, then key2 is updated and committed. */
  lemma {:induction false} MainScenario()
    ensures
      var db0 := StartTransaction(CreateDatabase());
      var db1 := InsertData(InsertData(db0, "key1", "value1"), "key2", "value2");
      var db2 := RollbackTransaction(UpdateData(db1, "key1", "newValue1"));
      && db2.store == [Item("key1", "value1"), Item("key2", "value2")]
      && var db3 := CommitTransaction(UpdateData(StartTransaction(db2), "key2", "newValue2"));
      && db3.store == [Item("key1", "value1"), Item("key2", "newValue2")]
      && !Active(db3)
  {
    ScenarioStrings();
    var db0 := StartTransaction(CreateDatabase());
    var db1 := InsertData(InsertData(db0, "key1", "value1"), "key2", "value2");
    assert db1.store == [Item("key1", "value1"), Item("key2", "value2")];
    ScenarioRollback(db1);
    ScenarioCommit(RollbackTransaction(UpdateData(db1, "key1", "newValue1")));
  }

  /** The two keys of the call sequence in main are different strings. */
  lemma KeysDiffer()
    ensures "key1" != "key2"
  {
    assert "key1"[3] != "key2"[3];
  }

  /** The strings of the call sequence in main fit their buffers. */
  lemma ScenarioStrings()
    ensures IsCString("key1", MAX_KEY_LENGTH) && IsCString("key2", MAX_KEY_LENGTH)
    ensures IsCString("value1", MAX_VALUE_LENGTH) && IsCString("value2", MAX_VALUE_LENGTH)
    ensures IsCString("newValue1", MAX_VALUE_LENGTH) && IsCString("newValue2", MAX_VALUE_LENGTH)
  {
  }

  /** The first transaction of the call sequence in main: key1 is updated, and rollback restores it. */
  lemma ScenarioRollback(db1: Database)
    requires Active(db1) && db1.current.value.log == []
    requires db1.store == [Item("key1", "value1"), Item("key2", "value2")]
    ensures ValidStore(db1.store)
    ensures RollbackTransaction(UpdateData(db1, "key1", "newValue1")).store == db1.store
  {
    KeysDiffer();
    ScenarioStrings();
    FindDataAt(db1.store, "key1", 0);
    var u := UpdateData(db1, "key1", "newValue1");
    assert u.store == [Item("key1", "newValue1"), Item("key2", "value2")];
    FindDataAt(u.store, "key1", 0);
    FindDataAt(u.store, "key2", 1);
    var log := [LogEntry("key1", "value1", "newValue1")];
    assert u.current.value.log == log;
    assert OldestOldValue(log, "key2").None?;
    var db2 := RollbackTransaction(u);
    assert db2.store[0] == Item("key1", "value1");
    assert db2.store[1] == Item("key2", "value2");
  }

  /** The second transaction of the call sequence in main: key2 is updated and committed. */
  lemma ScenarioCommit(db2: Database)
    requires db2.store == [Item("key1", "value1"), Item("key2", "value2")]
    ensures ValidStore(db2.store)
    ensures
      var db3 := CommitTransaction(UpdateData(StartTransaction(db2), "key2", "newValue2"));
      db3.store == [Item("key1", "value1"), Item("key2", "newValue2")] && !Active(db3)
  {
    KeysDiffer();
    ScenarioStrings();
    var db2s := StartTransaction(db2);
    FindDataAt(db2s.store, "key2", 1);
  }
}
