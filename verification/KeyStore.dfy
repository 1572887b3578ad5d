/** The key store: a fixed table of entries with an undo log, against a map with one snapshot transaction. */
module KeyStore {

  import opened Common
  import opened Words

  const MAX_TX_KEYS: nat := 8
  const KEY_BYTES: nat := 16
  const MAX_CAPACITY: nat := 65536   // what a 16-bit log index can address

  datatype Flags = Flags(active: bool, dirty: bool, transaction: bool)

  /** One table entry; the key is a 16-byte buffer. */
  datatype Entry = Entry(key: seq<char>, val: u64, flags: Flags)

  datatype Log = Log(index: nat, oldValue: u64, oldFlags: Flags)

  /** The table, the undo log of the transaction (oldest first), and whether a transaction is on. */
  datatype Store = Store(entries: seq<Entry>, logs: seq<Log>, active: bool)

  // ---- keys ----

  /** The characters before the first NUL. */
  function Text(b: seq<char>): (s: string)
    ensures |s| <= |b| && s == b[..|s|] && (forall k :: 0 <= k < |s| ==> s[k] != '\0')
    ensures |s| < |b| ==> b[|s|] == '\0'
  {
    if b == [] || b[0] == '\0' then [] else [b[0]] + Text(b[1..])
  }

  predicate NulFree(key: string) {
    forall k :: 0 <= k < |key| ==> key[k] != '\0'
  }

  /** The part of a key that is stored. */
  function Stored(key: string): string {
    if |key| < KEY_BYTES then key else key[..KEY_BYTES - 1]
  }

  /** All of it up to 15 characters, else the first 15. */
  lemma StoredIs(key: string)
    ensures Stored(key) <= key && |Stored(key)| == if |key| < 16 then |key| else 15
  {}

  /** A key buffer after a key is copied in: bytes past the terminator stay. */
  function Copied(b: seq<char>, key: string): (r: seq<char>)
    requires |b| == KEY_BYTES
    ensures |r| == KEY_BYTES
  {
    Stored(key) + ['\0'] + b[|Stored(key)| + 1..]
  }

  lemma TextIs(b: seq<char>, s: string)
    requires |s| < |b| && s == b[..|s|] && b[|s|] == '\0' && NulFree(s)
    ensures Text(b) == s
  {
    if |Text(b)| < |s| {
      assert false;
    } else if |Text(b)| > |s| {
      assert false;
    }
  }

  lemma TextOfCopied(b: seq<char>, key: string)
    requires |b| == KEY_BYTES && NulFree(key)
    ensures Text(Copied(b, key)) == Stored(key)
  {
    TextIs(Copied(b, key), Stored(key));
  }

  /** Copying in the key a buffer already holds changes nothing. */
  lemma CopiedAgain(b: seq<char>, key: string)
    requires |b| == KEY_BYTES && Text(b) == key && |key| < KEY_BYTES
    ensures Copied(b, key) == b
  {
    assert b == b[..|key|] + [b[|key|]] + b[|key| + 1..];
  }

  // ---- the operations ----

  ghost predicate Shape(es: seq<Entry>) {
    |es| <= MAX_CAPACITY && forall i :: 0 <= i < |es| ==> |es[i].key| == KEY_BYTES && |Text(es[i].key)| < KEY_BYTES
  }

  predicate Holds(e: Entry, key: string) {
    e.flags.active && Text(e.key) == key
  }

  /** find_key_index from entry i on. */
  function FindFrom(es: seq<Entry>, key: string, i: nat): (r: int)
    requires i <= |es|
    ensures r == -1 || i <= r < |es|
    ensures r >= 0 ==> Holds(es[r], key) && forall j :: i <= j < r ==> !Holds(es[j], key)
    ensures r < 0 ==> forall j :: i <= j < |es| ==> !Holds(es[j], key)
    decreases |es| - i
  {
    if i == |es| then -1 else if Holds(es[i], key) then i else FindFrom(es, key, i + 1)
  }

  /** find_key_index */
  function Find(es: seq<Entry>, key: string): (r: int)
    ensures -1 <= r < |es|
    ensures r >= 0 ==> Holds(es[r], key) && forall j :: 0 <= j < r ==> !Holds(es[j], key)
    ensures r < 0 ==> forall j :: 0 <= j < |es| ==> !Holds(es[j], key)
  {
    FindFrom(es, key, 0)
  }

  /** find_empty_slot */
  function FindEmpty(es: seq<Entry>, i: nat): (r: int)
    requires i <= |es|
    ensures r == -1 || i <= r < |es|
    ensures r >= 0 ==> !es[r].flags.active
    ensures r >= 0 ==> forall j :: i <= j < r ==> es[j].flags.active
    ensures r < 0 ==> forall j :: i <= j < |es| ==> es[j].flags.active
    decreases |es| - i
  {
    if i == |es| then -1 else if !es[i].flags.active then i else FindEmpty(es, i + 1)
  }

  /** The entry a set goes to; -1 when the table is full. */
  function Target(es: seq<Entry>, key: string): (r: int)
    ensures -1 <= r < |es|
  {
    if Find(es, key) >= 0 then Find(es, key) else FindEmpty(es, 0)
  }

  function Written(e: Entry, key: string, val: u64, tx: bool): Entry
    requires |e.key| == KEY_BYTES
  {
    Entry(Copied(e.key, key), val, Flags(true, true, tx))
  }

  /** ndb_set; None where it returns false, which leaves the store alone. */
  function Set(s: Store, key: string, val: u64): Option<Store>
    requires Shape(s.entries)
  {
    var i := Target(s.entries, key);
    if i < 0 || (s.active && |s.logs| >= MAX_TX_KEYS) then None
    else
      var e := s.entries[i];
      Some(Store(s.entries[i := Written(e, key, val, s.active)],
                 if s.active then s.logs + [Log(i, e.val, e.flags)] else s.logs, s.active))
  }

  /** ndb_get */
  function Get(es: seq<Entry>, key: string): Option<u64> {
    var i := Find(es, key);
    if i < 0 then None else Some(es[i].val)
  }

  /** ndb_tx_begin; None where it returns false. */
  function Begin(s: Store): Option<Store> {
    if s.active then None else Some(Store(s.entries, [], true))
  }

  function Unmark(es: seq<Entry>, logs: seq<Log>): (r: seq<Entry>)
    ensures |r| == |es|
    decreases |logs|
  {
    if logs == [] then es
    else
      var i := logs[0].index;
      Unmark(if i < |es| then es[i := es[i].(flags := es[i].flags.(transaction := false))] else es, logs[1..])
  }

  /** ndb_tx_commit */
  function Commit(s: Store): Store {
    if s.active then Store(Unmark(s.entries, s.logs), s.logs, false) else s
  }

  /** One undo step. */
  function Restore(es: seq<Entry>, log: Log): (r: seq<Entry>)
    ensures |r| == |es|
  {
    if log.index < |es| then es[log.index := es[log.index].(val := log.oldValue, flags := log.oldFlags)] else es
  }

  /** All undo steps, newest first. */
  function Undo(es: seq<Entry>, logs: seq<Log>): (r: seq<Entry>)
    ensures |r| == |es|
    decreases |logs|
  {
    if logs == [] then es else Undo(Restore(es, logs[|logs| - 1]), logs[..|logs| - 1])
  }

  /** ndb_tx_rollback */
  function Rollback(s: Store): Store {
    if s.active then Store(Undo(s.entries, s.logs), s.logs, false) else s
  }

  // ---- what every operation keeps ----

  /** No two active entries hold the same key. */
  ghost predicate Unique(es: seq<Entry>) {
    forall i, j :: 0 <= i < j < |es| && es[i].flags.active && es[j].flags.active ==> Text(es[i].key) != Text(es[j].key)
  }

  ghost predicate Logged(logs: seq<Log>, i: int) {
    exists k :: 0 <= k < |logs| && logs[k].index == i
  }

  /** Undoing never activates an entry, changes no key, and leaves no transaction flag. */
  ghost predicate UndoSafe(es: seq<Entry>, logs: seq<Log>) {
    SafeUndone(es, Undo(es, logs))
  }

  ghost predicate SafeUndone(es: seq<Entry>, u: seq<Entry>) {
    |u| == |es| && forall i :: 0 <= i < |es| ==>
      u[i].key == es[i].key && !u[i].flags.transaction && (u[i].flags.active ==> es[i].flags.active)
  }

  /** The tables on both sides of an undo may change together in one entry, which becomes active. */
  lemma StillSafe(es: seq<Entry>, u: seq<Entry>, es1: seq<Entry>, u1: seq<Entry>, i: int)
    requires SafeUndone(es, u) && UndoneBut(u, u1, i) && |es1| == |es|
    requires u1[i].key == es1[i].key && es1[i].flags.active && forall j :: 0 <= j < |es| && j != i ==> es1[j] == es[j]
    ensures SafeUndone(es1, u1)
  {}

  /** While a transaction is on, its log names entries of the table, all active, exactly those with the flag. */
  ghost predicate LogsFit(s: Store) {
    && (forall k :: 0 <= k < |s.logs| ==> s.logs[k].index < |s.entries|)
    && (forall i :: 0 <= i < |s.entries| ==> (s.entries[i].flags.transaction <==> Logged(s.logs, i)))
    && (forall i :: 0 <= i < |s.entries| && Logged(s.logs, i) ==> s.entries[i].flags.active)
  }

  ghost predicate Inv(s: Store) {
    && Shape(s.entries) && Unique(s.entries) && |s.logs| <= MAX_TX_KEYS
    && (s.active ==> LogsFit(s) && UndoSafe(s.entries, s.logs))
    && (!s.active ==> forall i :: 0 <= i < |s.entries| ==> !s.entries[i].flags.transaction)
  }

  // ---- single operations ----

  /** Tables that agree on which entries are active and on what the active ones hold. */
  ghost predicate SameView(a: seq<Entry>, b: seq<Entry>) {
    |a| == |b| && forall i :: 0 <= i < |a| ==>
      a[i].flags.active == b[i].flags.active &&
      (a[i].flags.active ==> Text(a[i].key) == Text(b[i].key) && a[i].val == b[i].val)
  }

  lemma SameViewGets(a: seq<Entry>, b: seq<Entry>, key: string)
    requires SameView(a, b)
    ensures Get(a, key) == Get(b, key)
  {
    var i, j := Find(a, key), Find(b, key);
    if i >= 0 { assert Holds(b[i], key); }
    if j >= 0 { assert Holds(a[j], key); }
  }

  /** A key of 16 or more characters is never found. */
  lemma LongKeyMissing(es: seq<Entry>, key: string)
    requires Shape(es) && |key| >= KEY_BYTES
    ensures Get(es, key) == None
  {}

  lemma WrittenHolds(e: Entry, key: string, val: u64, tx: bool, k: string)
    requires |e.key| == KEY_BYTES && NulFree(key)
    ensures Holds(Written(e, key, val, tx), k) <==> k == Stored(key)
  {
    TextOfCopied(e.key, key);
  }

  /** Entry i made to hold key and val, when no entry before it and no other one held that key. */
  lemma ReplacedGets(es: seq<Entry>, t: seq<Entry>, i: nat, key: string, val: u64, k: string)
    requires i < |es| == |t| && forall j :: 0 <= j < |es| && j != i ==> t[j] == es[j]
    requires (Holds(t[i], k) <==> k == key) && t[i].val == val && (Holds(es[i], k) ==> k == key)
    requires forall j :: 0 <= j < i ==> !Holds(es[j], key)
    ensures Get(t, k) == if k == key then Some(val) else Get(es, k)
  {
    var a, b := Find(es, k), Find(t, k);
    if k == key {
      assert b <= i;
    } else {
      if a >= 0 { assert Holds(t[a], k); }
      if b >= 0 { assert Holds(es[b], k); }
    }
  }

  lemma TargetIsFree(es: seq<Entry>, key: string)
    requires Target(es, key) >= 0
    ensures var i := Target(es, key);
            && (forall j :: 0 <= j < i ==> !Holds(es[j], key))
            && (es[i].flags.active ==> Text(es[i].key) == key)
  {}

  /** What a successful set does to every lookup, for keys of at most 15 characters. */
  lemma SetGets(s: Store, key: string, val: u64, k: string)
    requires Shape(s.entries) && NulFree(key) && |key| < KEY_BYTES && Set(s, key, val).Some?
    ensures Get(Set(s, key, val).value.entries, k) == if k == key then Some(val) else Get(s.entries, k)
  {
    var es, i := s.entries, Target(s.entries, key);
    var t := Set(s, key, val).value.entries;
    WrittenHolds(es[i], key, val, s.active, k);
    TargetIsFree(es, key);
    ReplacedGets(es, t, i, key, val, k);
  }

  lemma SetKeepsShape(s: Store, key: string, val: u64)
    requires Shape(s.entries) && NulFree(key) && Set(s, key, val).Some?
    ensures Shape(Set(s, key, val).value.entries)
  {
    TextOfCopied(s.entries[Target(s.entries, key)].key, key);
  }

  /** A set that succeeds can be read back exactly when the key fits the buffer. */
  lemma SetThenGetIff(s: Store, key: string, val: u64)
    requires Shape(s.entries) && NulFree(key) && Set(s, key, val).Some?
    ensures Shape(Set(s, key, val).value.entries)
    ensures Get(Set(s, key, val).value.entries, key) == Some(val) <==> |key| < 16
  {
    SetKeepsShape(s, key, val);
    if |key| < KEY_BYTES { SetGets(s, key, val, key); } else { LongKeyMissing(Set(s, key, val).value.entries, key); }
  }

  /** A set keeps keys unique exactly when the key fits, or its stored part is not taken. */
  lemma SetUniqueIff(s: Store, key: string, val: u64)
    requires Shape(s.entries) && Unique(s.entries) && NulFree(key) && Set(s, key, val).Some?
    ensures Unique(Set(s, key, val).value.entries) <==> |key| < 16 || Find(s.entries, Stored(key)) < 0
  {
    var es, i := s.entries, Target(s.entries, key);
    var t := Set(s, key, val).value.entries;
    var k := Stored(key);
    WrittenHolds(es[i], key, val, s.active, k);
    assert forall j :: 0 <= j < |es| && j != i ==> t[j] == es[j];
    var f := Find(es, k);
    if |key| < KEY_BYTES || f < 0 {
      assert forall j :: 0 <= j < |es| && j != i ==> !Holds(es[j], k);
    } else {
      assert |Text(es[i].key)| < KEY_BYTES && f != i;
      assert Holds(t[f], k) && Holds(t[i], k);
    }
  }

  // ---- undo ----

  /** Undo leaves alone what it did not log. */
  lemma {:induction false} UndoFrame(es: seq<Entry>, logs: seq<Log>, i: nat, e: Entry)
    requires i < |es| && forall k :: 0 <= k < |logs| ==> logs[k].index != i
    ensures Undo(es[i := e], logs) == Undo(es, logs)[i := e] && Undo(es, logs)[i] == es[i]
    decreases |logs|
  {
    if logs != [] {
      var last, rest := logs[|logs| - 1], logs[..|logs| - 1];
      assert last.index != i;
      assert Restore(es[i := e], last) == Restore(es, last)[i := e];
      UndoFrame(Restore(es, last), rest, i, e);
    }
  }

  lemma UndoLast(es: seq<Entry>, logs: seq<Log>, log: Log)
    ensures Undo(es, logs + [log]) == Undo(Restore(es, log), logs)
  {
    assert (logs + [log])[..|logs|] == logs;
  }

  lemma UndoKeepsKeys(es: seq<Entry>, logs: seq<Log>, i: nat)
    requires UndoSafe(es, logs) && i < |es|
    ensures Undo(es, logs)[i].key == es[i].key && (!es[i].flags.active ==> !Undo(es, logs)[i].flags.active)
  {}

  /** The table after a set, its own undo step taken: as before, but for the key bytes. */
  lemma RestoreWritten(es: seq<Entry>, i: nat, key: string, val: u64)
    requires i < |es| && |es[i].key| == KEY_BYTES
    ensures Restore(es[i := Written(es[i], key, val, true)], Log(i, es[i].val, es[i].flags))
         == es[i := es[i].(key := Copied(es[i].key, key))]
  {}

  /** Undoing after one more set gives what undoing before it gave, but for the key bytes of an inactive entry. */
  ghost predicate UndoneBut(u: seq<Entry>, u1: seq<Entry>, i: int) {
    && 0 <= i < |u| == |u1|
    && (forall j :: 0 <= j < |u| && j != i ==> u1[j] == u[j])
    && u1[i] == u[i].(key := u1[i].key)
    && (u[i].flags.active ==> u1[i] == u[i])
  }

  lemma UndoAfterSet(s: Store, key: string, val: u64)
    requires Inv(s) && s.active && NulFree(key) && |key| < KEY_BYTES && Set(s, key, val).Some?
    ensures var t, i := Set(s, key, val).value, Target(s.entries, key);
      UndoneBut(Undo(s.entries, s.logs), Undo(t.entries, t.logs), i) &&
      Undo(t.entries, t.logs)[i].key == t.entries[i].key
  {
    var t, i := Set(s, key, val).value, Target(s.entries, key);
    var e := s.entries[i];
    UndoLast(t.entries, s.logs, Log(i, e.val, e.flags));
    RestoreWritten(s.entries, i, key, val);
    TargetIsFree(s.entries, key);
    UndoRewritten(s, key, i);
  }

  /** Only the key bytes of entry i rewritten, for a key it holds already or when it is inactive. */
  lemma UndoRewritten(s: Store, key: string, i: nat)
    requires Inv(s) && s.active && NulFree(key) && |key| < KEY_BYTES && i < |s.entries|
    requires s.entries[i].flags.active ==> Text(s.entries[i].key) == key
    ensures var bytes := Copied(s.entries[i].key, key);
            var u1 := Undo(s.entries[i := s.entries[i].(key := bytes)], s.logs);
            UndoneBut(Undo(s.entries, s.logs), u1, i) && u1[i].key == bytes
  {
    var e := s.entries[i];
    UndoKeepsKeys(s.entries, s.logs, i);
    if e.flags.active {
      CopiedAgain(e.key, key);
      assert s.entries[i := e] == s.entries;
    } else {
      assert !Logged(s.logs, i);
      UndoFrame(s.entries, s.logs, i, e.(key := Copied(e.key, key)));
    }
  }

  lemma UndoneButSameView(u: seq<Entry>, u1: seq<Entry>, i: int)
    requires UndoneBut(u, u1, i)
    ensures SameView(u, u1)
  {}

  // ---- the invariant ----

  lemma LoggedMore(logs: seq<Log>, log: Log, i: int)
    ensures Logged(logs + [log], i) <==> Logged(logs, i) || i == log.index
  {
    var more := logs + [log];
    assert more[|logs|] == log;
    if Logged(logs, i) {
      var k :| 0 <= k < |logs| && logs[k].index == i;
      assert more[k].index == i;
    }
    if Logged(more, i) {
      var k :| 0 <= k < |more| && more[k].index == i;
      if k < |logs| { assert logs[k].index == i; }
    }
  }

  lemma SetKeepsLogsFit(s: Store, key: string, val: u64)
    requires Shape(s.entries) && s.active && LogsFit(s) && Set(s, key, val).Some?
    ensures LogsFit(Set(s, key, val).value)
  {
    var t, i := Set(s, key, val).value, Target(s.entries, key);
    var log := Log(i, s.entries[i].val, s.entries[i].flags);
    forall j | 0 <= j < |t.entries| ensures Logged(t.logs, j) <==> Logged(s.logs, j) || j == i {
      LoggedMore(s.logs, log, j);
    }
  }

  lemma SetKeepsUndoSafe(s: Store, key: string, val: u64)
    requires Inv(s) && s.active && NulFree(key) && |key| < KEY_BYTES && Set(s, key, val).Some?
    ensures UndoSafe(Set(s, key, val).value.entries, Set(s, key, val).value.logs)
  {
    var t, i := Set(s, key, val).value, Target(s.entries, key);
    UndoAfterSet(s, key, val);
    StillSafe(s.entries, Undo(s.entries, s.logs), t.entries, Undo(t.entries, t.logs), i);
  }

  lemma SetKeepsInv(s: Store, key: string, val: u64)
    requires Inv(s) && NulFree(key) && |key| < KEY_BYTES && Set(s, key, val).Some?
    ensures Inv(Set(s, key, val).value)
  {
    SetThenGetIff(s, key, val);
    SetUniqueIff(s, key, val);
    if s.active {
      SetKeepsLogsFit(s, key, val);
      SetKeepsUndoSafe(s, key, val);
    }
  }

  lemma BeginKeepsInv(s: Store)
    requires Inv(s) && !s.active
    ensures Inv(Begin(s).value)
  {
    assert Undo(s.entries, []) == s.entries;
  }

  /** Rolling back keeps the invariant; the lookups it leaves are those of the undone table. */
  lemma RollbackKeepsInv(s: Store)
    requires Inv(s)
    ensures Inv(Rollback(s))
  {
    if s.active {
      var u := Undo(s.entries, s.logs);
      forall i | 0 <= i < |u| ensures |u[i].key| == KEY_BYTES && |Text(u[i].key)| < KEY_BYTES {
        assert u[i].key == s.entries[i].key;
      }
    }
  }

  /** Committing only takes the transaction flag off the logged entries. */
  lemma {:induction false} UnmarkAt(es: seq<Entry>, logs: seq<Log>, i: nat)
    requires i < |es|
    ensures Unmark(es, logs)[i] ==
      if Logged(logs, i) then es[i].(flags := es[i].flags.(transaction := false)) else es[i]
    decreases |logs|
  {
    if logs != [] {
      var j := logs[0].index;
      var es1 := if j < |es| then es[j := es[j].(flags := es[j].flags.(transaction := false))] else es;
      UnmarkAt(es1, logs[1..], i);
      LoggedFirst(logs, i);
    }
  }

  lemma LoggedFirst(logs: seq<Log>, i: int)
    requires logs != []
    ensures Logged(logs, i) <==> logs[0].index == i || Logged(logs[1..], i)
  {
    if Logged(logs, i) && logs[0].index != i {
      var k :| 0 <= k < |logs| && logs[k].index == i;
      assert logs[1..][k - 1].index == i;
    }
    if Logged(logs[1..], i) {
      var k :| 0 <= k < |logs[1..]| && logs[1..][k].index == i;
      assert logs[k + 1].index == i;
    }
  }

  lemma CommitKeeps(s: Store)
    requires Inv(s)
    ensures Inv(Commit(s)) && SameView(s.entries, Commit(s).entries)
  {
    if s.active {
      forall i | 0 <= i < |s.entries|
        ensures Commit(s).entries[i] == s.entries[i].(flags := s.entries[i].flags.(transaction := false))
      {
        UnmarkAt(s.entries, s.logs, i);
      }
    }
  }

  /** The transaction flag marks exactly the entries in the active log. */
  lemma TransactionFlagIff(s: Store, i: nat)
    requires Inv(s) && i < |s.entries|
    ensures s.entries[i].flags.transaction <==> s.active && Logged(s.logs, i)
  {}

  // ---- the map it refines ----

  /** A bounded map with one snapshot transaction of at most eight writes. */
  datatype Spec = Spec(capacity: nat, now: map<string, u64>, saved: map<string, u64>, active: bool, writes: nat)

  datatype Op = SetKey(key: string, val: u64) | BeginTx | CommitTx | RollbackTx

  predicate SpecAccepts(sp: Spec, op: Op) {
    match op
    case SetKey(key, _) => (key in sp.now || |sp.now| < sp.capacity) && !(sp.active && sp.writes >= 8)
    case BeginTx => !sp.active
    case CommitTx => true
    case RollbackTx => true
  }

  function SpecPerform(sp: Spec, op: Op): Spec {
    if !SpecAccepts(sp, op) then sp
    else
      match op
      case SetKey(key, val) => sp.(now := sp.now[key := val], writes := if sp.active then sp.writes + 1 else sp.writes)
      case BeginTx => sp.(active := true, saved := sp.now, writes := 0)
      case CommitTx => sp.(active := false)
      case RollbackTx => if sp.active then sp.(active := false, now := sp.saved) else sp
  }

  predicate Accepts(s: Store, op: Op)
    requires Shape(s.entries)
  {
    match op
    case SetKey(key, val) => Set(s, key, val).Some?
    case BeginTx => Begin(s).Some?
    case CommitTx => true
    case RollbackTx => true
  }

  function Perform(s: Store, op: Op): Store
    requires Shape(s.entries)
  {
    if !Accepts(s, op) then s
    else
      match op
      case SetKey(key, val) => Set(s, key, val).value
      case BeginTx => Begin(s).value
      case CommitTx => Commit(s)
      case RollbackTx => Rollback(s)
  }

  /** The keys the table is meant for. */
  predicate FittingKey(op: Op) {
    op.SetKey? ==> NulFree(op.key) && |op.key| < 16
  }

  function Lookup(m: map<string, u64>, key: string): Option<u64> {
    if key in m then Some(m[key]) else None
  }

  ghost predicate Shows(es: seq<Entry>, m: map<string, u64>) {
    forall key :: Get(es, key) == Lookup(m, key)
  }

  ghost predicate Refines(s: Store, sp: Spec) {
    && Inv(s) && sp.capacity == |s.entries| && sp.active == s.active && Shows(s.entries, sp.now)
    && (s.active ==> sp.writes == |s.logs| && Shows(Undo(s.entries, s.logs), sp.saved))
  }

  /** The keys of the active entries below n. */
  function ActiveKeys(es: seq<Entry>, n: nat): (r: set<string>)
    requires n <= |es|
    ensures |r| <= n
  {
    if n == 0 then {}
    else if es[n - 1].flags.active then ActiveKeys(es, n - 1) + {Text(es[n - 1].key)}
    else ActiveKeys(es, n - 1)
  }

  ghost predicate HeldBelow(es: seq<Entry>, n: nat, key: string)
    requires n <= |es|
  {
    exists i :: 0 <= i < n && Holds(es[i], key)
  }

  lemma {:induction false} ActiveKeysAre(es: seq<Entry>, n: nat, key: string)
    requires n <= |es|
    ensures key in ActiveKeys(es, n) <==> HeldBelow(es, n, key)
  {
    if n > 0 {
      ActiveKeysAre(es, n - 1, key);
      if HeldBelow(es, n, key) && !Holds(es[n - 1], key) { assert HeldBelow(es, n - 1, key); }
    }
  }

  ghost predicate AllActive(es: seq<Entry>, n: nat)
    requires n <= |es|
  {
    forall i :: 0 <= i < n ==> es[i].flags.active
  }

  /** Distinct keys: as many as there are entries exactly when all are active. */
  lemma {:induction false} ActiveKeysFull(es: seq<Entry>, n: nat)
    requires Unique(es) && n <= |es|
    ensures |ActiveKeys(es, n)| == n <==> AllActive(es, n)
  {
    if n > 0 {
      ActiveKeysFull(es, n - 1);
      if es[n - 1].flags.active {
        var key := Text(es[n - 1].key);
        ActiveKeysAre(es, n - 1, key);
        assert !HeldBelow(es, n - 1, key);
        OneMoreKey(ActiveKeys(es, n - 1), key);
      }
    }
  }

  lemma OneMoreKey(keys: set<string>, key: string)
    requires key !in keys
    ensures |keys + {key}| == |keys| + 1
  {}

  /** The table is full exactly when the map has as many keys as the table has entries. */
  lemma RoomIff(es: seq<Entry>, m: map<string, u64>)
    requires Unique(es) && Shows(es, m)
    ensures FindEmpty(es, 0) >= 0 <==> |m| < |es|
  {
    var keys := ActiveKeys(es, |es|);
    ActiveKeysFull(es, |es|);
    forall key ensures key in keys <==> key in m.Keys {
      ActiveKeysAre(es, |es|, key);
      assert Get(es, key) == Lookup(m, key);
    }
    assert keys == m.Keys;
  }

  lemma SetRefines(s: Store, sp: Spec, key: string, val: u64)
    requires Refines(s, sp) && NulFree(key) && |key| < KEY_BYTES
    ensures Accepts(s, SetKey(key, val)) == SpecAccepts(sp, SetKey(key, val))
    ensures Refines(Perform(s, SetKey(key, val)), SpecPerform(sp, SetKey(key, val)))
  {
    RoomIff(s.entries, sp.now);
    assert Get(s.entries, key) == Lookup(sp.now, key);
    if Set(s, key, val).Some? {
      var t := Set(s, key, val).value;
      SetKeepsInv(s, key, val);
      forall k ensures Get(t.entries, k) == Lookup(sp.now[key := val], k) { SetGets(s, key, val, k); }
      if s.active {
        var u, u1 := Undo(s.entries, s.logs), Undo(t.entries, t.logs);
        UndoAfterSet(s, key, val);
        UndoneButSameView(u, u1, Target(s.entries, key));
        forall k ensures Get(u1, k) == Lookup(sp.saved, k) { SameViewGets(u, u1, k); }
      }
    }
  }

  lemma StepRefines(s: Store, sp: Spec, op: Op)
    requires Refines(s, sp) && FittingKey(op)
    ensures Accepts(s, op) == SpecAccepts(sp, op)
    ensures Refines(Perform(s, op), SpecPerform(sp, op))
  {
    match op
    case SetKey(key, val) => SetRefines(s, sp, key, val);
    case BeginTx => if !s.active { BeginKeepsInv(s); assert Undo(s.entries, []) == s.entries; }
    case CommitTx =>
      CommitKeeps(s);
      forall k ensures Get(Commit(s).entries, k) == Lookup(sp.now, k) {
        SameViewGets(s.entries, Commit(s).entries, k);
      }
    case RollbackTx => RollbackKeepsInv(s);
  }

  /** The results of a run of operations and the state it ends in. */
  datatype Outcome<S> = Outcome(accepted: seq<bool>, end: S)

  function RunStore(s: Store, ops: seq<Op>): Outcome<Store>
    requires Inv(s) && forall k :: 0 <= k < |ops| ==> FittingKey(ops[k])
    decreases |ops|
  {
    if ops == [] then Outcome([], s)
    else
      PerformKeepsInv(s, ops[0]);
      var r := RunStore(Perform(s, ops[0]), ops[1..]);
      Outcome([Accepts(s, ops[0])] + r.accepted, r.end)
  }

  function RunSpec(sp: Spec, ops: seq<Op>): Outcome<Spec>
    decreases |ops|
  {
    if ops == [] then Outcome([], sp)
    else
      var r := RunSpec(SpecPerform(sp, ops[0]), ops[1..]);
      Outcome([SpecAccepts(sp, ops[0])] + r.accepted, r.end)
  }

  lemma PerformKeepsInv(s: Store, op: Op)
    requires Inv(s) && FittingKey(op)
    ensures Inv(Perform(s, op))
  {
    match op
    case SetKey(key, val) => if Set(s, key, val).Some? { SetKeepsInv(s, key, val); }
    case BeginTx => if !s.active { BeginKeepsInv(s); }
    case CommitTx => CommitKeeps(s);
    case RollbackTx => RollbackKeepsInv(s);
  }

  /** Over every run the store answers as the bounded map does, and ends showing the same lookups. */
  lemma {:induction false} RunRefines(s: Store, sp: Spec, ops: seq<Op>)
    requires Refines(s, sp) && forall k :: 0 <= k < |ops| ==> FittingKey(ops[k])
    ensures RunStore(s, ops).accepted == RunSpec(sp, ops).accepted
    ensures Refines(RunStore(s, ops).end, RunSpec(sp, ops).end)
    decreases |ops|
  {
    if ops != [] {
      StepRefines(s, sp, ops[0]);
      RunRefines(Perform(s, ops[0]), SpecPerform(sp, ops[0]), ops[1..]);
    }
  }

  // ---- the code, in place ----

  /** A character of a NUL-terminated string. */
  function CharAt(key: string, k: nat): char {
    if k < |key| then key[k] else '\0'
  }

  /** What the next character says, after k equal ones. */
  lemma MatchGoesOn(b: seq<char>, key: string, k: nat)
    requires NulFree(key) && k < |b| && k <= |Text(b)| && k <= |key| && Text(b)[..k] == key[..k]
    ensures b[k] != CharAt(key, k) ==> Text(b) != key
    ensures b[k] == CharAt(key, k) == '\0' ==> Text(b) == key
    ensures b[k] == CharAt(key, k) != '\0' ==> k < |Text(b)| && k < |key| && Text(b)[..k + 1] == key[..k + 1]
  {
    var t := Text(b);
    if k < |t| { assert t[k] == b[k] && t[..k + 1] == t[..k] + [t[k]]; }
    if k < |key| { assert key[..k + 1] == key[..k] + [key[k]]; }
    if k == |t| && k == |key| { assert t == t[..k] && key == key[..k]; }
  }

  /** The 16-byte comparison loop. */
  method KeyMatches(b: seq<char>, key: string) returns (ok: bool)
    requires |b| == KEY_BYTES && |Text(b)| < KEY_BYTES && NulFree(key)
    ensures ok == (Text(b) == key)
  {
    ghost var t := Text(b);
    var k := 0;
    while k < KEY_BYTES
      invariant 0 <= k <= KEY_BYTES && k <= |t| && k <= |key| && t[..k] == key[..k]
    {
      MatchGoesOn(b, key, k);
      if b[k] != CharAt(key, k) { return false; }
      if CharAt(key, k) == '\0' { return true; }
      k := k + 1;
    }
    return true;
  }

  /** A buffer whose first characters have been overwritten. */
  function Overwritten(b: seq<char>, s: string): (r: seq<char>)
    requires |s| <= |b|
    ensures |r| == |b|
  {
    s + b[|s|..]
  }

  lemma OverwriteNext(b: seq<char>, key: string, k: nat)
    requires k < |b| && k < |key|
    ensures Overwritten(b, key[..k])[k := key[k]] == Overwritten(b, key[..k + 1])
  {
    assert key[..k + 1] == key[..k] + [key[k]];
  }

  lemma OverwriteEnds(b: seq<char>, key: string)
    requires |b| == KEY_BYTES
    ensures Overwritten(b, Stored(key))[|Stored(key)| := '\0'] == Copied(b, key)
  {}

  /** The copy loop and the terminator. */
  method CopyKey(b: seq<char>, key: string) returns (r: seq<char>)
    requires |b| == KEY_BYTES && NulFree(key)
    ensures r == Copied(b, key)
  {
    r := b;
    var k := 0;
    while k < KEY_BYTES - 1 && CharAt(key, k) != '\0'
      invariant 0 <= k < KEY_BYTES && k <= |key|
      invariant r == Overwritten(b, key[..k])
    {
      OverwriteNext(b, key, k);
      r := r[k := key[k]];
      k := k + 1;
    }
    assert Stored(key) == key[..k];
    OverwriteEnds(b, key);
    r := r[k := '\0'];
  }

  class NanoDatabase {
    const entries: array<Entry>
    const logs: array<Log>
    var count: nat
    var isActive: bool

    ghost predicate Valid()
      reads this, entries
    {
      logs.Length == MAX_TX_KEYS && count <= MAX_TX_KEYS && Shape(entries[..])
    }

    ghost function Abstract(): Store
      requires Valid()
      reads this, entries, logs
    {
      Store(entries[..], logs[..count], isActive)
    }

    /** ndb_init over a buffer of the given capacity. */
    constructor (capacity: nat)
      requires capacity <= MAX_CAPACITY
      ensures Valid() && fresh(entries) && fresh(logs) && entries.Length == capacity
      ensures Refines(Abstract(), Spec(capacity, map[], map[], false, 0))
    {
      var none := Flags(false, false, false);
      entries := new Entry[capacity](_ => Entry(seq(KEY_BYTES, _ => '\0'), 0, none));
      logs := new Log[MAX_TX_KEYS](_ => Log(0, 0, none));
      count, isActive := 0, false;
      new;
      assert forall i :: 0 <= i < capacity ==> entries[..][i] == Entry(seq(KEY_BYTES, _ => '\0'), 0, none);
    }

    method BeginTransaction() returns (ok: bool)
      requires Valid()
      modifies this
      ensures Valid() && ok == old(Begin(Abstract())).Some?
      ensures Abstract() == if ok then old(Begin(Abstract())).value else old(Abstract())
    {
      if isActive { return false; }
      count := 0;
      isActive := true;
      return true;
    }

    method FindKeyIndex(key: string) returns (r: int)
      requires Valid() && NulFree(key)
      ensures r == Find(entries[..], key)
    {
      for i := 0 to entries.Length
        invariant FindFrom(entries[..], key, i) == Find(entries[..], key)
      {
        var e := entries[i];
        assert e == entries[..][i];
        if e.flags.active {
          var same := KeyMatches(e.key, key);
          if same { return i; }
        }
      }
      return -1;
    }

    method FindEmptySlot() returns (r: int)
      requires Valid()
      ensures r == FindEmpty(entries[..], 0)
    {
      for i := 0 to entries.Length
        invariant FindEmpty(entries[..], i) == FindEmpty(entries[..], 0)
      {
        if !entries[i].flags.active { return i; }
      }
      return -1;
    }

    method Write(key: string, val: u64) returns (ok: bool)
      requires Valid() && NulFree(key)
      modifies this`count, entries, logs
      ensures Valid() && ok == old(Set(Abstract(), key, val)).Some?
      ensures Abstract() == if ok then old(Set(Abstract(), key, val)).value else old(Abstract())
    {
      ghost var s := Abstract();
      var i := FindKeyIndex(key);
      if i < 0 {
        i := FindEmptySlot();
        if i < 0 { return false; }
      }
      var e := entries[i];
      assert e == s.entries[i];
      if isActive {
        if count >= MAX_TX_KEYS { return false; }
        logs[count] := Log(i, e.val, e.flags);
        count := count + 1;
        assert logs[..count] == s.logs + [Log(i, e.val, e.flags)];
      }
      var k := CopyKey(e.key, key);
      entries[i] := Entry(k, val, Flags(true, true, isActive));
      assert entries[..] == s.entries[i := Written(e, key, val, isActive)];
      SetThenGetIff(s, key, val);
      return true;
    }

    method Read(key: string) returns (r: Option<u64>)
      requires Valid() && NulFree(key)
      ensures r == Get(entries[..], key)
    {
      var i := FindKeyIndex(key);
      if i < 0 { return None; }
      return Some(entries[i].val);
    }

    method CommitTransaction()
      requires Valid()
      modifies this`isActive, entries
      ensures Valid() && Abstract() == old(Commit(Abstract()))
    {
      if !isActive { return; }
      ghost var goal := Unmark(entries[..], logs[..count]);
      for i := 0 to count
        invariant Shape(entries[..]) && Unmark(entries[..], logs[i..count]) == goal
        invariant logs[..count] == old(logs[..count])
      {
        assert logs[i..count][0] == logs[i] && logs[i..count][1..] == logs[i + 1..count];
        var index := logs[i].index;
        if index < entries.Length {
          ghost var es := entries[..];
          entries[index] := entries[index].(flags := entries[index].flags.(transaction := false));
          assert entries[..] == es[index := es[index].(flags := es[index].flags.(transaction := false))];
        }
      }
      assert logs[count..count] == [];
      isActive := false;
    }

    method RollbackTransaction()
      requires Valid()
      modifies this`isActive, entries
      ensures Valid() && Abstract() == old(Rollback(Abstract()))
    {
      if !isActive { return; }
      ghost var goal := Undo(entries[..], logs[..count]);
      var i := count - 1;
      while i >= 0
        invariant -1 <= i < count && Shape(entries[..]) && Undo(entries[..], logs[..i + 1]) == goal
        invariant logs[..count] == old(logs[..count])
      {
        assert logs[..i + 1][..i] == logs[..i];
        var log := logs[i];
        if log.index < entries.Length {
          ghost var es := entries[..];
          entries[log.index] := entries[log.index].(val := log.oldValue, flags := log.oldFlags);
          assert entries[..] == Restore(es, log);
        }
        i := i - 1;
      }
      assert logs[..0] == [];
      isActive := false;
    }
  }
}
