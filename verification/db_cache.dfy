/**
 * The direct-mapped row cache of db.c over an abstract table. SQLite's answers
 * (row order, errors) and the cleanup script's deletions are inputs. `latest`
 * is history: the row of the last successful insert of each port.
 */
module DbCache {
  import opened Bytes
  import opened PtpMessage
  import opened Wrappers

  const CACHE_SIZE: nat := 256
  const DESCRIPTION_SIZE: nat := 1500
  const EINVAL: int := -22
  const ENODATA: int := -61
  const FAILURE: int := -1

  /** A secret with room for its terminator in `char[64]`. */
  type Secret = s: seq<u8> | |s| < 64 && 0 !in s

  datatype Row = Row(policy: u32, offset: u64, visible: bool, description: seq<u8>, secret: Secret)

  datatype Slot = Slot(valid: bool, port: PortId, row: Row)

  datatype Db = Db(cache: seq<Slot>, store: map<PortId, Row>, latest: map<PortId, Row>)

  /** The SQLite call that fails, if any. */
  datatype Fault = NoFault | PrepareFails | StepFails | FinishFails

  function Hash(port: PortId): (h: nat)
    ensures h < CACHE_SIZE
  {
    (port.clockId + port.port) % TWO64 % CACHE_SIZE
  }

  /** No clock and no port may use the all-zeros or all-ones identity. */
  predicate ValidPort(port: PortId) {
    port.clockId != 0 && port.clockId != TWO64 - 1 && port.port != 0 && port.port != 0xffff
  }

  predicate Hit(db: Db, port: PortId)
    requires |db.cache| == CACHE_SIZE
  {
    var slot := db.cache[Hash(port)];
    slot.port == port && slot.valid
  }

  function Load(db: Db, port: PortId): Db
    requires |db.cache| == CACHE_SIZE && port in db.store
  {
    db.(cache := db.cache[Hash(port) := Slot(true, port, db.store[port])])
  }

  function Lookup(db: Db, port: PortId, fault: Fault): (Db, int)
    requires |db.cache| == CACHE_SIZE
  {
    if !ValidPort(port) then (db, EINVAL)
    else if Hit(db, port) then (db, 0)
    else if fault == PrepareFails || fault == StepFails then (db, FAILURE)
    else if port !in db.store then (db, ENODATA)
    else (Load(db, port), if fault == FinishFails then FAILURE else 0)
  }

  function Insert(db: Db, port: PortId, row: Row, fault: Fault): (Db, int)
    requires |db.cache| == CACHE_SIZE
  {
    if !ValidPort(port) || |row.description| > DESCRIPTION_SIZE then (db, EINVAL)
    else
      var invalidated := db.(cache := db.cache[Hash(port) := db.cache[Hash(port)].(valid := false)]);
      if fault != NoFault || port in db.store then (invalidated, FAILURE)
      else (invalidated.(store := db.store[port := row], latest := db.latest[port := row]), 0)
  }

  /** Loads the first `n` rows that the query returned. */
  function LoadAll(db: Db, order: seq<PortId>): (loaded: Db)
    requires |db.cache| == CACHE_SIZE && forall p :: p in order ==> p in db.store
    ensures |loaded.cache| == CACHE_SIZE && loaded.store == db.store && loaded.latest == db.latest
  {
    if order == [] then db else Load(LoadAll(db, order[..|order| - 1]), order[|order| - 1])
  }

  /** `order` is a result of the query for the newest visible rows. */
  predicate IsPage(db: Db, order: seq<PortId>, length: nat) {
    && |order| <= length
    && (forall p :: p in order ==> p in db.store && db.store[p].visible)
    && forall i, j :: 0 <= i < j < |order| ==> order[i] != order[j]
  }

  function Delete(db: Db, ports: set<PortId>): Db {
    db.(store := db.store - ports)
  }

  // ---- Runs

  datatype Op =
    | DoGet(port: PortId, fault: Fault)
    | DoSet(port: PortId, row: Row, fault: Fault)
    | DoGetRecent(order: seq<PortId>, length: nat)
    | DoDelete(ports: set<PortId>)

  predicate Possible(db: Db, op: Op) {
    op.DoGetRecent? ==> IsPage(db, op.order, op.length)
  }

  function Step(db: Db, op: Op): (next: Db)
    requires |db.cache| == CACHE_SIZE && Possible(db, op)
    ensures |next.cache| == CACHE_SIZE
  {
    match op
    case DoGet(port, fault) => Lookup(db, port, fault).0
    case DoSet(port, row, fault) => Insert(db, port, row, fault).0
    case DoGetRecent(order, _) => LoadAll(db, order)
    case DoDelete(ports) => Delete(db, ports)
  }

  predicate PossibleRun(db: Db, ops: seq<Op>)
    requires |db.cache| == CACHE_SIZE
    decreases |ops|
  {
    ops != [] ==> Possible(db, ops[0]) && PossibleRun(Step(db, ops[0]), ops[1..])
  }

  function Run(db: Db, ops: seq<Op>): (end: Db)
    requires |db.cache| == CACHE_SIZE && PossibleRun(db, ops)
    ensures |end.cache| == CACHE_SIZE
    decreases |ops|
  {
    if ops == [] then db else Run(Step(db, ops[0]), ops[1..])
  }

  /** Valid slots sit at their key's hash and hold its latest insert, as does the table. */
  ghost predicate Coherent(db: Db) {
    && |db.cache| == CACHE_SIZE
    && (forall i :: 0 <= i < CACHE_SIZE && db.cache[i].valid ==>
          var slot := db.cache[i];
          Hash(slot.port) == i && slot.port in db.latest && slot.row == db.latest[slot.port])
    && forall p :: p in db.store ==> p in db.latest && db.store[p] == db.latest[p]
  }

  lemma LoadKeepsCoherent(db: Db, port: PortId)
    requires Coherent(db) && port in db.store
    ensures Coherent(Load(db, port))
  {
    hide Hash;
  }

  lemma {:induction false} LoadAllKeepsCoherent(db: Db, order: seq<PortId>)
    requires Coherent(db) && forall p :: p in order ==> p in db.store
    ensures Coherent(LoadAll(db, order))
  {
    if order != [] {
      LoadAllKeepsCoherent(db, order[..|order| - 1]);
      LoadKeepsCoherent(LoadAll(db, order[..|order| - 1]), order[|order| - 1]);
    }
  }

  lemma StepKeepsCoherent(db: Db, op: Op)
    requires Coherent(db) && Possible(db, op)
    ensures Coherent(Step(db, op))
  {
    hide Hash, ValidPort;
    match op
    case DoGet(port, _) =>
      if port in db.store { LoadKeepsCoherent(db, port); }
    case DoSet(port, row, fault) => InsertKeepsCoherent(db, port, row, fault);
    case DoGetRecent(order, _) => LoadAllKeepsCoherent(db, order);
    case DoDelete(_) =>
  }

  lemma InsertKeepsCoherent(db: Db, port: PortId, row: Row, fault: Fault)
    requires Coherent(db)
    ensures Coherent(Insert(db, port, row, fault).0)
  {
    hide ValidPort;
    var next := Insert(db, port, row, fault).0;
    forall i | 0 <= i < CACHE_SIZE && next.cache[i].valid
      ensures Hash(next.cache[i].port) == i && next.cache[i].port in next.latest
      ensures next.cache[i].row == next.latest[next.cache[i].port]
    {
      assert next.cache[i] == db.cache[i];
    }
  }

  lemma {:induction false} RunKeepsCoherent(db: Db, ops: seq<Op>)
    requires Coherent(db) && PossibleRun(db, ops)
    ensures Coherent(Run(db, ops))
    decreases |ops|
  {
    if ops != [] {
      StepKeepsCoherent(db, ops[0]);
      RunKeepsCoherent(Step(db, ops[0]), ops[1..]);
    }
  }

  /**
   * After any run a successful lookup yields the port's most recent successful
   * insert, cached or not, and that is the stored row whenever one is left.
   */
  lemma SuccessfulGetIsLatest(db: Db, ops: seq<Op>, port: PortId, fault: Fault)
    requires Coherent(db) && PossibleRun(db, ops)
    requires Lookup(Run(db, ops), port, fault).1 == 0
    ensures var before, after := Run(db, ops), Lookup(Run(db, ops), port, fault).0;
            var slot := after.cache[Hash(port)];
            && slot.valid && slot.port == port
            && port in before.latest && slot.row == before.latest[port]
            && (port in before.store ==> slot.row == before.store[port])
  {
    RunKeepsCoherent(db, ops);
  }

  /** Exactly when a lookup succeeds: a valid port that is cached, or stored and read without a fault. */
  lemma GetSucceedsIff(db: Db, port: PortId, fault: Fault)
    requires Coherent(db)
    ensures Lookup(db, port, fault).1 == 0 <==>
            ValidPort(port) && (Hit(db, port) || (port in db.store && fault == NoFault))
  {}

  // ---- Secrets without room for their terminator

  /**
   * What loading a secret of 64 bytes into slot `i` does beside that: its terminator
   * is stored over the low byte of the policy, the first field of the next slot.
   */
  function Terminated(db: Db, i: nat): Db
    requires i + 1 < |db.cache|
  {
    var next := db.cache[i + 1];
    db.(cache := db.cache[i + 1 := next.(row := next.row.(policy := next.row.policy / 0x100 * 0x100))])
  }

  /** The cache stays coherent if and only if the next slot holds no row, or one whose policy has no low byte. */
  lemma TerminatorKeepsCoherentIff(db: Db, i: nat)
    requires Coherent(db) && i + 1 < CACHE_SIZE
    ensures Coherent(Terminated(db, i)) <==> !db.cache[i + 1].valid || db.cache[i + 1].row.policy % 0x100 == 0
  {
    hide Hash;
    var next := Terminated(db, i).cache[i + 1];
    assert next.row.policy % 0x100 == 0;
    if db.cache[i + 1].valid && db.cache[i + 1].row.policy % 0x100 == 0 {
      assert next == db.cache[i + 1];
    }
  }

  /** Without deletions every cached row is still stored. */
  ghost predicate Backed(db: Db) {
    && |db.cache| == CACHE_SIZE
    && forall i :: 0 <= i < CACHE_SIZE && db.cache[i].valid ==> db.cache[i].port in db.store
  }

  predicate DeletesNothing(ops: seq<Op>) {
    forall i :: 0 <= i < |ops| ==> !ops[i].DoDelete?
  }

  lemma LoadKeepsBacked(db: Db, port: PortId)
    requires Backed(db) && port in db.store
    ensures Backed(Load(db, port))
  {}

  lemma {:induction false} LoadAllKeepsBacked(db: Db, order: seq<PortId>)
    requires Backed(db) && forall p :: p in order ==> p in db.store
    ensures Backed(LoadAll(db, order))
  {
    if order != [] {
      LoadAllKeepsBacked(db, order[..|order| - 1]);
      LoadKeepsBacked(LoadAll(db, order[..|order| - 1]), order[|order| - 1]);
    }
  }

  lemma {:induction false} RunKeepsBacked(db: Db, ops: seq<Op>)
    requires Backed(db) && PossibleRun(db, ops) && DeletesNothing(ops)
    ensures Backed(Run(db, ops))
    decreases |ops|
  {
    hide Hash, ValidPort;
    if ops == [] { return; }
    match ops[0] {
      case DoGet(port, _) =>
        if port in db.store { LoadKeepsBacked(db, port); }
      case DoSet(_, _, _) =>
      case DoGetRecent(order, _) => LoadAllKeepsBacked(db, order);
    }
    assert DeletesNothing(ops[1..]) by {
      assert forall i :: 0 <= i < |ops[1..]| ==> ops[1..][i] == ops[i + 1];
    }
    RunKeepsBacked(Step(db, ops[0]), ops[1..]);
  }

  /** Only valid ports are stored or cached. */
  ghost predicate Genuine(db: Db) {
    && |db.cache| == CACHE_SIZE
    && (forall p :: p in db.store ==> ValidPort(p))
    && forall i :: 0 <= i < CACHE_SIZE && db.cache[i].valid ==> ValidPort(db.cache[i].port)
  }

  lemma {:induction false} LoadAllKeepsGenuine(db: Db, order: seq<PortId>)
    requires Genuine(db) && forall p :: p in order ==> p in db.store
    ensures Genuine(LoadAll(db, order))
  {
    if order != [] { LoadAllKeepsGenuine(db, order[..|order| - 1]); }
  }

  lemma {:induction false} RunKeepsGenuine(db: Db, ops: seq<Op>)
    requires Genuine(db) && PossibleRun(db, ops)
    ensures Genuine(Run(db, ops))
    decreases |ops|
  {
    hide Hash, ValidPort;
    if ops == [] { return; }
    if ops[0].DoGetRecent? { LoadAllKeepsGenuine(db, ops[0].order); }
    RunKeepsGenuine(Step(db, ops[0]), ops[1..]);
  }

  /**
   * The cache is transparent if and only if nothing it holds has been deleted:
   * after any run, fault-free lookups answer for every port what the table holds,
   * exactly if every cached port is still stored, and without deletions it is.
   */
  lemma TransparentIffBacked(db: Db, ops: seq<Op>)
    requires Coherent(db) && Genuine(db) && PossibleRun(db, ops)
    ensures var end := Run(db, ops);
            (forall port :: Answers(end, port) == if port in end.store then Some(end.store[port]) else None)
            <==> Backed(end)
    ensures Backed(db) && DeletesNothing(ops) ==> Backed(Run(db, ops))
  {
    RunKeepsCoherent(db, ops);
    RunKeepsGenuine(db, ops);
    var end := Run(db, ops);
    if Backed(db) && DeletesNothing(ops) { RunKeepsBacked(db, ops); }
    if Backed(end) {
      forall port
        ensures Answers(end, port) == if port in end.store then Some(end.store[port]) else None
      {
        BackedAnswers(end, port);
      }
    } else {
      var i :| 0 <= i < CACHE_SIZE && end.cache[i].valid && end.cache[i].port !in end.store;
      var port := end.cache[i].port;
      assert Answers(end, port) == Some(end.cache[i].row);
    }
  }

  /** What a fault-free lookup returns. */
  function Answers(db: Db, port: PortId): Option<Row>
    requires |db.cache| == CACHE_SIZE
  {
    var (after, code) := Lookup(db, port, NoFault);
    if code == 0 then Some(after.cache[Hash(port)].row) else None
  }

  lemma BackedAnswers(db: Db, port: PortId)
    requires Coherent(db) && Genuine(db) && Backed(db)
    ensures Answers(db, port) == if port in db.store then Some(db.store[port]) else None
  {}

  lemma {:induction false} LoadedIntactIff(db: Db, order: seq<PortId>, length: nat, i: nat)
    requires Coherent(db) && IsPage(db, order, length) && i < |order|
    ensures LoadAll(db, order).cache[Hash(order[i])] == Slot(true, order[i], db.store[order[i]])
            <==> forall j :: i < j < |order| ==> Hash(order[j]) != Hash(order[i])
    decreases |order|
  {
    hide Hash;
    var last := |order| - 1;
    var front := order[..last];
    assert LoadAll(db, order) == Load(LoadAll(db, front), order[last]);
    if i < last {
      LoadedIntactIff(db, front, length, i);
      assert forall j :: i < j < last ==> front[j] == order[j];
      hide LoadAll;
      if Hash(order[last]) == Hash(order[i]) {
        assert LoadAll(db, order).cache[Hash(order[i])].port == order[last] != order[i];
      } else {
        assert LoadAll(db, order).cache[Hash(order[i])] == LoadAll(db, front).cache[Hash(order[i])];
      }
    }
  }

  /**
   * The entries of a page are cache slots, so a later row with the same hash
   * replaces an earlier one: row `i` is intact exactly if no later row collides.
   */
  lemma PageEntryIntactIff(db: Db, order: seq<PortId>, length: nat, i: nat)
    requires Coherent(db) && IsPage(db, order, length) && i < |order|
    ensures var slot := (order[i].clockId + order[i].port) % 0x1_0000_0000_0000_0000 % 256;
            LoadAll(db, order).cache[slot] == Slot(true, order[i], db.store[order[i]])
            <==> forall j :: i < j < |order| ==>
                   (order[j].clockId + order[j].port) % 0x1_0000_0000_0000_0000 % 256 != slot
  {
    LoadedIntactIff(db, order, length, i);
  }

  /**
   * An insert succeeds if and only if neither part of the port is all zeros or all
   * ones, the description has at most 1500 bytes, and the table has no such port and
   * takes the row. Then the row is found, and whatever else is stored is found as before.
   */
  lemma InsertSucceedsIff(db: Db, port: PortId, row: Row, fault: Fault)
    requires Coherent(db)
    ensures var (next, code) := Insert(db, port, row, fault);
            && Coherent(next)
            && (code == 0 <==>
                  && port.clockId != 0 && port.clockId != 0xffff_ffff_ffff_ffff && port.port != 0
                  && port.port != 0xffff && |row.description| <= 1500 && fault == NoFault && port !in db.store)
            && (code == 0 ==> Answers(next, port) == Some(row))
            && forall p :: p in db.store && p != port ==> Answers(next, p) == Answers(db, p)
  {
    InsertKeepsCoherent(db, port, row, fault);
    hide Hash;
  }

  /** The code of a lookup, and the one slot that it depends on. */
  lemma LookupCode(db: Db, port: PortId, fault: Fault)
    requires |db.cache| == CACHE_SIZE
    ensures var code := Lookup(db, port, fault).1;
            var slot := db.cache[(port.clockId + port.port) % 0x1_0000_0000_0000_0000 % 256];
            code == if port.clockId in {0, 0xffff_ffff_ffff_ffff} || port.port in {0, 0xffff} then -22
                    else if slot.valid && slot.port == port then 0
                    else if fault == PrepareFails || fault == StepFails then -1
                    else if port !in db.store then -61
                    else if fault == FinishFails then -1 else 0
  {}

  // ---- The state in place

  class DbState {
    const cache: array<Slot>
    var store: map<PortId, Row>
    ghost var latest: map<PortId, Row>

    ghost function View(): Db
      reads this, cache
    {
      Db(cache[..], store, latest)
    }

    ghost predicate Valid()
      reads this, cache
    {
      cache.Length == CACHE_SIZE && Coherent(View())
    }

    constructor (rows: map<PortId, Row>)
      ensures Valid() && fresh(cache) && store == rows && latest == rows
      ensures forall i :: 0 <= i < CACHE_SIZE ==> !cache[i].valid
    {
      cache := new Slot[CACHE_SIZE](_ => Slot(false, PortId(0, 0), Row(0, 0, false, [], [])));
      store := rows;
      latest := rows;
    }

    /** Returns the slot that holds the entry, as a pointer into the cache. */
    method Get(port: PortId, fault: Fault) returns (ret: int, entry: nat)
      requires Valid()
      modifies cache
      ensures Valid() && (View(), ret) == Lookup(old(View()), port, fault)
      ensures ret == 0 ==>
              entry < CACHE_SIZE && cache[entry].port == port && port in latest && cache[entry].row == latest[port]
    {
      hide Hash;
      StepKeepsCoherent(View(), DoGet(port, fault));
      entry := 0;
      if !ValidPort(port) { return EINVAL, entry; }
      entry := Hash(port);
      if cache[entry].port == port && cache[entry].valid { return 0, entry; }
      if fault == PrepareFails || fault == StepFails { return FAILURE, entry; }
      if port !in store { return ENODATA, entry; }
      cache[entry] := Slot(true, port, store[port]);
      ret := if fault == FinishFails then FAILURE else 0;
    }

    method Set(port: PortId, row: Row, fault: Fault) returns (ret: int)
      requires Valid()
      modifies this, cache
      ensures Valid() && (View(), ret) == Insert(old(View()), port, row, fault)
    {
      hide Hash;
      StepKeepsCoherent(View(), DoSet(port, row, fault));
      if !ValidPort(port) { return EINVAL; }
      if |row.description| > DESCRIPTION_SIZE { return EINVAL; }
      cache[Hash(port)] := cache[Hash(port)].(valid := false);
      if fault != NoFault || port in store { return FAILURE; }
      store := store[port := row];
      latest := latest[port := row];
      ret := 0;
    }

    /** Fills `entries` with slots until the rows, the page or SQLite run out. */
    method GetRecent(order: seq<PortId>, length: nat, failAt: nat) returns (ret: int, entries: seq<nat>)
      requires Valid() && IsPage(View(), order, length)
      modifies cache
      ensures ret == (if failAt < length && failAt <= |order| then FAILURE else 0)
      ensures |entries| == if failAt < |order| then failAt else |order|
      ensures forall i :: 0 <= i < |entries| ==> entries[i] == Hash(order[i])
      ensures Valid() && View() == LoadAll(old(View()), order[..|entries|])
    {
      hide Hash;
      entries := [];
      assert order[..0] == [];
      for i := 0 to length
        invariant |entries| == i <= |order| && i <= failAt
        invariant forall k :: 0 <= k < i ==> entries[k] == Hash(order[k])
        invariant View() == LoadAll(old(View()), order[..i])
        invariant Valid()
      {
        if i == failAt { return FAILURE, entries; }
        if i == |order| { return 0, entries; }
        LoadKeepsCoherent(View(), order[i]);
        assert order[..i + 1][..i] == order[..i];
        cache[Hash(order[i])] := Slot(true, order[i], store[order[i]]);
        entries := entries + [Hash(order[i])];
      }
      ret := 0;
    }

    /** Another process removes rows; the cache does not notice. */
    method DeleteRows(ports: set<PortId>)
      requires Valid()
      modifies this
      ensures Valid() && View() == Delete(old(View()), ports)
    {
      store := store - ports;
    }
  }
}
