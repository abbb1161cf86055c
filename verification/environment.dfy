/**
 * What the service learns from outside. A world fixes every clock reading, every
 * database fault, every row that the cleanup removes, the memory behind buffers
 * and every result of a send; the service uses it up step by step.
 */
module Environment {
  import opened Bytes
  import opened PtpMessage
  import opened PtpSecurity
  import DbCache

  type Memory = s: seq<u8> | |s| >= 0x8000 witness seq(0x8000, _ => 0)

  /** `wild` is what the decoder makes of the memory in front of a receive buffer, if it gets there. */
  datatype Moment = Moment(
    now: u64, gone: set<PortId>, fault: DbCache.Fault, memory: Memory, wild: Result<seq<Tlv>>, sends: bool)

  type World = nat -> Moment

  /** The database with its cache, and the next step of the world. */
  datatype Env = Env(db: DbCache.Db, step: nat)

  predicate Usable(env: Env) {
    |env.db.cache| == DbCache.CACHE_SIZE
  }

  lemma CoherentIsUsable(env: Env)
    requires DbCache.Coherent(env.db)
    ensures Usable(env)
  {}

  /** `db_get`, after whatever the cleanup has just deleted. */
  function Fetch(world: World, env: Env, port: PortId): (r: (Entry, Env))
    requires Usable(env)
    ensures Usable(r.1) && r.1.step == env.step + 1
    ensures r.0.Missing? ==> r.0.code != 0
  {
    var moment := world(env.step);
    var (db, code) := DbCache.Lookup(DbCache.Delete(env.db, moment.gone), port, moment.fault);
    (if code == 0 then Found(db.cache[DbCache.Hash(port)].row) else Missing(code), Env(db, env.step + 1))
  }

  function Clock(world: World, env: Env): (u64, Env) {
    (world(env.step).now, env.(step := env.step + 1))
  }

  lemma DeleteKeepsCoherent(db: DbCache.Db, ports: set<PortId>)
    requires DbCache.Coherent(db)
    ensures DbCache.Coherent(DbCache.Delete(db, ports))
  {}

  /** A row that is found is the last one registered for its port. */
  lemma FetchFindsLatest(world: World, env: Env, port: PortId)
    requires DbCache.Coherent(env.db)
    ensures var (entry, after) := Fetch(world, env, port);
            && DbCache.Coherent(after.db) && after.db.latest == env.db.latest
            && (entry.Found? ==> port in env.db.latest && entry.row == env.db.latest[port])
  {
    hide DbCache.Hash;
    var moment := world(env.step);
    var before := DbCache.Delete(env.db, moment.gone);
    DeleteKeepsCoherent(env.db, moment.gone);
    DbCache.StepKeepsCoherent(before, DbCache.DoGet(port, moment.fault));
  }

  /** A lookup succeeds for a cached port, and for a stored one that is read without a fault. */
  lemma FetchFindsIff(world: World, env: Env, port: PortId)
    requires DbCache.Coherent(env.db)
    ensures var moment := world(env.step);
            Fetch(world, env, port).0.Found? <==>
            && DbCache.ValidPort(port)
            && (DbCache.Hit(env.db, port) ||
                (port in env.db.store && port !in moment.gone && moment.fault == DbCache.NoFault))
  {
    var moment := world(env.step);
    DeleteKeepsCoherent(env.db, moment.gone);
    DbCache.GetSucceedsIff(DbCache.Delete(env.db, moment.gone), port, moment.fault);
  }

  /** Right after a port has been found it is found again, whatever happens to the table. */
  lemma FetchFindsAgain(world: World, env: Env, port: PortId)
    requires DbCache.Coherent(env.db) && Fetch(world, env, port).0.Found?
    ensures var (entry, after) := Fetch(world, env, port);
            DbCache.ValidPort(port) && DbCache.Hit(after.db, port) && Fetch(world, after, port).0 == entry
  {
    hide DbCache.Hash, DbCache.ValidPort;
    FetchFindsLatest(world, env, port);
    var after := Fetch(world, env, port).1;
    FetchFindsLatest(world, after, port);
  }

  /** A lookup that hits leaves the cache as it is. */
  lemma HitStays(world: World, env: Env, port: PortId)
    requires DbCache.Coherent(env.db) && DbCache.ValidPort(port) && DbCache.Hit(env.db, port)
    ensures var (entry, after) := Fetch(world, env, port);
            && port in env.db.latest && entry == Found(env.db.latest[port])
            && DbCache.Hit(after.db, port) && DbCache.Coherent(after.db) && after.db.latest == env.db.latest
  {
    FetchFindsLatest(world, env, port);
  }
}
