/** The connection pool and its handles, as the objects the callers hold. */
module ConnectionPool {
  import opened PoolModel

  /** What asking a connection for its health and, if need be, reconnecting it came to. */
  datatype Check = Healthy | Reconnect(ok: bool) | Threw

  /** check_connect: only a reconnect that fails makes a connection unusable; an exception counts
      as success. */
  function CheckConnect(c: Check): (usable: bool)
    ensures !usable <==> c == Reconnect(false)
  {
    match c
    case Healthy => true
    case Reconnect(ok) => ok
    case Threw => true
  }

  /** `got` is the first connection, in this order, whose reconnecting did not fail, or none. */
  ghost predicate FirstUsable(order: seq<Conn>, checks: map<Conn, Check>, got: Lease)
    requires forall c :: c in order ==> c in checks
  {
    match got
    case Null => forall c :: c in order ==> checks[c] == Reconnect(false)
    case At(conn) =>
      exists i :: 0 <= i < |order| && order[i] == conn && checks[conn] != Reconnect(false)
                  && forall j :: 0 <= j < i ==> checks[order[j]] == Reconnect(false)
  }

  /** A handle: ConnectionProxy. */
  class Proxy {
    var pool: Pool?
    var connection: Lease

    constructor (pool: Pool?, connection: Lease)
      ensures this.pool == pool && this.connection == connection
    {
      this.pool, this.connection := pool, connection;
    }

    /** Move construction from `other`, a live handle of the pool `home`. */
    constructor Move(other: Proxy, ghost home: Pool)
      requires home.Valid() && other in home.live
      modifies other, home`live
      ensures home.Valid() && this in home.live && fresh(this) && Enabled(old(home.View()), MoveTo(other, this))
      ensures home.View() == Apply(old(home.View()), MoveTo(other, this))
      ensures pool == old(other.pool) && connection == old(other.connection)
      ensures other.pool == null && other.connection == Null
    {
      pool := other.pool;
      connection := other.connection;
      new;
      other.pool := null;
      other.connection := Null;
      home.live := home.live + {this};
    }

    /** Move assignment. */
    method Assign(other: Proxy, ghost home: Pool)
      requires home.Valid() && this in home.live && other in home.live
      modifies this, other
      ensures home.Valid() && home.View() == Apply(old(home.View()), PoolModel.Assign(this, other))
      ensures pool == old(other.pool) && connection == old(other.connection)
      ensures this != other ==> other.pool == null && other.connection == Null
    {
      if this == other {
        return;
      }
      pool := other.pool;
      connection := other.connection;
      other.pool := null;
      other.connection := Null;
    }

    /** The destructor. */
    method Destroy(ghost home: Pool)
      requires home.Valid() && this in home.live
      modifies home
      ensures home.Valid() && home.View() == Apply(old(home.View()), PoolModel.Destroy(this))
    {
      if pool != null {
        pool.Free(connection);
      }
      home.live := home.live - {this};
    }

    method IsValid(ghost home: Pool) returns (valid: bool)
      requires home.Valid() && this in home.live
      ensures valid <==> PoolModel.Valid(home.View(), this)
    {
      if pool != null && connection.At? {
        valid := connection.conn in pool.busy;
      } else {
        valid := false;
      }
    }
  }

  class Pool {
    var idle: map<Conn, Conn>
    var busy: map<Conn, Conn>
    ghost var live: set<Proxy>

    /** Each map owns the connection under its own address, and a live handle either belongs
        to this pool and points at a connection or has been moved from. */
    ghost predicate Valid()
      reads this, live
    {
      && (forall c :: c in idle ==> idle[c] == c) && (forall c :: c in busy ==> busy[c] == c)
      && idle.Keys !! busy.Keys
      && forall h :: h in live ==> h.pool == if h.connection.Null? then null else this
    }

    ghost function View(): State<Proxy>
      reads this, live
    {
      State(idle.Keys, busy.Keys, map h | h in live :: h.connection)
    }

    constructor (connections: seq<Conn>)
      ensures Valid() && View() == Start(set c | c in connections)
    {
      idle, busy, live := map c | c in connections :: c, map[], {};
    }

    /** get_connection. `order` is the order in which the idle map is walked, `checks` what the
        checks come to. */
    method GetConnection(order: seq<Conn>, checks: map<Conn, Check>) returns (proxy: Proxy)
      requires Valid() && (forall c :: c in order <==> c in idle) && (forall c :: c in order ==> c in checks)
      modifies this
      ensures Valid() && fresh(proxy) && FirstUsable(order, checks, proxy.connection)
      ensures proxy.connection.At? ==> proxy.connection.conn in order && checks[proxy.connection.conn] != Reconnect(false)
      ensures proxy.connection.Null? ==> forall c :: c in order ==> checks[c] == Reconnect(false)
      ensures Enabled(old(View()), Get(proxy, proxy.connection))
      ensures View() == Apply(old(View()), Get(proxy, proxy.connection))
    {
      if |order| == 0 {
        proxy := NoLease();
        return;
      }
      for i := 0 to |order|
        invariant Valid() && unchanged(this)
        invariant forall j :: 0 <= j < i ==> checks[order[j]] == Reconnect(false)
      {
        var c := order[i];
        if CheckConnect(checks[c]) {
          proxy := LeaseOut(c);
          return;
        }
      }
      proxy := NoLease();
    }

    /** The end of get_connection when a connection is usable. */
    method LeaseOut(c: Conn) returns (proxy: Proxy)
      requires Valid() && c in idle
      modifies this
      ensures Valid() && fresh(proxy) && proxy.connection == At(c)
      ensures Enabled(old(View()), Get(proxy, At(c))) && View() == Apply(old(View()), Get(proxy, At(c)))
    {
      proxy := new Proxy(this, At(c));
      busy := busy[c := idle[c]];
      idle := idle - {c};
      live := live + {proxy};
    }

    /** The end of get_connection when none is. */
    method NoLease() returns (proxy: Proxy)
      requires Valid()
      modifies this
      ensures Valid() && fresh(proxy) && proxy.connection == Null
      ensures Enabled(old(View()), Get(proxy, Null)) && View() == Apply(old(View()), Get(proxy, Null))
    {
      proxy := new Proxy(null, Null);
      live := live + {proxy};
    }

    /** release_connection with a handle, which keeps its pointers. */
    method Release(proxy: Proxy)
      requires Valid() && proxy in live
      modifies this
      ensures Valid() && View() == Apply(old(View()), PoolModel.Release(proxy))
    {
      Free(proxy.connection);
    }

    /** release_connection with the bare connection pointer. */
    method Free(connection: Lease)
      requires Valid()
      modifies this`idle, this`busy
      ensures Valid() && View() == Freed(old(View()), connection)
    {
      if connection.Null? {
        return;
      }
      var c := connection.conn;
      if c in busy {
        idle := idle[c := busy[c]];
        busy := busy - {c};
      }
    }

    /** The three size calls. */
    method Sizes() returns (all: nat, free: nat, taken: nat)
      requires Valid()
      ensures all == |View().idle + View().busy| && free == |View().idle| && taken == |View().busy|
    {
      all := |busy| + |idle|;
      free := |idle|;
      taken := |busy|;
    }
  }
}
