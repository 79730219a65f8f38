/** The connection pool: an intrusive singly linked free list and an intrusive doubly linked active list with
    a cursor. Each method is one critical section of the free list's or the active list's mutex. */
module ConnectionPool {
  import opened Lists

  /** The links and the time stamp of a connection. */
  class Connection {
    var free_next: Connection?
    var active_next: Connection?
    var active_prev: Connection?
    var active_time: int

    constructor ()
      ensures free_next == null && active_next == null && active_prev == null && active_time == 0
    {
      free_next, active_next, active_prev, active_time := null, null, null, 0;
    }
  }

  /** What the cursor of a list points to. */
  ghost function Cursor(l: List<Connection>): Connection? { if l.at < |l.items| then l.items[l.at] else null }

  class ConnectionPool {
    var free_list_head: Connection?
    var active_list_head: Connection?
    var active_list_tail: Connection?
    var active_list_lookup_cursor: Connection?
    var count: int
    const max_conn: int
    /** All connections the pool has made, and what its lists stand for. */
    ghost var all: set<Connection>
    ghost var free: seq<Connection>
    ghost var active: List<Connection>

    ghost predicate ValidFree()
      reads `free_list_head, `free, `all, all`free_next
    {
      && Distinct(free) && (forall c | c in free :: c in all)
      && (if free == [] then free_list_head == null
          else free_list_head == free[0] && free[|free| - 1].free_next == null)
      && (forall i, j | 0 <= i < j < |free| && j == i + 1 :: free[i].free_next == free[j])
    }

    /** `s` is linked both ways between head and tail, and other connections have no links. */
    ghost predicate Linked(s: seq<Connection>)
      reads `active_list_head, `active_list_tail, `all, all`active_next, all`active_prev
    {
      && Distinct(s) && (forall c | c in s :: c in all)
      && (if s == [] then active_list_head == null && active_list_tail == null
          else active_list_head == s[0] && active_list_tail == s[|s| - 1])
      && (s != [] ==> s[0].active_prev == null && s[|s| - 1].active_next == null)
      && (forall i, j | 0 <= i < j < |s| && j == i + 1 :: s[i].active_next == s[j] && s[j].active_prev == s[i])
      && (forall c | c in all && c !in s :: c.active_next == null && c.active_prev == null)
    }

    ghost predicate ValidActive()
      reads this, all`active_next, all`active_prev
    {
      && Linked(active.items) && active.at <= |active.items|
      && active_list_lookup_cursor == Cursor(active)
    }

    ghost predicate Valid()
      reads this, all`free_next, all`active_next, all`active_prev
    {
      ValidFree() && ValidActive() && count == |all| && 0 <= max_conn && count <= max_conn + 1
    }

    constructor (max_conn: int)
      requires 0 <= max_conn
      ensures Valid() && this.max_conn == max_conn && all == {} && free == [] && active == List([], 0)
    {
      free_list_head, active_list_head, active_list_tail, active_list_lookup_cursor := null, null, null, null;
      count, this.max_conn, all, free, active := 0, max_conn, {}, [], List([], 0);
    }

    /** A new connection becomes one of the pool's. */
    method Join(conn: Connection)
      requires Valid() && count <= max_conn && conn !in all && conn.active_next == null && conn.active_prev == null
      modifies this`count, this`all
      ensures Valid() && all == old(all) + {conn}
    {
      count := count + 1;
      all := all + {conn};
    }

    /** A connection from the free list, or a new one if there may be more. */
    method FreeListPop() returns (conn: Connection?)
      requires Valid()
      modifies this`free_list_head, this`count, this`all, this`free
      ensures Valid()
      ensures old(free) != [] ==> conn == old(free)[0] && free == old(free)[1..] && all == old(all)
      ensures old(free) == [] ==>
        && free == []
        && if old(count) > max_conn then conn == null && all == old(all)
           else conn != null && fresh(conn) && all == old(all) + {conn}
    {
      if free_list_head != null {
        conn := free_list_head;
        free_list_head := free_list_head.free_next;
        free := free[1..];
      } else {
        if count > max_conn {
          return null;
        }
        conn := new Connection();
        Join(conn);
      }
    }

    method FreeListPush(conn: Connection)
      requires Valid() && conn in all && conn !in free
      modifies this`free_list_head, this`free, conn`free_next
      ensures Valid() && free == [conn] + old(free)
    {
      conn.free_next := free_list_head;
      free_list_head := conn;
      free := [conn] + free;
      assert forall i | 0 < i < |free| :: free[i] == old(free)[i - 1];
    }

    /** The pointer surgery of a push behind `last`. */
    method Append(conn: Connection, ghost last: Connection?)
      requires conn in all && active_list_tail == last != conn && (last == null || last in all)
      requires conn.active_next == null && conn.active_prev == null
      modifies this`active_list_head, this`active_list_tail, all`active_next, all`active_prev
      ensures active_list_tail == conn && conn.active_prev == last && conn.active_next == null
      ensures active_list_head == if last == null then conn else old(active_list_head)
      ensures last != null ==> last.active_next == conn && last.active_prev == old(last.active_prev)
      ensures forall c | c in all && c !in {conn, last} ::
                c.active_next == old(c.active_next) && c.active_prev == old(c.active_prev)
    {
      if active_list_tail == null {
        active_list_tail := conn;
        active_list_head := active_list_tail;
      } else {
        active_list_tail.active_next := conn;
        conn.active_prev := active_list_tail;
        conn.active_next := null;
        active_list_tail := conn;
      }
    }

    method ActiveListPush(conn: Connection)
      requires Valid() && conn in all && conn !in active.items
      modifies this`active_list_head, this`active_list_tail, this`active, all`active_next, all`active_prev
      ensures Valid() && active == Push(old(active), conn)
    {
      ghost var s := active.items;
      assert s != [] ==> s[|s| - 1] in s;
      Append(conn, active_list_tail);
      SetActive(Push(active, conn));
    }

    /** The links are those of another list now. */
    ghost method SetActive(l: List<Connection>)
      requires ValidFree() && count == |all| && 0 <= max_conn && count <= max_conn + 1
      requires Linked(l.items) && l.at <= |l.items| && active_list_lookup_cursor == Cursor(l)
      modifies this`active
      ensures Valid() && active == l
    {
      active := l;
    }

    /** The pointer surgery of an erasure: the neighbours of `conn` are linked to each other. */
    method Bypass(conn: Connection, ghost prev: Connection?, ghost next: Connection?)
      requires conn in all && conn.active_prev == prev != conn && conn.active_next == next != conn
      requires (prev == null || prev in all) && (next == null || next in all) && (prev == next ==> prev == null)
      requires active_list_head == active_list_tail <==> prev == null && next == null
      modifies this`active_list_head, this`active_list_tail, all`active_next, all`active_prev
      ensures conn.active_next == null && conn.active_prev == null
      ensures prev != null ==> prev.active_next == next && prev.active_prev == old(prev.active_prev)
      ensures next != null ==> next.active_prev == prev && next.active_next == old(next.active_next)
      ensures forall c | c in all && c !in {conn, prev, next} ::
                c.active_next == old(c.active_next) && c.active_prev == old(c.active_prev)
      ensures active_list_head == if prev == null then next else old(active_list_head)
      ensures active_list_tail == if next == null then prev else old(active_list_tail)
    {
      if active_list_tail == active_list_head {
        active_list_tail := null;
        active_list_head := null;
      } else {
        if conn.active_prev != null {
          conn.active_prev.active_next := conn.active_next;
        } else {
          active_list_head := conn.active_next;
          if active_list_head != null {
            active_list_head.active_prev := null;
          }
        }
        if conn.active_next != null {
          conn.active_next.active_prev := conn.active_prev;
        } else {
          active_list_tail := conn.active_prev;
          if active_list_tail != null {
            active_list_tail.active_next := null;
          }
        }
      }
      conn.active_next := null;
      conn.active_prev := null;
    }

    method Unlink(conn: Connection, ghost s: seq<Connection>, ghost i: nat)
      requires Linked(s) && i < |s| && s[i] == conn
      modifies this`active_list_head, this`active_list_tail, all`active_next, all`active_prev
      ensures Linked(Remove(s, i))
    {
      ghost var prev := if i > 0 then s[i - 1] else null;
      ghost var next := if i + 1 < |s| then s[i + 1] else null;
      assert i > 0 ==> prev in s;
      assert i + 1 < |s| ==> next in s;
      Bypass(conn, prev, next);
      DistinctRemove(s, i);
      ghost var r := Remove(s, i);
      forall a, b | 0 <= a < b < |r| && b == a + 1 ensures r[a].active_next == r[b] && r[b].active_prev == r[a] {
        if b < i {
          assert r[a] == s[a] && r[b] == s[b];
        } else if a >= i {
          assert r[a] == s[a + 1] && r[b] == s[b + 1];
        } else {
          assert r[a] == prev && r[b] == next;
        }
      }
    }

    /** Before an erasure the cursor leaves the connection. */
    method LeaveCursor(conn: Connection)
      requires ValidActive() && conn in active.items
      modifies this`active_list_lookup_cursor
      ensures active_list_lookup_cursor == Cursor(Erase(active, conn))
    {
      EraseCursor(active, conn);
      ghost var s, i := active.items, IndexOf(active.items, conn);
      assert i + 1 < |s| ==> conn.active_next == s[i + 1];
      if conn == active_list_lookup_cursor {
        active_list_lookup_cursor := conn.active_next;
      }
    }

    method ActiveListErase(conn: Connection)
      requires Valid() && conn in active.items
      modifies this`active_list_head, this`active_list_tail, this`active_list_lookup_cursor, this`active
      modifies all`active_next, all`active_prev
      ensures Valid() && active == Erase(old(active), conn)
    {
      LeaveCursor(conn);
      Unlink(conn, active.items, IndexOf(active.items, conn));
      SetActive(Erase(active, conn));
    }

    method ActiveListUpdate(conn: Connection)
      requires Valid() && conn in active.items
      modifies this`active_list_head, this`active_list_tail, this`active_list_lookup_cursor, this`active
      modifies all`active_next, all`active_prev
      ensures Valid() && active == Push(Erase(old(active), conn), conn)
    {
      DistinctRemove(active.items, IndexOf(active.items, conn));
      ActiveListErase(conn);
      ActiveListPush(conn);
    }

    method ActiveListEmpty() returns (empty: bool)
      requires Valid()
      ensures empty <==> active.items == []
    {
      return active_list_head == null;
    }

    method ActiveListTimeoutCheck()
      requires Valid()
      modifies this`active_list_lookup_cursor, this`active
      ensures Valid() && active == Start(old(active))
    {
      active_list_lookup_cursor := active_list_head;
      active := Start(active);
    }

    method ActiveListCheckNext() returns (conn: Connection?)
      requires Valid()
      modifies this`active_list_lookup_cursor, this`active
      ensures Valid() && active == Next(old(active))
      ensures conn == if old(active).at < |old(active).items| then old(active).items[old(active).at] else null
    {
      conn := active_list_lookup_cursor;
      if active_list_lookup_cursor != null {
        active_list_lookup_cursor := active_list_lookup_cursor.active_next;
      }
      active := Next(active);
    }
  }
}
