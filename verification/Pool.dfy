/** The connection pool as one thread sees it: a free list pushed and popped in place. */
module Pool {

  /** Connections are numbered as they are created. */
  class DBConn {
    const maxConn: nat
    var freeList: seq<nat>
    var created: nat
    /** Connections closed from outside, by the server or the network. */
    var closed: set<nat>
    ghost var held: set<nat>

    constructor (maxConn: nat)
      ensures Valid() && freeList == [] && held == {} && closed == {} && this.maxConn == maxConn
    {
      this.maxConn := maxConn;
      freeList, created, held, closed := [], 0, {}, {};
    }

    /** No connection is free twice, or both free and held; the size check keeps at most
        one connection above the maximum. */
    ghost predicate Valid()
      reads this
    {
      && |freeList| <= maxConn + 1
      && (forall i :: 0 <= i < |freeList| ==> freeList[i] < created && freeList[i] !in held)
      && (forall i, j :: 0 <= i < j < |freeList| ==> freeList[i] != freeList[j])
      && (forall c :: c in held ==> c < created)
    }

    method CreateConnection() returns (conn: nat)
      modifies this`created
      ensures conn == old(created) && created == conn + 1
    {
      conn := created;
      created := created + 1;
    }

    /** Any connection may be closed at any time. */
    method CloseFromOutside(conn: nat)
      requires Valid()
      modifies this`closed
      ensures Valid() && closed == old(closed) + {conn}
    {
      closed := closed + {conn};
    }

    /** The last free connection, or a new one if there is none or it was closed. */
    method Allocate() returns (conn: nat)
      requires Valid()
      modifies this`freeList, this`created, this`held
      ensures Valid()
      ensures conn !in old(held) && held == old(held) + {conn}
      ensures old(freeList) == [] ==> freeList == []
      ensures created == if conn == old(created) then old(created) + 1 else old(created)
      ensures old(freeList) != [] ==> freeList == old(freeList[..|freeList| - 1])
      ensures conn == if old(freeList) == [] || old(freeList[|freeList| - 1]) in closed then old(created)
                      else old(freeList[|freeList| - 1])
    {
      if freeList == [] {
        conn := CreateConnection();
      } else {
        conn := freeList[|freeList| - 1];
        freeList := freeList[..|freeList| - 1];
        if conn in closed { conn := CreateConnection(); }
      }
      held := held + {conn};
    }

    /** Keeps the connection unless more than the maximum are free already. */
    method Release(conn: nat)
      requires Valid() && conn in held
      modifies this`freeList, this`held
      ensures Valid()
      ensures held == old(held) - {conn}
      ensures freeList == if |old(freeList)| > maxConn then old(freeList) else old(freeList) + [conn]
    {
      held := held - {conn};
      if |freeList| <= maxConn {
        freeList := freeList + [conn];
      }
    }
  }
}
