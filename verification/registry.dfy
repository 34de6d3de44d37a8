/**
 * The in-memory registry of live websocket connections: each user id maps to
 * the set of that user's open connections. Opening the websocket (accept)
 * and sending on it are I/O; each is modelled by its outcome only.
 */
module Registry {

  type UserId = int

  /** A live connection, by identity. */
  type ConnId = int

  type Connections = map<UserId, set<ConnId>>

  /** The registry invariant: no user id maps to an empty set. */
  predicate NoEmptyEntries(r: Connections) {
    forall u :: u in r ==> r[u] != {}
  }

  /** Only the entry of user `u` may differ between `r` and `r'`. */
  ghost predicate OthersUnchanged(r: Connections, r': Connections, u: UserId) {
    forall v :: v != u ==> (v in r' <==> v in r) && (v in r ==> r'[v] == r[v])
  }

  /**
   * Registers connection `c` for user `u`, creating the user's set when absent.
   * When the handshake (`accepted`) fails, the exception leaves the registry as it was.
   */
  function Connect(r: Connections, u: UserId, c: ConnId, accepted: bool): (r': Connections)
    ensures !accepted ==> r' == r
    ensures accepted ==> u in r' && r'[u] == (if u in r then r[u] else {}) + {c}
    ensures OthersUnchanged(r, r', u)
    ensures NoEmptyEntries(r) ==> NoEmptyEntries(r')
  {
    if !accepted then r
    else r[u := (if u in r then r[u] else {}) + {c}]
  }

  /**
   * Removes connection `c` of user `u`, dropping the user's entry once its set
   * is empty. An unknown user or an absent connection leaves the registry as it was.
   */
  function Disconnect(r: Connections, u: UserId, c: ConnId): (r': Connections)
    ensures u !in r ==> r' == r
    ensures u in r && c !in r[u] ==> r' == r
    ensures u in r && r[u] != {} ==>
      && (u in r' <==> r[u] - {c} != {})
      && (u in r' ==> r'[u] == r[u] - {c})
    ensures OthersUnchanged(r, r', u)
    ensures NoEmptyEntries(r) ==> NoEmptyEntries(r')
  {
    if u !in r || r[u] == {} then r
    else
      var rest := r[u] - {c};
      assert c !in r[u] ==> rest == r[u] && r[u := rest] == r;
      if rest == {} then r - {u} else r[u := rest]
  }

  /**
   * Sends `payload` to every connection of user `u`, in a snapshot of the set
   * taken before sending. The connections whose send fails (`failed` is the
   * oracle for that) are disconnected afterwards; the others stay. A user
   * without an entry gets nothing.
   */
  method SendToUser<P>(r: Connections, u: UserId, payload: P, failed: set<ConnId>)
    returns (r': Connections, attempted: set<ConnId>)
    ensures u !in r || r[u] == {} ==> r' == r && attempted == {}
    ensures u in r && r[u] != {} ==> attempted == r[u]
    ensures u in r && r[u] != {} ==>
      && (u in r' <==> r[u] - failed != {})
      && (u in r' ==> r'[u] == r[u] - failed)
    ensures OthersUnchanged(r, r', u)
    ensures NoEmptyEntries(r) ==> NoEmptyEntries(r')
  {
    if u !in r || r[u] == {} {
      return r, {};
    }
    var snapshot := r[u];
    var pending := snapshot;
    var toRemove: seq<ConnId> := [];
    attempted := {};
    while pending != {}
      invariant pending <= snapshot
      invariant attempted == snapshot - pending
      invariant forall c :: c in toRemove <==> c in attempted && c in failed
      decreases pending
    {
      assert exists c :: c in pending by {
        if forall c :: c !in pending {
          assert false;
        }
      }
      var c :| c in pending;
      // the send to `c` raises exactly when `c` is in `failed`
      attempted := attempted + {c};
      if c in failed {
        toRemove := toRemove + [c];
      }
      pending := pending - {c};
    }
    r' := r;
    var i := 0;
    ghost var removed: set<ConnId> := {};
    while i < |toRemove|
      invariant 0 <= i <= |toRemove|
      invariant removed == set j | 0 <= j < i :: toRemove[j]
      invariant removed <= snapshot
      invariant u in r' <==> snapshot - removed != {}
      invariant u in r' ==> r'[u] == snapshot - removed
      invariant OthersUnchanged(r, r', u)
      invariant NoEmptyEntries(r) ==> NoEmptyEntries(r')
    {
      r' := Disconnect(r', u, toRemove[i]);
      removed := removed + {toRemove[i]};
      i := i + 1;
    }
    assert removed == snapshot * failed by {
      forall c | c in snapshot * failed ensures c in removed {
        assert c in toRemove;
        var j :| 0 <= j < |toRemove| && toRemove[j] == c;
      }
      forall c | c in removed ensures c in snapshot * failed {
        var j :| 0 <= j < |toRemove| && toRemove[j] == c;
        assert c in toRemove;
      }
    }
  }

  /** Connecting a new connection and then disconnecting it restores the registry. */
  lemma ConnectThenDisconnect(r: Connections, u: UserId, c: ConnId)
    requires NoEmptyEntries(r)
    requires u !in r || c !in r[u]
    ensures Disconnect(Connect(r, u, c, true), u, c) == r
  {
    var r1 := Connect(r, u, c, true);
    var r2 := Disconnect(r1, u, c);
    if u in r {
      assert r1[u] - {c} == r[u];
      assert r2 == r;
    } else {
      assert r1[u] == {c};
      assert r2 == r;
    }
  }

  /**
   * Two devices of one user connect, the first disconnects, then a push goes
   * out: only the second device is attempted, and no other user's entry moves.
   */
  method SecondDeviceOnly<P>(r0: Connections, u: UserId, c1: ConnId, c2: ConnId, payload: P, failed: set<ConnId>)
    returns (r': Connections, attempted: set<ConnId>)
    requires u !in r0 && c1 != c2
    ensures attempted == {c2}
    ensures OthersUnchanged(r0, r', u)
    ensures u in r' <==> c2 !in failed
    ensures u in r' ==> r'[u] == {c2}
  {
    var r1 := Connect(r0, u, c1, true);
    var r2 := Connect(r1, u, c2, true);
    var r3 := Disconnect(r2, u, c1);
    assert r3[u] == {c2};
    r', attempted := SendToUser(r3, u, payload, failed);
  }
}
