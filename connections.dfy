/**
 * `ConnectionManager`: the list of live websocket handles and the
 * best-effort broadcast to all of them.
 */
module Connections {
  import PyList
  import opened Alerts

  /** An open websocket; two handles are equal when they are the same connection. */
  datatype Socket = Socket(id: nat)

  /** One `send_json` attempt: the handle, the alert sent and whether the send went through. */
  datatype Delivery = Delivery(to: Socket, message: Alert, ok: bool)

  /** No handle is listed twice. */
  predicate NoDuplicates(s: seq<Socket>)
  {
    forall ws :: ws in s ==> multiset(s)[ws] <= 1
  }

  /** The effect of `disconnect(ws)` on the list: remove it if it is there. */
  function Disconnected(active: seq<Socket>, ws: Socket): seq<Socket>
  {
    if ws in active then PyList.Remove(active, ws) else active
  }

  /** `disconnect` shortens the list by one exactly when the handle was listed, taking one copy out. */
  lemma DisconnectedCounts(active: seq<Socket>, ws: Socket)
    ensures ws !in active ==> Disconnected(active, ws) == active
    ensures ws in active ==> |Disconnected(active, ws)| == |active| - 1
    ensures multiset(Disconnected(active, ws)) == multiset(active) - multiset{ws}
  {
    if ws in active {
      PyList.RemoveCounts(active, ws);
    } else {
      assert multiset(active)[ws] == 0;
    }
  }

  /**
   * A second `disconnect` of the same handle changes nothing exactly when
   * the handle was in the list at most once.
   */
  lemma DisconnectTwice(active: seq<Socket>, ws: Socket)
    ensures Disconnected(Disconnected(active, ws), ws) == Disconnected(active, ws)
        <==> multiset(active)[ws] <= 1
  {
    var once := Disconnected(active, ws);
    DisconnectedCounts(active, ws);
    if multiset(active)[ws] <= 1 {
      DisconnectedCounts(once, ws);
      assert ws !in once by {
        assert multiset(once)[ws] == 0;
      }
    } else {
      assert ws in once by {
        assert multiset(once)[ws] > 0;
      }
      DisconnectedCounts(once, ws);
      assert |Disconnected(once, ws)| != |once|;
    }
  }

  /** The handles whose send failed, in list order (the `dead` list). */
  function Failed(active: seq<Socket>, ok: seq<bool>): seq<Socket>
    requires |ok| == |active|
  {
    if active == [] then []
    else (if ok[0] then [] else [active[0]]) + Failed(active[1..], ok[1..])
  }

  /** The handles whose send went through, in list order. */
  function Survivors(active: seq<Socket>, ok: seq<bool>): seq<Socket>
    requires |ok| == |active|
  {
    if active == [] then []
    else (if ok[0] then [active[0]] else []) + Survivors(active[1..], ok[1..])
  }

  /** The dead list grows by the next handle exactly when its send fails. */
  lemma {:induction false} FailedSnoc(active: seq<Socket>, ok: seq<bool>, ws: Socket, sent: bool)
    requires |ok| == |active|
    ensures Failed(active + [ws], ok + [sent]) == Failed(active, ok) + (if sent then [] else [ws])
  {
    if active != [] {
      assert (active + [ws])[1..] == active[1..] + [ws];
      assert (ok + [sent])[1..] == ok[1..] + [sent];
      FailedSnoc(active[1..], ok[1..], ws, sent);
    }
  }

  /** Every handle is either a survivor or failed. */
  lemma {:induction false} SurvivorsAndFailed(active: seq<Socket>, ok: seq<bool>)
    requires |ok| == |active|
    ensures multiset(Survivors(active, ok)) + multiset(Failed(active, ok)) == multiset(active)
  {
    if active != [] {
      SurvivorsAndFailed(active[1..], ok[1..]);
      assert active == [active[0]] + active[1..];
    }
  }

  /** A handle whose send went through survives; one whose send failed is in the dead list. */
  lemma {:induction false} OutcomeDecides(active: seq<Socket>, ok: seq<bool>, k: nat)
    requires |ok| == |active| && k < |active|
    ensures ok[k] ==> active[k] in Survivors(active, ok)
    ensures !ok[k] ==> active[k] in Failed(active, ok)
  {
    if k > 0 {
      OutcomeDecides(active[1..], ok[1..], k - 1);
    }
  }

  /** With every handle listed once, no failed handle survives. */
  lemma FailedDoNotSurvive(active: seq<Socket>, ok: seq<bool>, ws: Socket)
    requires |ok| == |active| && NoDuplicates(active)
    requires ws in Failed(active, ok)
    ensures ws !in Survivors(active, ok)
  {
    SurvivorsAndFailed(active, ok);
    assert multiset(active)[ws] <= 1;
  }

  /** The sends one broadcast makes: one per listed handle, in list order. */
  function Attempts(active: seq<Socket>, message: Alert, ok: seq<bool>): seq<Delivery>
    requires |ok| == |active|
  {
    if active == [] then []
    else [Delivery(active[0], message, ok[0])] + Attempts(active[1..], message, ok[1..])
  }

  /**
   * One send per listed handle, in list order, each with its own outcome:
   * a failed send does not stop the later ones.
   */
  lemma {:induction false} AttemptsInOrder(active: seq<Socket>, message: Alert, ok: seq<bool>)
    requires |ok| == |active|
    ensures |Attempts(active, message, ok)| == |active|
    ensures forall k :: 0 <= k < |active| ==> Attempts(active, message, ok)[k] == Delivery(active[k], message, ok[k])
  {
    if active != [] {
      AttemptsInOrder(active[1..], message, ok[1..]);
    }
  }

  /** The send log grows by one delivery per handle tried. */
  lemma AttemptsSnoc(active: seq<Socket>, message: Alert, ok: seq<bool>, ws: Socket, sent: bool)
    requires |ok| == |active|
    ensures Attempts(active + [ws], message, ok + [sent]) == Attempts(active, message, ok) + [Delivery(ws, message, sent)]
  {
    AttemptsInOrder(active + [ws], message, ok + [sent]);
    AttemptsInOrder(active, message, ok);
  }

  /** The list after `disconnect` is called on each handle of `dead` in turn. */
  function DisconnectAll(active: seq<Socket>, dead: seq<Socket>): seq<Socket>
  {
    if dead == [] then active else DisconnectAll(Disconnected(active, dead[0]), dead[1..])
  }

  /** Disconnecting only ever takes handles away. */
  lemma {:induction false} DisconnectAllShrinks(active: seq<Socket>, dead: seq<Socket>)
    ensures multiset(DisconnectAll(active, dead)) <= multiset(active)
  {
    if dead != [] {
      DisconnectedCounts(active, dead[0]);
      DisconnectAllShrinks(Disconnected(active, dead[0]), dead[1..]);
    }
  }

  /** Disconnecting handles other than the first one leaves the first one in place. */
  lemma {:induction false} DisconnectAllAfterFirst(ws: Socket, active: seq<Socket>, dead: seq<Socket>)
    requires ws !in dead
    ensures DisconnectAll([ws] + active, dead) == [ws] + DisconnectAll(active, dead)
  {
    if dead != [] {
      var x := dead[0];
      assert ([ws] + active)[1..] == active;
      assert Disconnected([ws] + active, x) == [ws] + Disconnected(active, x);
      DisconnectAllAfterFirst(ws, Disconnected(active, x), dead[1..]);
    }
  }

  /**
   * With every handle listed once, removing the failed handles one by one
   * leaves exactly the survivors, in their original order.
   */
  lemma {:induction false} DisconnectFailedLeavesSurvivors(active: seq<Socket>, ok: seq<bool>)
    requires |ok| == |active|
    requires NoDuplicates(active)
    ensures DisconnectAll(active, Failed(active, ok)) == Survivors(active, ok)
  {
    if active != [] {
      var ws, rest := active[0], active[1..];
      FirstIsNew(active, ok);
      DisconnectFailedLeavesSurvivors(rest, ok[1..]);
      assert active == [ws] + rest;
      if ok[0] {
        assert Failed(active, ok) == Failed(rest, ok[1..]);
        assert Survivors(active, ok) == [ws] + Survivors(rest, ok[1..]);
        DisconnectAllAfterFirst(ws, rest, Failed(rest, ok[1..]));
      } else {
        assert Failed(active, ok) == [ws] + Failed(rest, ok[1..]);
        assert Survivors(active, ok) == Survivors(rest, ok[1..]);
        assert Disconnected(active, ws) == rest;
      }
    }
  }

  /** The first handle of a list without repeats is in neither the rest of the list nor its dead list. */
  lemma FirstIsNew(active: seq<Socket>, ok: seq<bool>)
    requires |ok| == |active| && active != []
    requires NoDuplicates(active)
    ensures NoDuplicates(active[1..])
    ensures active[0] !in active[1..]
    ensures active[0] !in Failed(active[1..], ok[1..])
  {
    var ws, rest := active[0], active[1..];
    assert active == [ws] + rest;
    assert multiset(active) == multiset{ws} + multiset(rest);
    assert multiset(rest)[ws] == 0 by {
      assert multiset(active)[ws] <= 1;
    }
    forall x | x in rest ensures multiset(rest)[x] <= 1 {
      assert x in active;
    }
    SurvivorsAndFailed(rest, ok[1..]);
    assert multiset(Failed(rest, ok[1..]))[ws] == 0;
  }

  class ConnectionManager {
    /** `self.active`: the live handles, in the order they connected. */
    var active: seq<Socket>
    /** Every `send_json` attempted so far, in order, with its outcome. */
    var sent: seq<Delivery>

    constructor ()
      ensures active == [] && sent == []
    {
      active := [];
      sent := [];
    }

    /** `connect`: the accepted handle goes to the end of the list. */
    method Connect(ws: Socket)
      modifies this
      ensures active == old(active) + [ws]
      ensures sent == old(sent)
    {
      active := active + [ws];
    }

    /** `disconnect`: remove the handle if listed, otherwise do nothing. */
    method Disconnect(ws: Socket)
      modifies this
      ensures active == Disconnected(old(active), ws)
      ensures sent == old(sent)
    {
      if ws in active {
        active := PyList.Remove(active, ws);
      }
    }

    /**
     * `broadcast`: send `message` to every listed handle in order, whatever
     * happened to earlier sends, and then disconnect each handle whose
     * send failed. `ok[k]` is the outcome of the send to `active[k]`.
     */
    method Broadcast(message: Alert, ok: seq<bool>)
      requires |ok| == |active|
      modifies this
      ensures sent == old(sent) + Attempts(old(active), message, ok)
      ensures active == DisconnectAll(old(active), Failed(old(active), ok))
      ensures NoDuplicates(old(active)) ==> active == Survivors(old(active), ok)
    {
      var handles := active;
      var dead: seq<Socket> := [];
      for i := 0 to |handles|
        invariant active == handles
        invariant dead == Failed(handles[..i], ok[..i])
        invariant sent == old(sent) + Attempts(handles[..i], message, ok[..i])
      {
        assert handles[..i + 1] == handles[..i] + [handles[i]];
        assert ok[..i + 1] == ok[..i] + [ok[i]];
        FailedSnoc(handles[..i], ok[..i], handles[i], ok[i]);
        AttemptsSnoc(handles[..i], message, ok[..i], handles[i], ok[i]);
        sent := sent + [Delivery(handles[i], message, ok[i])];
        if !ok[i] {
          dead := dead + [handles[i]];
        }
      }
      assert handles[..|handles|] == handles && ok[..|ok|] == ok;
      ghost var log := sent;
      for j := 0 to |dead|
        invariant DisconnectAll(active, dead[j..]) == DisconnectAll(handles, dead)
        invariant sent == log
      {
        assert dead[j..][1..] == dead[j + 1..];
        Disconnect(dead[j]);
      }
      if NoDuplicates(old(active)) {
        DisconnectFailedLeavesSurvivors(old(active), ok);
      }
    }
  }
}
