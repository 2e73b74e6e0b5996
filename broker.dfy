/** The client registry: the broker keeps the ids of connected clients in a
    list, in connection order. Connecting appends (an id already present is
    appended again, no older session is evicted); disconnecting removes the
    first occurrence of the id. */
module Brokers {

  // ---------------------------------------------------------------------------
  // Specification of the list operations

  /** The smallest index at which `x` occurs in `s`. */
  function FirstIndex<T(==)>(s: seq<T>, x: T): (i: nat)
    requires x in s
    ensures i < |s| && s[i] == x
    ensures x !in s[..i]
  {
    if s[0] == x then 0
    else
      var i := 1 + FirstIndex(s[1..], x);
      assert s[..i] == [s[0]] + s[1..][..i - 1];
      i
  }

  /** `s` without the first occurrence of `x`, or `s` itself when `x` does
      not occur in it. */
  function RemoveFirst<T(==)>(s: seq<T>, x: T): seq<T>
  {
    if s == [] then []
    else if s[0] == x then s[1..]
    else [s[0]] + RemoveFirst(s[1..], x)
  }

  /** Removing an absent id changes nothing. */
  lemma {:induction false} RemoveFirstAbsent<T>(s: seq<T>, x: T)
    requires x !in s
    ensures RemoveFirst(s, x) == s
  {
    if s != [] {
      RemoveFirstAbsent(s[1..], x);
    }
  }

  /** Removing a present id deletes exactly the entry at its first index: the
      entries before and after it keep their order, and the length drops by
      one. */
  lemma {:induction false} RemoveFirstSplice<T>(s: seq<T>, x: T)
    requires x in s
    ensures RemoveFirst(s, x) == s[..FirstIndex(s, x)] + s[FirstIndex(s, x) + 1..]
    ensures |RemoveFirst(s, x)| == |s| - 1
  {
    if s[0] != x {
      RemoveFirstSplice(s[1..], x);
      var i := FirstIndex(s[1..], x);
      assert s[..i + 1] == [s[0]] + s[1..][..i];
      assert s[i + 2..] == s[1..][i + 1..];
    }
  }

  /** Removing an id takes one copy of it out of the multiset of entries when
      it is present, and nothing otherwise. */
  lemma {:induction false} RemoveFirstMultiset<T>(s: seq<T>, x: T)
    ensures multiset(RemoveFirst(s, x)) == multiset(s) - multiset{x}
  {
    if s == [] {
    } else if s[0] == x {
      assert s == [s[0]] + s[1..];
    } else {
      RemoveFirstMultiset(s[1..], x);
      assert s == [s[0]] + s[1..];
    }
  }

  /** An id connected once is no longer connected once it is removed. */
  lemma RemoveSingleOccurrence<T>(s: seq<T>, x: T)
    requires multiset(s)[x] == 1
    ensures x !in RemoveFirst(s, x)
  {
    RemoveFirstMultiset(s, x);
    assert multiset(RemoveFirst(s, x))[x] == 0;
  }

  /** An id connected twice is still connected after one removal: a second
      connect does not replace the first session. */
  lemma RemoveOneOfDuplicates<T>(s: seq<T>, x: T)
    requires multiset(s)[x] >= 2
    ensures x in RemoveFirst(s, x)
  {
    RemoveFirstMultiset(s, x);
    assert multiset(RemoveFirst(s, x))[x] >= 1;
  }

  /** Connecting a new id and disconnecting it again restores the list. */
  lemma {:induction false} ConnectThenDisconnect<T>(s: seq<T>, x: T)
    requires x !in s
    ensures RemoveFirst(s + [x], x) == s
  {
    if s == [] {
      assert s + [x] == [x];
    } else {
      assert (s + [x])[1..] == s[1..] + [x];
      ConnectThenDisconnect(s[1..], x);
    }
  }

  // ---------------------------------------------------------------------------
  // The broker

  class Broker {
    var clients: seq<string>

    /** `Broker::new`: no client is connected. */
    constructor ()
      ensures clients == []
    {
      clients := [];
    }

    /** `connect_client`: appends the id, even when it is already present, and
        reports success. */
    method ConnectClient(clientId: string) returns (ok: bool)
      modifies this
      ensures ok
      ensures clients == old(clients) + [clientId]
    {
      clients := clients + [clientId];
      ok := true;
    }

    /** `is_client_connected`: whether the id occurs in the list. */
    method IsClientConnected(clientId: string) returns (connected: bool)
      ensures connected <==> clientId in clients
    {
      connected := clientId in clients;
    }

    /** `get_index_of_client`: the first index holding the id. The source
        panics when the id is absent; its only caller has checked that it is
        present. */
    method GetIndexOfClient(clientId: string) returns (idx: nat)
      requires clientId in clients
      ensures idx < |clients| && clients[idx] == clientId
      ensures forall j :: 0 <= j < idx ==> clients[j] != clientId
    {
      idx := 0;
      while clients[idx] != clientId
        invariant idx < |clients|
        invariant clientId in clients[idx..]
        invariant forall j :: 0 <= j < idx ==> clients[j] != clientId
        decreases |clients| - idx
      {
        assert clients[idx..] == [clients[idx]] + clients[idx + 1..];
        idx := idx + 1;
      }
    }

    /** `disconnect_client`: removes the first occurrence of a present id and
        returns it with `true`; returns `("", false)` and changes nothing for
        an absent one. */
    method DisconnectClient(clientId: string) returns (removed: string, ok: bool)
      modifies this
      ensures ok <==> clientId in old(clients)
      ensures ok ==> removed == clientId && clients == RemoveFirst(old(clients), clientId)
      ensures !ok ==> removed == "" && clients == old(clients)
    {
      var connected := IsClientConnected(clientId);
      if !connected {
        return "", false;
      }
      var idx := GetIndexOfClient(clientId);
      assert idx == FirstIndex(clients, clientId) by {
        FirstIndexUnique(clients, clientId, idx);
      }
      RemoveFirstSplice(clients, clientId);
      removed := clients[idx];
      clients := clients[..idx] + clients[idx + 1..];
      ok := true;
    }
  }

  /** The first index is the only index at which `x` occurs with no earlier
      occurrence. */
  lemma FirstIndexUnique<T>(s: seq<T>, x: T, i: nat)
    requires i < |s| && s[i] == x
    requires forall j :: 0 <= j < i ==> s[j] != x
    ensures FirstIndex(s, x) == i
  {
  }

  /** A client that has just connected is connected. */
  method ConnectedAfterConnect(b: Broker, clientId: string) returns (connected: bool)
    modifies b
    ensures connected
  {
    var _ := b.ConnectClient(clientId);
    connected := b.IsClientConnected(clientId);
  }

  /** Two connects with the same id followed by one disconnect leave that id
      connected (no eviction on a duplicate connect), while a single connect
      followed by a disconnect leaves it disconnected. */
  method DuplicateConnectKeepsSession(clientId: string) returns (afterDuplicate: bool, afterSingle: bool)
    ensures afterDuplicate
    ensures !afterSingle
  {
    var b := new Broker();
    var _ := b.ConnectClient(clientId);
    var _ := b.ConnectClient(clientId);
    var _, _ := b.DisconnectClient(clientId);
    afterDuplicate := b.IsClientConnected(clientId);

    var c := new Broker();
    var _ := c.ConnectClient(clientId);
    ConnectThenDisconnect([], clientId);
    var _, _ := c.DisconnectClient(clientId);
    afterSingle := c.IsClientConnected(clientId);
  }
}
