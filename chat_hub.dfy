/**
 * The relay hub: a directory from a user's public key to the connection that
 * registered it, and the deliveries the hub sends out. The hub is modelled
 * sequentially; the connection id of the calling client (the hub context) is
 * an explicit parameter of every operation, and a client call `SendAsync`
 * becomes a record appended to `outbox`.
 */
module Hubs {
  import opened Wrappers

  /** The client method every relayed message is delivered to. */
  const ReceiveMessage: string := "ReceiveMessage"

  /** One `SendAsync` call: target connection, client method and its two arguments. */
  datatype Delivery = Delivery(
    connectionId: string,
    clientMethod: string,
    senderPublicKey: string,
    encryptedMessage: string)

  /** The public keys that `directory` maps to `connectionId`. */
  function KeysOf(directory: map<string, string>, connectionId: string): set<string> {
    set k | k in directory && directory[k] == connectionId
  }

  /**
   * What a disconnect of `connectionId` may do to the directory: when some key
   * maps to the connection, exactly that one chosen key is removed; otherwise
   * nothing changes.
   */
  ghost predicate DisconnectStep(before: map<string, string>, after: map<string, string>,
                                 connectionId: string, removed: Option<string>)
  {
    match removed
    case None => KeysOf(before, connectionId) == {} && after == before
    case Some(k) => k in KeysOf(before, connectionId) && after == before - {k}
  }

  /**
   * What a send from `connectionId` to `recipient` may deliver: nothing when the
   * caller has no key or the recipient is unknown, otherwise exactly one
   * delivery to the recipient's connection, naming some key of the caller.
   */
  ghost predicate SendStep(directory: map<string, string>, connectionId: string,
                           recipient: string, message: string, delivered: seq<Delivery>)
  {
    if KeysOf(directory, connectionId) == {} || recipient !in directory then
      delivered == []
    else
      exists sender :: sender in KeysOf(directory, connectionId) &&
        delivered == [Delivery(directory[recipient], ReceiveMessage, sender, message)]
  }

  class ChatHub {
    /** UserConnections: public key to connection id. */
    var userConnections: map<string, string>
    /** Every `SendAsync` the hub has issued, oldest first. */
    var outbox: seq<Delivery>

    constructor ()
      ensures userConnections == map[] && outbox == []
    {
      userConnections := map[];
      outbox := [];
    }

    /**
     * The `FirstOrDefault` reverse lookup: some key registered by the
     * connection, or None when there is none. Which key is found among
     * several is not determined (the dictionary is unordered).
     */
    method FindKeyOf(connectionId: string) returns (publicKey: Option<string>)
      ensures publicKey.None? <==> KeysOf(userConnections, connectionId) == {}
      ensures publicKey.Some? ==> publicKey.value in KeysOf(userConnections, connectionId)
    {
      if k :| k in userConnections && userConnections[k] == connectionId {
        publicKey := Some(k);
        assert k in KeysOf(userConnections, connectionId);
      } else {
        publicKey := None;
        assert forall k :: k !in KeysOf(userConnections, connectionId);
      }
    }

    /** Register: the caller's connection becomes the entry for `publicKey`. */
    method Register(connectionId: string, publicKey: string)
      modifies this
      ensures userConnections == old(userConnections)[publicKey := connectionId]
      ensures outbox == old(outbox)
    {
      userConnections := userConnections[publicKey := connectionId];
    }

    /** OnDisconnectedAsync: remove one key the connection registered, if any. */
    method OnDisconnectedAsync(connectionId: string) returns (removed: Option<string>)
      modifies this
      ensures DisconnectStep(old(userConnections), userConnections, connectionId, removed)
      ensures outbox == old(outbox)
    {
      removed := FindKeyOf(connectionId);
      if removed.Some? {
        userConnections := userConnections - {removed.value};
      }
    }

    /**
     * SendPrivateMessage: resolve the caller's key and the recipient's
     * connection, and deliver the message when both exist.
     */
    method SendPrivateMessage(connectionId: string, recipientPublicKey: string, encryptedMessage: string)
      modifies this
      ensures userConnections == old(userConnections)
      ensures |outbox| >= |old(outbox)| && outbox[..|old(outbox)|] == old(outbox)
      ensures SendStep(userConnections, connectionId, recipientPublicKey, encryptedMessage,
                       outbox[|old(outbox)|..])
    {
      var senderPublicKey := FindKeyOf(connectionId);
      if senderPublicKey.None? {
        assert outbox[|outbox|..] == [];
        return;
      }
      if recipientPublicKey in userConnections {
        var recipientConnectionId := userConnections[recipientPublicKey];
        var delivery := Delivery(recipientConnectionId, ReceiveMessage, senderPublicKey.value, encryptedMessage);
        ghost var before := outbox;
        outbox := outbox + [delivery];
        assert outbox[|before|..] == [delivery];
      } else {
        assert outbox[|outbox|..] == [];
      }
    }
  }

  /** Registering a key replaces its connection and leaves every other entry as it was. */
  lemma RegisterOverwrites(directory: map<string, string>, publicKey: string, connectionId: string)
    ensures var after := directory[publicKey := connectionId];
      && publicKey in after && after[publicKey] == connectionId
      && after.Keys == directory.Keys + {publicKey}
      && (forall k :: k in directory && k != publicKey ==> after[k] == directory[k])
  {
  }

  /**
   * Registering one key from two connections leaves one entry for it, pointing
   * at the later connection, whatever the earlier one was.
   */
  lemma RegisterLastWins(directory: map<string, string>, publicKey: string, first: string, second: string)
    ensures directory[publicKey := first][publicKey := second] == directory[publicKey := second]
    ensures |directory[publicKey := second].Keys| == |(directory - {publicKey}).Keys| + 1
  {
    var rest := directory - {publicKey};
    assert directory[publicKey := second].Keys == rest.Keys + {publicKey};
  }

  /**
   * A disconnect removes at most one key: the directory shrinks by exactly the
   * removed key, and every other key keeps its connection.
   */
  lemma {:induction false} DisconnectRemovesExactlyOne(before: map<string, string>, after: map<string, string>,
                                                       connectionId: string, removed: Option<string>)
    requires DisconnectStep(before, after, connectionId, removed)
    ensures removed.Some? ==> |after.Keys| == |before.Keys| - 1
    ensures removed.None? ==> after == before
    ensures KeysOf(after, connectionId) == KeysOf(before, connectionId) - (if removed.Some? then {removed.value} else {})
    ensures forall k :: k in after ==> k in before && after[k] == before[k]
  {
    if removed.Some? {
      var k := removed.value;
      assert before.Keys == after.Keys + {k};
      assert k !in after.Keys;
    }
  }

  /**
   * A connection that registered at most one key is fully forgotten after one
   * disconnect, so a second disconnect of it changes nothing.
   */
  lemma {:induction false} DisconnectIdempotent(d0: map<string, string>, d1: map<string, string>, d2: map<string, string>,
                                                connectionId: string, first: Option<string>, second: Option<string>)
    requires |KeysOf(d0, connectionId)| <= 1
    requires DisconnectStep(d0, d1, connectionId, first)
    requires DisconnectStep(d1, d2, connectionId, second)
    ensures KeysOf(d1, connectionId) == {}
    ensures second == None && d2 == d1
  {
    DisconnectRemovesExactlyOne(d0, d1, connectionId, first);
    if first.Some? {
      var keys := KeysOf(d0, connectionId);
      assert keys == (keys - {first.value}) + {first.value};
      assert |keys - {first.value}| == 0;
    }
  }

  /**
   * After a key is registered again from a newer connection, a reverse lookup
   * of the older connection no longer finds the key, and disconnecting the
   * older connection leaves the key in place, mapped to the newer connection.
   */
  lemma StaleDisconnectKeepsKey(directory: map<string, string>, publicKey: string,
                                older: string, newer: string,
                                after: map<string, string>, removed: Option<string>)
    requires older != newer
    requires DisconnectStep(directory[publicKey := newer], after, older, removed)
    ensures publicKey !in KeysOf(directory[publicKey := newer], older)
    ensures publicKey in after && after[publicKey] == newer
  {
  }

  /**
   * A send delivers at most once; it delivers exactly when the caller has a key
   * and the recipient is registered, and then to the recipient's connection
   * with the message unchanged.
   */
  lemma SendAtMostOnce(directory: map<string, string>, connectionId: string, recipient: string,
                       message: string, delivered: seq<Delivery>)
    requires SendStep(directory, connectionId, recipient, message, delivered)
    ensures |delivered| <= 1
    ensures |delivered| == 1 <==> KeysOf(directory, connectionId) != {} && recipient in directory
    ensures |delivered| == 1 ==>
      && delivered[0].connectionId == directory[recipient]
      && delivered[0].clientMethod == ReceiveMessage
      && delivered[0].encryptedMessage == message
      && delivered[0].senderPublicKey in directory
      && directory[delivered[0].senderPublicKey] == connectionId
  {
  }
}
