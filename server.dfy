/** The chat server (`com.somnath.server.Server` and its inner
    `ClientHandler`): the registry of connected users, message routing, the
    per-connection handshake and the inbound pipeline that corrects, decodes
    and decrypts each message before routing it.

    Every object the server writes to a client's stream is recorded, in
    order, as a `Delivery` in one log kept by the server. */
module ChatServer {
  import opened Wrappers
  import opened JavaLang
  import opened Messages
  import opened HammingUtil
  import opened Crypto

  /** The identity of a `ClientHandler` object. */
  type HandlerId = nat

  /** What a handler writes to its client: the server's public key at the
      start of the session, then chat messages as serialised at the time of
      writing. */
  datatype Payload = ServerPublicKey | Chat(message: Envelope)

  datatype Delivery = Delivery(to: HandlerId, payload: Payload)

  const ServerName: string := "SERVER"
  const DecryptionFailed: string := "[DECRYPTION FAILED]"
  const DecryptionError: string := "[DECRYPTION ERROR]"

  // ---------------------------------------------------------------------
  // Registry
  // ---------------------------------------------------------------------

  /** `removeClient(username)`: a `null` name leaves the map alone. */
  function Removed(handlers: map<string, HandlerId>, username: Option<string>): map<string, HandlerId>
  {
    match username
    case None => handlers
    case Some(name) => handlers - {name}
  }

  /** No handler is registered under two names. */
  predicate Injective(handlers: map<string, HandlerId>)
  {
    forall a, b :: a in handlers && b in handlers && handlers[a] == handlers[b] ==> a == b
  }

  /** Registering a handler that holds no name yet, and removing any name,
      keep every handler under at most one name. */
  lemma RegistryStaysInjective(handlers: map<string, HandlerId>, name: string, handler: HandlerId, gone: Option<string>)
    requires Injective(handlers)
    ensures handler !in handlers.Values ==> Injective(handlers[name := handler])
    ensures Injective(Removed(handlers, gone))
  {
    if handler !in handlers.Values {
      var m := handlers[name := handler];
      forall a | a in m && a != name ensures m[a] != m[name] {
        assert handlers[a] in handlers.Values;
      }
    }
  }

  // ---------------------------------------------------------------------
  // createErrorMessage and routeMessage
  // ---------------------------------------------------------------------

  /** The state of the message `createErrorMessage(text, sender)` builds. */
  function ErrorNotice(text: string, sender: string): Envelope
  {
    Created(Some(sender), Some(text), None, Some(text)).(finalDecryptedContent := Some(text))
  }

  /** A server notice is a group message whose text fields all hold the
      notice, and which never went through the pipeline. */
  lemma ErrorNoticeShape(text: string, sender: string)
    ensures var e := ErrorNotice(text, sender);
      && !IsPrivate(e) && e.sender == Some(sender)
      && e.fullOriginalText == e.contentToEncrypt == e.finalDecryptedContent == Some(text)
      && e.encryptedContentBase64.None? && e.hammingEncodedBinary.None?
      && e.erroredHammingBinary.None? && e.correctedHammingBinary.None?
      && !e.errorDetected && !e.errorCorrected
  {
  }

  /** The text of the notice for a private message to an unknown user. */
  function NotFound(recipient: string): string
  {
    "User '" + recipient + "' not found."
  }

  /** The text of the notice for a name already in use. */
  function InUse(username: string): string
  {
    "Username '" + username + "' is already in use. Please try a different name."
  }

  /** `order` lists every name of `names` exactly once. */
  predicate IsEnumeration(order: seq<string>, names: set<string>)
  {
    && (forall i, j :: 0 <= i < j < |order| ==> order[i] != order[j])
    && (forall i :: 0 <= i < |order| ==> order[i] in names)
    && (forall n :: n in names ==> n in order)
  }

  /** One copy of `e` to the handler of each name of `order`, in that
      order. */
  function Broadcast(handlers: map<string, HandlerId>, order: seq<string>, e: Envelope): seq<Delivery>
    requires forall i :: 0 <= i < |order| ==> order[i] in handlers
  {
    if order == [] then []
    else Broadcast(handlers, order[..|order| - 1], e) + [Delivery(handlers[order[|order| - 1]], Chat(e))]
  }

  /** What `routeMessage(e, sender)` writes, given the order in which the
      registry's names are visited when broadcasting. */
  function Routed(handlers: map<string, HandlerId>, e: Envelope, sender: HandlerId, order: seq<string>): seq<Delivery>
    requires IsEnumeration(order, handlers.Keys)
  {
    if IsPrivate(e) then PrivateRouted(handlers, e, sender) else Broadcast(handlers, order, e)
  }

  /** The private branch of `routeMessage`, which does not depend on the
      order of the registry. */
  function PrivateRouted(handlers: map<string, HandlerId>, e: Envelope, sender: HandlerId): seq<Delivery>
    requires IsPrivate(e)
  {
    var r := e.recipient.value;
    [Delivery(sender, Chat(e))]
      + if r in handlers && handlers[r] != sender then [Delivery(handlers[r], Chat(e))]
        else if r in handlers then []
        else [Delivery(sender, Chat(ErrorNotice(NotFound(r), ServerName)))]
  }

  /** The private-message cases: the sender always gets the message first;
      then a registered recipient other than the sender gets exactly one
      copy, a message to oneself gets nothing more, and an unknown
      recipient earns the sender a server notice. */
  lemma RoutePrivate(handlers: map<string, HandlerId>, e: Envelope, sender: HandlerId, order: seq<string>)
    requires IsEnumeration(order, handlers.Keys) && IsPrivate(e)
    ensures var ds, r := Routed(handlers, e, sender, order), e.recipient.value;
      && ds[0] == Delivery(sender, Chat(e))
      && (r in handlers && handlers[r] != sender ==>
            ds == [Delivery(sender, Chat(e)), Delivery(handlers[r], Chat(e))])
      && (r in handlers && handlers[r] == sender ==> ds == [Delivery(sender, Chat(e))])
      && (r !in handlers ==>
            ds == [Delivery(sender, Chat(e)), Delivery(sender, Chat(ErrorNotice(NotFound(r), ServerName)))])
  {
  }

  /** How many of `ds` go to handler `x`. */
  function CopiesTo(ds: seq<Delivery>, x: HandlerId): nat
  {
    if ds == [] then 0
    else CopiesTo(ds[..|ds| - 1], x) + (if ds[|ds| - 1].to == x then 1 else 0)
  }

  /** The names of `order` registered to handler `x`. */
  function NamesOf(handlers: map<string, HandlerId>, order: seq<string>, x: HandlerId): set<string>
  {
    set n | n in order && n in handlers && handlers[n] == x
  }

  lemma {:induction false} BroadcastCount(handlers: map<string, HandlerId>, order: seq<string>, e: Envelope, x: HandlerId)
    requires forall i :: 0 <= i < |order| ==> order[i] in handlers
    requires forall i, j :: 0 <= i < j < |order| ==> order[i] != order[j]
    ensures CopiesTo(Broadcast(handlers, order, e), x) == |NamesOf(handlers, order, x)|
    ensures forall i :: 0 <= i < |Broadcast(handlers, order, e)| ==> Broadcast(handlers, order, e)[i].payload == Chat(e)
  {
    if order != [] {
      var init, last := order[..|order| - 1], order[|order| - 1];
      assert order == init + [last];
      BroadcastCount(handlers, init, e, x);
      var ds := Broadcast(handlers, order, e);
      assert ds == Broadcast(handlers, init, e) + [Delivery(handlers[last], Chat(e))];
      assert ds[..|ds| - 1] == Broadcast(handlers, init, e);
      assert last !in init;
      var before := NamesOf(handlers, init, x);
      if handlers[last] == x {
        assert NamesOf(handlers, order, x) == before + {last};
        assert last !in before;
      } else {
        assert NamesOf(handlers, order, x) == before;
      }
    }
  }

  /** A group message reaches every registered handler, the sender's
      included, exactly as often as names are registered to it: exactly once
      each when no handler holds two names, and never a handler that holds
      none. */
  lemma BroadcastReachesEach(handlers: map<string, HandlerId>, e: Envelope, sender: HandlerId, order: seq<string>, x: HandlerId)
    requires IsEnumeration(order, handlers.Keys) && !IsPrivate(e)
    ensures var ds := Routed(handlers, e, sender, order);
      && (forall i :: 0 <= i < |ds| ==> ds[i].payload == Chat(e))
      && CopiesTo(ds, x) == |set n | n in handlers && handlers[n] == x|
      && (Injective(handlers) ==> CopiesTo(ds, x) == if x in handlers.Values then 1 else 0)
  {
    BroadcastCount(handlers, order, e, x);
    var names := set n | n in handlers && handlers[n] == x;
    assert NamesOf(handlers, order, x) == names;
    if Injective(handlers) {
      if x in handlers.Values {
        var n :| n in handlers && handlers[n] == x;
        assert names == {n};
      } else {
        assert names == {};
      }
    }
  }

  // ---------------------------------------------------------------------
  // The handshake of ClientHandler.run
  // ---------------------------------------------------------------------

  /** The `username` field after the handshake, given the first object the
      client sent (`None` when it is not a `String`): the name as sent when
      it is blank, trimmed otherwise. */
  function SessionName(initialObject: Option<string>): Option<string>
  {
    match initialObject
    case None => None
    case Some(raw) => if Trim(raw) == [] then Some(raw) else Some(Trim(raw))
  }

  /** The handshake registers the client: a non-blank name not yet in use. */
  predicate Admits(handlers: map<string, HandlerId>, initialObject: Option<string>)
  {
    initialObject.Some? && Trim(initialObject.value) != [] && Trim(initialObject.value) !in handlers
  }

  /** The handshake refuses a name already in use, with a notice. */
  predicate Duplicate(handlers: map<string, HandlerId>, initialObject: Option<string>)
  {
    initialObject.Some? && Trim(initialObject.value) != [] && Trim(initialObject.value) in handlers
  }

  /** What the handshake writes to the connecting client. */
  function HandshakeReplies(handlers: map<string, HandlerId>, initialObject: Option<string>, id: HandlerId): seq<Delivery>
  {
    [Delivery(id, ServerPublicKey)]
      + if Duplicate(handlers, initialObject)
        then [Delivery(id, Chat(ErrorNotice(InUse(Trim(initialObject.value)), ServerName)))]
        else []
  }

  /** The registry once a whole session has ended: the session's own entry,
      if it made one, is gone, and so is the entry of whoever held the name
      a refused duplicate asked for, because teardown removes the session's
      name whether or not the session registered it. */
  lemma SessionEnd(handlers: map<string, HandlerId>, initialObject: Option<string>, id: HandlerId)
    ensures Admits(handlers, initialObject) ==>
      Removed(handlers[SessionName(initialObject).value := id], SessionName(initialObject)) == handlers
    ensures Duplicate(handlers, initialObject) ==>
      var name := Trim(initialObject.value);
      Removed(handlers, SessionName(initialObject)) == handlers - {name} && name !in Removed(handlers, SessionName(initialObject))
    ensures initialObject.None? ==> Removed(handlers, SessionName(initialObject)) == handlers
  {
    match initialObject
    case None =>
    case Some(raw) =>
      var name := Trim(raw);
      if name != [] {
        assert SessionName(initialObject) == Some(name);
        if name !in handlers {
          RemoveAdded(handlers, name, id);
        }
      }
  }

  /** Removing a key just added to a map that lacked it gives the map back. */
  lemma RemoveAdded(m: map<string, HandlerId>, k: string, v: HandlerId)
    requires k !in m
    ensures m[k := v] - {k} == m
  {
    var r := m[k := v] - {k};
    assert r.Keys == m.Keys;
    assert forall n :: n in r ==> r[n] == m[n];
  }

  // ---------------------------------------------------------------------
  // The inbound pipeline of ClientHandler.run
  // ---------------------------------------------------------------------

  /** The final text for the outcome of `RSAUtil.decrypt`. */
  function FinalText(decrypted: Result<Bytes, CipherFailure>, bytesToString: Bytes -> string): string
  {
    match decrypted
    case Success(plain) => bytesToString(plain)
    case Failure(BadPadding) => DecryptionFailed
    case Failure(OtherFailure) => DecryptionError
  }

  /** What steps A to D find out about a message: the correction of its
      errored binary and the final text. */
  datatype Outcome = Outcome(correction: Correction, finalText: string)

  /** Steps A to C go through: the errored binary is not `null`, its
      correction is whole blocks of seven, and their data is whole bytes.
      Where this fails, `run()` throws out of the message loop. */
  predicate Routable(e: Envelope)
  {
    && e.erroredHammingBinary.Some?
    && Decoded(Corrected(e.erroredHammingBinary.value).text).Success?
    && ToBytes(Decoded(Corrected(e.erroredHammingBinary.value).text).value).Success?
  }

  /** The bytes step C hands to `RSAUtil.decrypt`. */
  function Ciphertext(e: Envelope): Bytes
    requires Routable(e)
  {
    ToBytes(Decoded(Corrected(e.erroredHammingBinary.value).text).value).value
  }

  /** The outcome of steps A to D on a received message. */
  function Processed(e: Envelope, decrypt: Cipher, bytesToString: Bytes -> string): Outcome
    requires Routable(e)
  {
    Outcome(Corrected(e.erroredHammingBinary.value), FinalText(decrypt(Ciphertext(e)), bytesToString))
  }

  /** The message state once the outcome is recorded by the setters. */
  function Recorded(e: Envelope, o: Outcome): Envelope
  {
    e.(errorDetected := o.correction.detected, errorCorrected := o.correction.detected,
       correctedHammingBinary := Some(o.correction.text), finalDecryptedContent := Some(o.finalText))
  }

  /** A message that gets through the pipeline keeps everything the client
      set, records the corrected binary with equal flags, and ends with the
      decrypted text or one of the two failure markers. */
  lemma ProcessedShape(e: Envelope, decrypt: Cipher, bytesToString: Bytes -> string)
    requires Routable(e)
    ensures var p := Recorded(e, Processed(e, decrypt, bytesToString));
      && p.(correctedHammingBinary := e.correctedHammingBinary, finalDecryptedContent := e.finalDecryptedContent,
            errorDetected := e.errorDetected, errorCorrected := e.errorCorrected) == e
      && p.errorDetected == p.errorCorrected
      && p.correctedHammingBinary == Some(Corrected(e.erroredHammingBinary.value).text)
      && p.finalDecryptedContent.Some?
      && (p.finalDecryptedContent.value == DecryptionFailed || p.finalDecryptedContent.value == DecryptionError
          || exists plain :: p.finalDecryptedContent.value == bytesToString(plain))
  {
    match decrypt(Ciphertext(e))
    case Success(plain) => assert Processed(e, decrypt, bytesToString).finalText == bytesToString(plain);
    case Failure(_) =>
  }

  /** What one turn of the message loop writes for message `e` from
      handler `id`: if it gets through steps A to C, the message with its
      outcome recorded, routed visiting the registry in `order` if it is a
      group message; otherwise nothing. */
  function Turn(handlers: map<string, HandlerId>, e: Envelope, id: HandlerId, decrypt: Cipher,
                bytesToString: Bytes -> string, order: seq<string>): seq<Delivery>
    requires IsEnumeration(order, handlers.Keys)
  {
    if Routable(e) then Routed(handlers, Recorded(e, Processed(e, decrypt, bytesToString)), id, order) else []
  }

  /** Each of `orders` lists the registry. */
  predicate Listings(handlers: map<string, HandlerId>, orders: seq<seq<string>>)
  {
    forall k :: 0 <= k < |orders| ==> IsEnumeration(orders[k], handlers.Keys)
  }

  /** What the message loop writes for the first `|orders|` messages of
      `inbox`: their turns one after another, in inbox order. */
  function Turns(handlers: map<string, HandlerId>, inbox: seq<Envelope>, id: HandlerId, decrypt: Cipher,
                 bytesToString: Bytes -> string, orders: seq<seq<string>>): seq<Delivery>
    requires |orders| <= |inbox| && Listings(handlers, orders)
  {
    if orders == [] then []
    else
      var n := |orders| - 1;
      Turns(handlers, inbox, id, decrypt, bytesToString, orders[..n])
        + Turn(handlers, inbox[n], id, decrypt, bytesToString, orders[n])
  }

  /** One more message adds its turn to the end of what the loop has
      written since `start`. */
  lemma TurnsSnoc(handlers: map<string, HandlerId>, inbox: seq<Envelope>, id: HandlerId, decrypt: Cipher,
                  bytesToString: Bytes -> string, orders: seq<seq<string>>, order: seq<string>, start: seq<Delivery>)
    requires |orders| < |inbox| && Listings(handlers, orders) && IsEnumeration(order, handlers.Keys)
    ensures Listings(handlers, orders + [order])
    ensures start + Turns(handlers, inbox, id, decrypt, bytesToString, orders)
        + Turn(handlers, inbox[|orders|], id, decrypt, bytesToString, order)
      == start + Turns(handlers, inbox, id, decrypt, bytesToString, orders + [order])
  {
    assert (orders + [order])[..|orders|] == orders;
  }

  // ---------------------------------------------------------------------
  // Server and ClientHandler
  // ---------------------------------------------------------------------

  class Server {
    /** The registry: user name to handler. */
    var clientHandlers: map<string, HandlerId>
    /** Every object written to any client, in order. */
    var deliveries: seq<Delivery>
    /** `RSAUtil.decrypt` with the server's private key. */
    const decrypt: Cipher
    /** `RSAUtil.bytesToString`. */
    const bytesToString: Bytes -> string

    /** A server with a fresh key pair, before any client connects. */
    constructor (decrypt: Cipher, bytesToString: Bytes -> string)
      ensures clientHandlers == map[] && deliveries == []
      ensures this.decrypt == decrypt && this.bytesToString == bytesToString
    {
      clientHandlers := map[];
      deliveries := [];
      this.decrypt := decrypt;
      this.bytesToString := bytesToString;
    }

    method AddClient(username: string, handler: HandlerId)
      modifies this
      ensures clientHandlers == old(clientHandlers)[username := handler]
      ensures deliveries == old(deliveries)
    {
      clientHandlers := clientHandlers[username := handler];
    }

    method RemoveClient(username: Option<string>)
      modifies this
      ensures clientHandlers == Removed(old(clientHandlers), username)
      ensures deliveries == old(deliveries)
    {
      if username.Some? {
        clientHandlers := clientHandlers - {username.value};
      }
    }

    /** `ClientHandler.sendMessage` on handler `to`: the message is written
        as it stands now. */
    method Send(to: HandlerId, msg: Message)
      modifies this
      ensures deliveries == old(deliveries) + [Delivery(to, Chat(msg.Wire()))]
      ensures clientHandlers == old(clientHandlers)
    {
      deliveries := deliveries + [Delivery(to, Chat(msg.Wire()))];
    }

    method CreateErrorMessage(text: string, sender: string) returns (errorMsg: Message)
      ensures fresh(errorMsg) && errorMsg.Wire() == ErrorNotice(text, sender) && !errorMsg.expanded
    {
      errorMsg := new Message(Some(sender), Some(text), None, Some(text));
      errorMsg.SetFinalDecryptedContent(Some(text));
    }

    /** `routeMessage(msg, sender)`; `order` is the order in which the
        broadcast loop visits the registry. */
    method RouteMessage(msg: Message, sender: HandlerId) returns (ghost order: seq<string>)
      modifies this
      ensures IsEnumeration(order, old(clientHandlers).Keys)
      ensures clientHandlers == old(clientHandlers)
      ensures deliveries == old(deliveries) + Routed(clientHandlers, msg.Wire(), sender, order)
    {
      if msg.IsPrivateMessage() {
        order := Enumerate(clientHandlers.Keys);
        SendPrivate(msg, sender);
      } else {
        order := SendToAll(msg);
      }
    }

    /** The private branch of `routeMessage`. */
    method SendPrivate(msg: Message, sender: HandlerId)
      requires IsPrivate(msg.Wire())
      modifies this
      ensures clientHandlers == old(clientHandlers)
      ensures deliveries == old(deliveries) + PrivateRouted(clientHandlers, msg.Wire(), sender)
    {
      var recipient := msg.recipient.value;
      Send(sender, msg);
      if recipient in clientHandlers && clientHandlers[recipient] != sender {
        Send(clientHandlers[recipient], msg);
      } else if recipient !in clientHandlers {
        var notice := CreateErrorMessage(NotFound(recipient), ServerName);
        Send(sender, notice);
      }
    }

    /** The group branch of `routeMessage`: one copy to every registered
        handler, visiting the registry in `order`. */
    method SendToAll(msg: Message) returns (ghost order: seq<string>)
      modifies this
      ensures IsEnumeration(order, clientHandlers.Keys)
      ensures clientHandlers == old(clientHandlers)
      ensures deliveries == old(deliveries) + Broadcast(clientHandlers, order, msg.Wire())
    {
      var names := Listing(clientHandlers.Keys);
      for k := 0 to |names|
        invariant clientHandlers == old(clientHandlers)
        invariant deliveries == old(deliveries) + Broadcast(clientHandlers, names[..k], msg.Wire())
      {
        Send(clientHandlers[names[k]], msg);
        assert names[..k + 1][..k] == names[..k];
      }
      assert names[..|names|] == names;
      order := names;
    }
  }

  /** The order in which iterating over the registry visits its names: each
      name once, in an order the hash map chooses. */
  method Listing(names: set<string>) returns (order: seq<string>)
    ensures IsEnumeration(order, names)
  {
    var remaining := names;
    order := [];
    while remaining != {}
      invariant remaining <= names
      invariant IsEnumeration(order, names - remaining)
      decreases |remaining|
    {
      var name :| name in remaining;
      EnumerationSnoc(order, names - remaining, name);
      assert names - (remaining - {name}) == names - remaining + {name};
      order := order + [name];
      remaining := remaining - {name};
    }
    assert names - remaining == names;
  }

  /** Some listing of the names in `names`, for the ghost order of a private
      message, whose routing visits no list. */
  ghost function Enumerate(names: set<string>): (order: seq<string>)
    ensures IsEnumeration(order, names)
    decreases |names|
  {
    if names == {} then []
    else
      var n :| n in names;
      var rest := Enumerate(names - {n});
      EnumerationSnoc(rest, names - {n}, n);
      assert names - {n} + {n} == names;
      rest + [n]
  }

  /** Listing one more name extends an enumeration. */
  lemma EnumerationSnoc(order: seq<string>, names: set<string>, n: string)
    requires IsEnumeration(order, names) && n !in names
    ensures IsEnumeration(order + [n], names + {n})
  {
    var o := order + [n];
    forall m | m in names + {n} ensures m in o {
      if m != n {
        assert m in order;
      }
    }
  }

  class ClientHandler {
    const id: HandlerId
    const server: Server
    var username: Option<string>

    constructor (id: HandlerId, server: Server)
      ensures this.id == id && this.server == server && username.None?
    {
      this.id := id;
      this.server := server;
      username := None;
    }

    method SendMessage(msg: Message)
      modifies server
      ensures server.deliveries == old(server.deliveries) + [Delivery(id, Chat(msg.Wire()))]
      ensures server.clientHandlers == old(server.clientHandlers)
    {
      server.Send(id, msg);
    }

    /** Steps 1 and 2 of `run()`: send the public key, read the user name
        (`None` when the first object is not a `String`), and register it
        when it is neither blank nor taken. */
    method Handshake(initialObject: Option<string>) returns (accepted: bool)
      requires username.None? && id !in server.clientHandlers.Values
      modifies this, server
      ensures Injective(old(server.clientHandlers)) ==> Injective(server.clientHandlers)
      ensures accepted == Admits(old(server.clientHandlers), initialObject)
      ensures username == SessionName(initialObject)
      ensures server.clientHandlers ==
        if accepted then old(server.clientHandlers)[username.value := id] else old(server.clientHandlers)
      ensures server.deliveries == old(server.deliveries) + HandshakeReplies(old(server.clientHandlers), initialObject, id)
    {
      server.deliveries := server.deliveries + [Delivery(id, ServerPublicKey)];
      if initialObject.None? {
        return false;
      }
      username := initialObject;
      if Trim(username.value) == [] {
        return false;
      }
      username := Some(Trim(username.value));
      if username.value in server.clientHandlers {
        var notice := server.CreateErrorMessage(InUse(username.value), ServerName);
        SendMessage(notice);
        return false;
      }
      if Injective(server.clientHandlers) {
        RegistryStaysInjective(server.clientHandlers, username.value, id, None);
      }
      server.AddClient(username.value, id);
      accepted := true;
    }

    /** Steps A to D of the message loop and the routing that follows them;
        `ok` is false where `run()` throws out of the loop. */
    method ProcessMessage(receivedMessage: Message) returns (ok: bool, ghost order: seq<string>)
      modifies receivedMessage, server
      ensures ok == Routable(old(receivedMessage.Wire()))
      ensures server.clientHandlers == old(server.clientHandlers)
      ensures ok ==>
        var p := Processed(old(receivedMessage.Wire()), server.decrypt, server.bytesToString);
        && receivedMessage.Wire() == Recorded(old(receivedMessage.Wire()), p)
        && IsEnumeration(order, server.clientHandlers.Keys)
        && server.deliveries == old(server.deliveries) + Routed(server.clientHandlers, receivedMessage.Wire(), id, order)
      ensures !ok ==> server.deliveries == old(server.deliveries)
    {
      order := [];
      if receivedMessage.erroredHammingBinary.None? {
        return false, order;
      }
      var erroredBinary := receivedMessage.erroredHammingBinary.value;
      var correctedBinary := CorrectError(erroredBinary, receivedMessage);
      receivedMessage.SetCorrectedHammingBinary(Some(correctedBinary));
      var decodedBinary := Decode(correctedBinary);
      if decodedBinary.Failure? {
        return false, order;
      }
      var encryptedBytes := BinaryStringToBytes(decodedBinary.value);
      if encryptedBytes.Failure? {
        return false, order;
      }
      var decrypted := server.decrypt(encryptedBytes.value);
      match decrypted {
        case Success(plain) =>
          receivedMessage.SetFinalDecryptedContent(Some(server.bytesToString(plain)));
        case Failure(BadPadding) =>
          receivedMessage.SetFinalDecryptedContent(Some(DecryptionFailed));
        case Failure(OtherFailure) =>
          receivedMessage.SetFinalDecryptedContent(Some(DecryptionError));
      }
      order := server.RouteMessage(receivedMessage, id);
      ok := true;
    }

    /** One turn of the message loop: the object read from the stream,
        rebuilt as a fresh `Message`, goes through the pipeline and, if it
        gets through steps A to C, is routed. */
    method ReceiveMessage(wire: Envelope) returns (ok: bool, ghost order: seq<string>)
      modifies server
      ensures ok == Routable(wire)
      ensures server.clientHandlers == old(server.clientHandlers)
      ensures IsEnumeration(order, server.clientHandlers.Keys)
      ensures server.deliveries == old(server.deliveries)
        + Turn(server.clientHandlers, wire, id, server.decrypt, server.bytesToString, order)
    {
      var receivedMessage := new Message.FromWire(wire);
      ok, order := ProcessMessage(receivedMessage);
      if !ok {
        order := Enumerate(server.clientHandlers.Keys);
      }
    }

    /** Step 3 of `run()`: each message of `inbox` in turn, until one makes
        the loop throw or the input ends. The messages handled are the first
        `|orders|`; what they write is their turns, in inbox order. */
    method MessageLoop(inbox: seq<Envelope>) returns (ghost orders: seq<seq<string>>)
      modifies server
      ensures server.clientHandlers == old(server.clientHandlers)
      ensures |orders| <= |inbox| && Listings(server.clientHandlers, orders)
      ensures forall k :: 0 <= k < |orders| ==> Routable(inbox[k])
      ensures |orders| < |inbox| ==> !Routable(inbox[|orders|])
      ensures server.deliveries == old(server.deliveries)
        + Turns(server.clientHandlers, inbox, id, server.decrypt, server.bytesToString, orders)
    {
      ghost var routable := seq(|inbox|, k requires 0 <= k < |inbox| => Routable(inbox[k]));
      var i := 0;
      var open := true;
      orders := [];
      while open && i < |inbox|
        invariant i == |orders| <= |inbox| && Listings(server.clientHandlers, orders)
        invariant server.clientHandlers == old(server.clientHandlers)
        invariant forall k :: 0 <= k < i ==> routable[k]
        invariant !open ==> i < |inbox| && !routable[i]
        invariant server.deliveries == old(server.deliveries)
          + Turns(server.clientHandlers, inbox, id, server.decrypt, server.bytesToString, orders)
        decreases |inbox| - i, open
      {
        var ok;
        ghost var order;
        ok, order := ReceiveMessage(inbox[i]);
        assert ok == routable[i];
        if ok {
          assert forall k :: 0 <= k < i + 1 ==> routable[k];
          TurnsSnoc(server.clientHandlers, inbox, id, server.decrypt, server.bytesToString, orders, order,
                    old(server.deliveries));
          orders := orders + [order];
          i := i + 1;
        } else {
          open := false;
        }
      }
      forall k | 0 <= k < i ensures Routable(inbox[k]) {
        assert routable[k];
      }
    }

    /** The whole of `run()` for one connection: the handshake, then each
        message of `inbox` in turn until one makes the loop throw or the
        input ends, then teardown. The messages routed are the first
        `|orders|`, and `orders[k]` is the order in which the `k`-th one
        visits the registry if it is a group message. */
    method Run(initialObject: Option<string>, inbox: seq<Envelope>)
      returns (ghost accepted: bool, ghost orders: seq<seq<string>>)
      requires username.None? && id !in server.clientHandlers.Values
      modifies this, server
      ensures accepted == Admits(old(server.clientHandlers), initialObject)
      ensures username == SessionName(initialObject)
      ensures server.clientHandlers == Removed(
        if accepted then old(server.clientHandlers)[username.value := id] else old(server.clientHandlers), username)
      ensures Injective(old(server.clientHandlers)) ==> Injective(server.clientHandlers)
      ensures !accepted ==>
        && orders == []
        && server.deliveries == old(server.deliveries) + HandshakeReplies(old(server.clientHandlers), initialObject, id)
      ensures accepted ==>
        var session := old(server.clientHandlers)[username.value := id];
        && (Injective(old(server.clientHandlers)) ==> Injective(session))
        && |orders| <= |inbox| && Listings(session, orders)
        && (forall k :: 0 <= k < |orders| ==> Routable(inbox[k]))
        && (|orders| < |inbox| ==> !Routable(inbox[|orders|]))
        && server.deliveries == old(server.deliveries) + [Delivery(id, ServerPublicKey)]
             + Turns(session, inbox, id, server.decrypt, server.bytesToString, orders)
      ensures |server.deliveries| > |old(server.deliveries)|
      ensures server.deliveries[|old(server.deliveries)|] == Delivery(id, ServerPublicKey)
    {
      ghost var before := server.deliveries;
      var registeredName := Handshake(initialObject);
      accepted := registeredName;
      orders := [];
      assert server.deliveries[|before|] == Delivery(id, ServerPublicKey);
      if registeredName {
        orders := MessageLoop(inbox);
      }
      if Injective(server.clientHandlers) {
        RegistryStaysInjective(server.clientHandlers, "", id, username);
      }
      server.RemoveClient(username);
    }
  }
}
