/** The issuance-session orchestrator of the aries-vcx backchannel: the `Agent` operations
    that send a credential offer, send a credential request, and report an exchange's state.

    Each operation is a pure function from the agent (its session store and its last
    connection) to the reply, the agent afterwards, and the side effects it attempted.
    The outcome of every call into vcx or into the store is supplied by the caller. */
module Issuance {
  import opened Outcomes
  import opened States
  import Inbox

  /** An error raised by vcx or by the session store, converted into a harness error as is. */
  datatype Fault = Fault(code: nat)

  datatype HarnessError =
    | NotFoundError(message: string)
    | InternalServerError(message: string)
    | Converted(fault: Fault)
      /** The operation panicked (an `unwrap` on an empty value); nothing was written. */
    | Panicked(message: string)

  /** An established connection; the controller only passes it on to vcx. */
  datatype Connection = Connection(pwDid: string)

  datatype IssuerConfig = IssuerConfig(credDefId: string, revRegId: Option<string>, tailsFile: Option<string>)

  /** The attribute preview of an offer; each attribute is an opaque JSON value. */
  datatype CredentialPreview = CredentialPreview(msgType: string, attributes: seq<string>)

  /** The harness's offer command: what to offer and over which stored connection. */
  datatype CredentialOffer = CredentialOffer(credDefId: string, preview: CredentialPreview, connectionId: string)

  datatype Issuer = Issuer(config: IssuerConfig, preview: CredentialPreview, sourceId: string, state: VcxState)

  datatype Holder = Holder(offer: Inbox.VcxCredentialOffer, sourceId: string, state: VcxState)

  /** One stored object. The store is foreign; the model assumes a typed read finds only a
      record of the asked-for kind, never one of another kind decoded as it. */
  datatype Record =
    | IssuerRecord(issuer: Issuer)
    | HolderRecord(holder: Holder)
    | ConnectionRecord(connection: Connection)

  type Store = map<string, Record>

  datatype Agent = Agent(db: Store, lastConnection: Option<Connection>)

  /** The JSON reply `{ "state": ..., "thread_id": ... }`, the thread id only when present. */
  datatype Reply = Reply(state: HarnessState, threadId: Option<string>)

  /** A side effect an operation attempted, in order. */
  datatype Effect =
    | OfferDispatched
    | RequestDispatched
    | InboxRead
    | StoreWrite(key: string)

  datatype Handled = Handled(result: Result<Reply, HarnessError>, agent: Agent, effects: seq<Effect>)

  /** Outcomes of the foreign calls `send_credential_offer` makes, in call order:
      `Issuer::create`, `send_message_closure`, the send itself (giving the issuer's vcx
      state afterwards) and the store write. */
  datatype OfferCalls = OfferCalls(
    create: Outcome<Fault>,
    sendClosure: Outcome<Fault>,
    sendOffer: Result<VcxState, Fault>,
    store: Outcome<Fault>)

  /** Outcomes of `send_message_closure` and of `send_request` (giving the holder's vcx state afterwards). */
  datatype RequestCalls = RequestCalls(
    sendClosure: Outcome<Fault>,
    sendRequest: Result<VcxState, Fault>)

  /** Outcomes of `get_messages`, of `Holder::create` (giving the new holder's vcx state)
      and of the store write, used only when no role object exists yet. */
  datatype LookupCalls = LookupCalls(
    messages: Result<seq<Inbox.A2AMessage>, Fault>,
    create: Result<VcxState, Fault>,
    store: Outcome<Fault>)

  function ConnectionNotFound(id: string): string {
    "Connection with id " + id + " not found"
  }

  function HolderNotFound(id: string): string {
    "Holder with id " + id + " not found"
  }

  const NoConnectionEstablished: string := "No connection established"

  const UnwrapOnNone: string := "called `Option::unwrap()` on a `None` value"

  function GetIssuer(db: Store, id: string): Option<Issuer> {
    if id in db && db[id].IssuerRecord? then Some(db[id].issuer) else None
  }

  function GetHolder(db: Store, id: string): Option<Holder> {
    if id in db && db[id].HolderRecord? then Some(db[id].holder) else None
  }

  function GetConnection(db: Store, id: string): Option<Connection> {
    if id in db && db[id].ConnectionRecord? then Some(db[id].connection) else None
  }

  /** `after` differs from `before` at most by the record stored under `key`. */
  ghost predicate OnlyKeyChanged(before: Store, after: Store, key: string) {
    && after.Keys == before.Keys + {key}
    && forall k :: k in before && k != key ==> after[k] == before[k]
  }

  /** Offers a credential over the connection the command names, under the fresh id `id`. */
  function SendCredentialOffer(agent: Agent, offer: CredentialOffer, id: string, calls: OfferCalls): (h: Handled)
    // every failure leaves the agent as it was, and the connection check comes first
    ensures h.result.Err? ==> h.agent == agent
    ensures GetConnection(agent.db, offer.connectionId).None? ==>
      h == Handled(Err(NotFoundError(ConnectionNotFound(id))), agent, [])
    ensures GetConnection(agent.db, offer.connectionId).Some? && calls.create.Fail? ==>
      h.result == Err(Converted(calls.create.error)) && h.effects == []
    ensures GetConnection(agent.db, offer.connectionId).Some? && calls.create.Pass? && calls.sendClosure.Fail? ==>
      h.result == Err(Converted(calls.sendClosure.error)) && h.effects == []
    ensures OfferDispatched in h.effects <==>
      GetConnection(agent.db, offer.connectionId).Some? && calls.create.Pass? && calls.sendClosure.Pass?
    ensures OfferDispatched in h.effects && calls.sendOffer.Err? ==>
      h.result == Err(Converted(calls.sendOffer.error)) && StoreWrite(id) !in h.effects
    ensures OfferDispatched in h.effects && calls.sendOffer.Ok? && calls.store.Fail? ==>
      h.result == Err(Converted(calls.store.error))
    ensures h.result.Ok? <==>
      && GetConnection(agent.db, offer.connectionId).Some?
      && calls.create.Pass? && calls.sendClosure.Pass? && calls.sendOffer.Ok? && calls.store.Pass?
    // success stores one issuer, built from the offer, under the fresh id, and nothing else
    ensures h.result.Ok? ==>
      && h.result.value == Reply(OfferSent, Some(id))
      && h.agent.lastConnection == agent.lastConnection
      && OnlyKeyChanged(agent.db, h.agent.db, id)
      && GetIssuer(h.agent.db, id).Some?
      && var issuer := GetIssuer(h.agent.db, id).value;
         && issuer.config.credDefId == offer.credDefId
         && issuer.config.revRegId.None? && issuer.config.tailsFile.None?
         && issuer.preview == offer.preview
         && issuer.sourceId == id
         && issuer.state == calls.sendOffer.value
  {
    match GetConnection(agent.db, offer.connectionId)
    case None => Handled(Err(NotFoundError(ConnectionNotFound(id))), agent, [])
    case Some(_) =>
      if calls.create.Fail? then Handled(Err(Converted(calls.create.error)), agent, [])
      else if calls.sendClosure.Fail? then Handled(Err(Converted(calls.sendClosure.error)), agent, [])
      else if calls.sendOffer.Err? then Handled(Err(Converted(calls.sendOffer.error)), agent, [OfferDispatched])
      else
        var config := IssuerConfig(offer.credDefId, None, None);
        var issuer := Issuer(config, offer.preview, id, calls.sendOffer.value);
        if calls.store.Fail? then
          Handled(Err(Converted(calls.store.error)), agent, [OfferDispatched, StoreWrite(id)])
        else
          Handled(Ok(Reply(OfferSent, Some(id))), agent.(db := agent.db[id := IssuerRecord(issuer)]),
                  [OfferDispatched, StoreWrite(id)])
  }

  /** `SendCredentialOffer` with the not-found message naming the missing connection,
      as its wording intends; every other outcome is unchanged. The contract is deliberately
      relational: it defines the corrected operation by its one difference from the as-written
      one, and `IntendedOfferNamesConnection` proves the intended property of that difference. */
  function SendCredentialOfferIntended(agent: Agent, offer: CredentialOffer, id: string, calls: OfferCalls): (h: Handled)
    ensures GetConnection(agent.db, offer.connectionId).None? ==>
      h == Handled(Err(NotFoundError(ConnectionNotFound(offer.connectionId))), agent, [])
    ensures GetConnection(agent.db, offer.connectionId).Some? ==>
      h == SendCredentialOffer(agent, offer, id, calls)
  {
    if GetConnection(agent.db, offer.connectionId).None? then
      Handled(Err(NotFoundError(ConnectionNotFound(offer.connectionId))), agent, [])
    else
      SendCredentialOffer(agent, offer, id, calls)
  }

  /** Sends the credential request of the stored holder `id` over the last connection. */
  function SendCredentialRequest(agent: Agent, id: string, calls: RequestCalls): (h: Handled)
    // the advanced holder is never stored
    ensures h.agent == agent
    ensures forall e :: e in h.effects ==> e == RequestDispatched
    // a missing holder is reported before a missing connection, both before any send
    ensures GetHolder(agent.db, id).None? ==>
      h.result == Err(NotFoundError(HolderNotFound(id))) && h.effects == []
    ensures GetHolder(agent.db, id).Some? && agent.lastConnection.None? ==>
      h.result == Err(InternalServerError(NoConnectionEstablished)) && h.effects == []
    ensures RequestDispatched in h.effects <==>
      GetHolder(agent.db, id).Some? && agent.lastConnection.Some? && calls.sendClosure.Pass?
    ensures h.result.Ok? <==> RequestDispatched in h.effects && calls.sendRequest.Ok?
    // the reply is the holder's external state after the send
    ensures h.result.Ok? ==> h.result.value == Reply(HolderState(calls.sendRequest.value), None)
    ensures h.result.Err? && RequestDispatched in h.effects ==> h.result == Err(Converted(calls.sendRequest.error))
    ensures GetHolder(agent.db, id).Some? && agent.lastConnection.Some? && calls.sendClosure.Fail? ==>
      h.result == Err(Converted(calls.sendClosure.error))
  {
    match GetHolder(agent.db, id)
    case None => Handled(Err(NotFoundError(HolderNotFound(id))), agent, [])
    case Some(holder) =>
      match agent.lastConnection
      case None => Handled(Err(InternalServerError(NoConnectionEstablished)), agent, [])
      case Some(_) =>
        if calls.sendClosure.Fail? then Handled(Err(Converted(calls.sendClosure.error)), agent, [])
        else
          match calls.sendRequest
          case Err(f) => Handled(Err(Converted(f)), agent, [RequestDispatched])
          case Ok(code) =>
            var advanced := holder.(state := code);
            Handled(Ok(Reply(HolderState(advanced.state), None)), agent, [RequestDispatched])
  }

  /** Reports the state of exchange `id`: its issuer's, else its holder's, else creates a
      holder from the last credential offer in the last connection's inbox, in the order
      `get_messages` returns. */
  function GetIssuerState(agent: Agent, id: string, calls: LookupCalls): (h: Handled)
    // an existing issuer or holder is read without any side effect
    ensures GetIssuer(agent.db, id).Some? ==>
      h == Handled(Ok(Reply(IssuerState(GetIssuer(agent.db, id).value.state), None)), agent, [])
    ensures GetIssuer(agent.db, id).None? && GetHolder(agent.db, id).Some? ==>
      h == Handled(Ok(Reply(HolderState(GetHolder(agent.db, id).value.state), None)), agent, [])
    // otherwise a connection is needed before the inbox is read
    ensures GetIssuer(agent.db, id).None? && GetHolder(agent.db, id).None? && agent.lastConnection.None? ==>
      h == Handled(Err(InternalServerError(NoConnectionEstablished)), agent, [])
    ensures InboxRead in h.effects <==>
      GetIssuer(agent.db, id).None? && GetHolder(agent.db, id).None? && agent.lastConnection.Some?
    ensures InboxRead in h.effects && calls.messages.Err? ==>
      h.result == Err(Converted(calls.messages.error))
    // an inbox with no credential offer makes the lookup panic
    ensures InboxRead in h.effects && calls.messages.Ok? && Inbox.LatestOffer(calls.messages.value).None? ==>
      h.result == Err(Panicked(UnwrapOnNone)) && h.effects == [InboxRead]
    ensures InboxRead in h.effects && calls.messages.Ok? && Inbox.LatestOffer(calls.messages.value).Some? ==>
      && (calls.create.Err? ==> h.result == Err(Converted(calls.create.error)) && h.effects == [InboxRead])
      && (calls.create.Ok? ==> h.effects == [InboxRead, StoreWrite(id)])
      && (calls.create.Ok? && calls.store.Fail? ==> h.result == Err(Converted(calls.store.error)))
      && (calls.create.Ok? && calls.store.Pass? ==> h.result.Ok?)
    ensures h.result.Err? ==> h.agent == agent
    ensures h.agent.lastConnection == agent.lastConnection
    // the only write: a holder for the last offer, under `id`, reported as "offer-received"
    ensures h.agent != agent ==>
      && InboxRead in h.effects && h.result == Ok(Reply(OfferReceived, None))
      && OnlyKeyChanged(agent.db, h.agent.db, id)
      && GetHolder(h.agent.db, id).Some?
      && var holder := GetHolder(h.agent.db, id).value;
         && calls.messages.Ok? && Inbox.IsLatestOffer(calls.messages.value, holder.offer)
         && holder.sourceId == id
         && calls.create == Ok(holder.state)
    ensures InboxRead in h.effects && h.result.Ok? ==> h.agent != agent
  {
    match GetIssuer(agent.db, id)
    case Some(issuer) => Handled(Ok(Reply(IssuerState(issuer.state), None)), agent, [])
    case None =>
      match GetHolder(agent.db, id)
      case Some(holder) => Handled(Ok(Reply(HolderState(holder.state), None)), agent, [])
      case None =>
        if agent.lastConnection.None? then
          Handled(Err(InternalServerError(NoConnectionEstablished)), agent, [])
        else
          match calls.messages
          case Err(f) => Handled(Err(Converted(f)), agent, [InboxRead])
          case Ok(inbox) =>
            match Inbox.LatestOffer(inbox)
            case None => Handled(Err(Panicked(UnwrapOnNone)), agent, [InboxRead])
            case Some(offer) =>
              match calls.create
              case Err(f) => Handled(Err(Converted(f)), agent, [InboxRead])
              case Ok(code) =>
                if calls.store.Fail? then
                  Handled(Err(Converted(calls.store.error)), agent, [InboxRead, StoreWrite(id)])
                else
                  var holder := Holder(offer, id, code);
                  Handled(Ok(Reply(OfferReceived, None)), agent.(db := agent.db[id := HolderRecord(holder)]),
                          [InboxRead, StoreWrite(id)])
  }
}
