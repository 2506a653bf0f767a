/** Properties that relate several calls of the orchestrator, or that every operation keeps. */
module IssuanceProperties {
  import opened Outcomes
  import opened States
  import Inbox
  import opened Issuance

  /** Right after a successful offer, the exchange's state is the new issuer's, read without
      touching the inbox; with vcx reporting the issuer as having sent its offer, that is "offer-sent". */
  lemma OfferThenState(agent: Agent, offer: CredentialOffer, id: string, calls: OfferCalls, lookup: LookupCalls)
    requires SendCredentialOffer(agent, offer, id, calls).result.Ok?
    ensures var after := SendCredentialOffer(agent, offer, id, calls).agent;
      GetIssuerState(after, id, lookup) == Handled(Ok(Reply(IssuerState(calls.sendOffer.value), None)), after, [])
    ensures calls.sendOffer == Ok(VcxOfferSent) ==>
      GetIssuerState(SendCredentialOffer(agent, offer, id, calls).agent, id, lookup).result == Ok(Reply(OfferSent, None))
  {
  }

  /** With a fresh id, a successful offer adds exactly one record to the store. */
  lemma OfferAddsOneRecord(agent: Agent, offer: CredentialOffer, id: string, calls: OfferCalls)
    requires id !in agent.db
    requires SendCredentialOffer(agent, offer, id, calls).result.Ok?
    ensures |SendCredentialOffer(agent, offer, id, calls).agent.db| == |agent.db| + 1
  {
    var after := SendCredentialOffer(agent, offer, id, calls).agent.db;
    assert after.Keys == agent.db.Keys + {id};
  }

  /** A holder created lazily by a state query is found by the next query, which returns its
      state without reading the inbox again, whatever the inbox now holds. */
  lemma LazyHolderIsRemembered(agent: Agent, id: string, calls: LookupCalls, again: LookupCalls)
    requires var h := GetIssuerState(agent, id, calls); h.result.Ok? && InboxRead in h.effects
    ensures var after := GetIssuerState(agent, id, calls).agent;
      GetIssuerState(after, id, again) == Handled(Ok(Reply(HolderState(calls.create.value), None)), after, [])
    ensures calls.create == Ok(VcxRequestReceived) ==>
      GetIssuerState(GetIssuerState(agent, id, calls).agent, id, again).result == GetIssuerState(agent, id, calls).result
  {
  }

  /** A request never moves the reported state: the advanced holder is not stored, so the next
      query still reports the state the holder had before the request. */
  lemma RequestLeavesStoredStateStale(agent: Agent, id: string, calls: RequestCalls, lookup: LookupCalls)
    ensures GetIssuerState(SendCredentialRequest(agent, id, calls).agent, id, lookup) == GetIssuerState(agent, id, lookup)
  {
  }

  /** An inbox holding two credential offers yields a holder for the later one, and only that
      one record is added to the store. */
  lemma {:induction false} TwoOffersPickTheLater(
    agent: Agent, id: string, first: Inbox.VcxCredentialOffer, second: Inbox.VcxCredentialOffer,
    kind: string, code: VcxState)
    requires id !in agent.db && agent.lastConnection.Some?
    ensures var inbox := [Inbox.CredentialOffer(first), Inbox.OtherMessage(kind), Inbox.CredentialOffer(second)];
      var h := GetIssuerState(agent, id, LookupCalls(Ok(inbox), Ok(code), Pass));
      && h.result == Ok(Reply(OfferReceived, None))
      && h.agent.db == agent.db[id := HolderRecord(Holder(second, id, code))]
      && |h.agent.db| == |agent.db| + 1
  {
    var inbox := [Inbox.CredentialOffer(first), Inbox.OtherMessage(kind), Inbox.CredentialOffer(second)];
    Inbox.LatestOfferOfNewOffer(inbox[..2], second);
    assert inbox[..2] + [Inbox.CredentialOffer(second)] == inbox;
  }

  /** Every issuer and holder in the store is stored under its own source id. */
  ghost predicate RolesKeyedBySourceId(db: Store) {
    forall k :: k in db ==>
      && (db[k].IssuerRecord? ==> db[k].issuer.sourceId == k)
      && (db[k].HolderRecord? ==> db[k].holder.sourceId == k)
  }

  /** Every stored connection is still stored, unchanged, in `after`. */
  ghost predicate ConnectionsKept(before: Store, after: Store) {
    forall k :: k in before && before[k].ConnectionRecord? ==> k in after && after[k] == before[k]
  }

  /** All three operations keep role objects keyed by their source id, never drop a key,
      and never change the last connection. */
  lemma OperationsPreserveStore(agent: Agent, id: string, offer: CredentialOffer,
                                offerCalls: OfferCalls, requestCalls: RequestCalls, lookup: LookupCalls)
    requires RolesKeyedBySourceId(agent.db)
    ensures var a := SendCredentialOffer(agent, offer, id, offerCalls).agent;
      RolesKeyedBySourceId(a.db) && agent.db.Keys <= a.db.Keys && a.lastConnection == agent.lastConnection
    ensures var a := SendCredentialRequest(agent, id, requestCalls).agent;
      RolesKeyedBySourceId(a.db) && agent.db.Keys <= a.db.Keys && a.lastConnection == agent.lastConnection
    ensures var a := GetIssuerState(agent, id, lookup).agent;
      RolesKeyedBySourceId(a.db) && agent.db.Keys <= a.db.Keys && a.lastConnection == agent.lastConnection
  {
    var a := SendCredentialOffer(agent, offer, id, offerCalls).agent;
    if a != agent {
      assert GetIssuer(a.db, id).value.sourceId == id;
    }
    var b := GetIssuerState(agent, id, lookup).agent;
    if b != agent {
      assert GetHolder(b.db, id).value.sourceId == id;
    }
  }

  /** Stored connections survive an offer under a fresh id and a query under an id that is
      not a connection's. */
  lemma OperationsKeepConnections(agent: Agent, id: string, offer: CredentialOffer,
                                  offerCalls: OfferCalls, lookup: LookupCalls)
    ensures id !in agent.db ==> ConnectionsKept(agent.db, SendCredentialOffer(agent, offer, id, offerCalls).agent.db)
    ensures GetConnection(agent.db, id).None? ==> ConnectionsKept(agent.db, GetIssuerState(agent, id, lookup).agent.db)
  {
  }

  /** A query for an id under which a connection is stored takes the lazy branch: the typed
      reads find no issuer and no holder there, and, once an offer is found and the holder is
      written, the connection under that id is gone. */
  lemma QueryReplacesConnection(agent: Agent, id: string, calls: LookupCalls)
    requires GetConnection(agent.db, id).Some? && agent.lastConnection.Some?
    requires calls.messages.Ok? && Inbox.LatestOffer(calls.messages.value).Some?
    requires calls.create.Ok? && calls.store.Pass?
    ensures var h := GetIssuerState(agent, id, calls);
      && h.result == Ok(Reply(OfferReceived, None))
      && GetConnection(h.agent.db, id).None?
      && GetHolder(h.agent.db, id).Some?
      && h.agent.db.Keys == agent.db.Keys
  {
  }

  /** The not-found message of an offer names the id it is given. */
  lemma ConnectionNotFoundNames(id: string)
    ensures |ConnectionNotFound(id)| == |"Connection with id "| + |id| + |" not found"|
    ensures ConnectionNotFound(id)[|"Connection with id "|..|"Connection with id "| + |id|] == id
  {
  }

  /** Different ids give different not-found messages. */
  lemma ConnectionNotFoundInjective(a: string, b: string)
    requires ConnectionNotFound(a) == ConnectionNotFound(b)
    ensures a == b
  {
    ConnectionNotFoundNames(a);
    ConnectionNotFoundNames(b);
  }

  /** As written, the offer's not-found error names the freshly generated session id, so it
      never names the missing connection when the two ids differ. */
  lemma OfferNotFoundNamesFreshId(agent: Agent, offer: CredentialOffer, id: string, calls: OfferCalls)
    requires GetConnection(agent.db, offer.connectionId).None?
    requires id != offer.connectionId
    ensures var r := SendCredentialOffer(agent, offer, id, calls).result;
      r.Err? && r.error.NotFoundError? && r.error.message != ConnectionNotFound(offer.connectionId)
  {
    if ConnectionNotFound(id) == ConnectionNotFound(offer.connectionId) {
      ConnectionNotFoundInjective(id, offer.connectionId);
    }
  }

  /** The concrete case: connection "C1" is not stored and the fresh id is "U1". */
  lemma OfferNotFoundExample(calls: OfferCalls)
    ensures var offer := CredentialOffer("CD1", CredentialPreview("", []), "C1");
      SendCredentialOffer(Agent(map[], None), offer, "U1", calls).result
        == Err(NotFoundError("Connection with id U1 not found"))
  {
    assert ConnectionNotFound("U1") == "Connection with id U1 not found";
  }

  /** With the intended message, every not-found error of an offer names the missing
      connection, and the connection id can be read back from it. */
  lemma IntendedOfferNamesConnection(agent: Agent, offer: CredentialOffer, id: string, calls: OfferCalls)
    ensures var r := SendCredentialOfferIntended(agent, offer, id, calls).result;
      r.Err? && r.error.NotFoundError? ==>
        && r.error.message == ConnectionNotFound(offer.connectionId)
        && r.error.message[|"Connection with id "|..|"Connection with id "| + |offer.connectionId|] == offer.connectionId
  {
    ConnectionNotFoundNames(offer.connectionId);
  }
}
