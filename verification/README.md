# Issuance-session routing of the aries-vcx backchannel

This project models, in Dafny, the credential-issuance controller of the aries-vcx backchannel
of the Aries agent test harness (`aries-backchannels/aries-vcx/src/controllers/issuance.rs`).

The controller has three parts:

- Two total state mappings. They translate a vcx protocol state, reported by an `Issuer` or a
  `Holder`, into the harness's external state vocabulary. `Unknown` is the fallback.
  The holder mapping reads vcx's shared codes from the holder's side. The code "request received"
  is the holder's "offer-received", and the code "offer sent" is the holder's "request-sent".
- Three `Agent` operations:
  - `send_credential_offer` creates an issuer under a fresh id, sends the offer and stores the issuer.
  - `send_credential_request` advances a stored holder by sending its request over the last connection.
  - `get_issuer_state` reports the state of an exchange in three tiers: the stored issuer, else the
    stored holder, else a holder it creates from the last credential offer in the last connection's inbox.
    "Last" means last in the order in which vcx's `get_messages` returns the messages.
- The session store. One map from id to a tagged record: Issuer, Holder or Connection. The
  store is foreign. The model assumes that a typed read (`db.get::<T>`) finds only a record of
  the requested kind, never a record of another kind decoded as it.

Every operation is a pure function. It takes the agent (the store and the optional last
connection) and returns a `Handled` value with three parts: the reply or error, the agent
afterwards, and the side effects it attempted, in order. The effects are sends, inbox reads and
store writes. Recording them makes "no send before the checks" and "no second inbox scan" observable.

Foreign calls are inputs to the model. The fresh uuid is a parameter. So are the outcome of each
vcx call (`Issuer::create`, `send_message_closure`, the sends, `Holder::create`, `get_messages`)
and the outcome of each store write. A successful send or create also reports the vcx state
the role object is in afterwards.

Files:

- `outcomes.dfy`: `Option`, `Result` and `Outcome`.
- `states.dfy`: the two mappings, their inverses and their exactness.
- `inbox.dfy`: the credential-offer filter and the choice of the last offer.
- `issuance.dfy`: the agent, the store and the three operations.
- `properties.dfy`: properties that relate several calls, and the invariants every operation keeps.

Three behaviours of the code are easy to miss; the model follows the code:

- The code does not store the holder after `send_credential_request`. A later state query still
  reports the holder's state from before the request (`RequestLeavesStoredStateStale`).
- The code unwraps the last offer. With no offer in the inbox it panics, which the model
  reports as `Panicked`. Nothing is written before the panic, so the store is unchanged.
- Under the typed-read assumption above, the reads find no issuer and no holder under an id
  that holds a connection. A state query for that id therefore takes the lazy branch, and it overwrites the stored connection
  with a new holder (`QueryReplacesConnection`).

## Model

| member | source | states |
|---|---|---|
| States.IssuerState | aries-backchannels/aries-vcx/src/controllers/issuance.rs:30-38 | The issuer's state is always in the issuer vocabulary. It is `Unknown` exactly for an unrecognised code. Otherwise it is the one external state whose issuer code is the given code. |
| States.HolderState | aries-backchannels/aries-vcx/src/controllers/issuance.rs:40-47 | The holder's state is always in the holder vocabulary. It is `Unknown` exactly for an initialized or unrecognised code. Otherwise it is the one holder state whose code is the given code (request received is offer-received, offer sent is request-sent, accepted is credential-received). |
| States.IssuerStateExact | aries-backchannels/aries-vcx/src/controllers/issuance.rs:30-38 | Any mapping with the issuer mapping's vocabulary, fallback and inverse equals it on every code, so the mapping is total and exact. |
| States.HolderStateExact | aries-backchannels/aries-vcx/src/controllers/issuance.rs:40-47 | The same exactness for the holder mapping, including that `VcxInitialized` gives `Unknown`. |
| States.HolderMirrorsIssuer | aries-backchannels/aries-vcx/src/controllers/issuance.rs:30-47 | For each code, the holder reports offer-received, request-sent or credential-received exactly when the issuer would report request-received, offer-sent or credential-sent. The holder reports unknown exactly when the issuer reports Initial or unknown. |
| Inbox.CredentialOffers | aries-backchannels/aries-vcx/src/controllers/issuance.rs:92-100 | The filtered offers are the same offers, as a set, as those carried by credential-offer messages. The list is no longer than the inbox, and its last element is the offer of the inbox's last credential-offer message. |
| Inbox.CredentialOffersKeepMultiplicity | aries-backchannels/aries-vcx/src/controllers/issuance.rs:92-100 | The filter keeps each offer exactly as many times as credential-offer messages carry it. |
| Inbox.LatestOffer | aries-backchannels/aries-vcx/src/controllers/issuance.rs:92-101 | There is no result exactly when the inbox holds no credential offer. Otherwise the result is an offer with no other offer after it. |
| Inbox.LatestOfferUnique | aries-backchannels/aries-vcx/src/controllers/issuance.rs:101 | At most one offer is carried by the inbox's last credential-offer message. |
| Inbox.LatestOfferIff | aries-backchannels/aries-vcx/src/controllers/issuance.rs:101 | `.last()` of the filtered offers yields `o` if and only if `o` is carried by the last credential-offer message in inbox order. |
| Inbox.LatestOfferOfNewOffer | aries-backchannels/aries-vcx/src/controllers/issuance.rs:92-101 | An offer placed last in the inbox sequence is chosen, whatever comes before it. |
| Inbox.LatestOfferIgnoresOtherMessage | aries-backchannels/aries-vcx/src/controllers/issuance.rs:94-99 | A message of another kind does not change the chosen offer. |
| Issuance.SendCredentialOffer | aries-backchannels/aries-vcx/src/controllers/issuance.rs:50-64 | A missing connection fails with NotFoundError naming the fresh id, before any other call. Each later failure reports its own fault in call order: create, closure, send, write. No send is attempted before create and closure succeed. Every failure leaves the agent unchanged. Success replies offer-sent with the fresh id as thread id. It stores one issuer under that id and changes nothing else. The stored issuer carries the offer's definition id and preview, no revocation registry, no tails file, and the post-send vcx state. |
| Issuance.SendCredentialOfferIntended | aries-backchannels/aries-vcx/src/controllers/issuance.rs:52-53 | The corrected offer. A missing connection is reported with a message that names the connection id. Every other outcome is as in `SendCredentialOffer`. |
| Issuance.SendCredentialRequest | aries-backchannels/aries-vcx/src/controllers/issuance.rs:66-75 | It never changes the agent and never writes to the store. A missing holder gives NotFoundError. Then a missing last connection gives InternalServerError. Both checks come before any send. It succeeds exactly when the closure and the send succeed. The reply is the holder mapping of the holder's post-send state. |
| Issuance.GetIssuerState | aries-backchannels/aries-vcx/src/controllers/issuance.rs:77-108 | A stored issuer is reported first, then a stored holder. Both are read with no side effect and the agent unchanged. Otherwise a missing last connection gives InternalServerError before the inbox is read. An inbox read failure, a missing offer (panic), a create failure or a write failure each leave the agent unchanged. The only change is a holder for the last offer in inbox order, stored under the id, with reply offer-received. |
| IssuanceProperties.OfferThenState | aries-backchannels/aries-vcx/src/controllers/issuance.rs:60-82 | Right after a successful offer, the state query returns the new issuer's mapped state with no side effect. When vcx reports the offer as sent, that state is offer-sent. |
| IssuanceProperties.OfferAddsOneRecord | aries-backchannels/aries-vcx/src/controllers/issuance.rs:62 | Under a fresh id, a successful offer grows the store by exactly one record. |
| IssuanceProperties.LazyHolderIsRemembered | aries-backchannels/aries-vcx/src/controllers/issuance.rs:84-103 | After a query creates a holder, the next query takes the holder branch. It returns that holder's state without reading the inbox, whatever the inbox holds. |
| IssuanceProperties.RequestLeavesStoredStateStale | aries-backchannels/aries-vcx/src/controllers/issuance.rs:66-88 | A state query after a credential request gives the same answer as one before it. |
| IssuanceProperties.TwoOffersPickTheLater | aries-backchannels/aries-vcx/src/controllers/issuance.rs:89-103 | Take an inbox with two offers and an unknown id. The query stores exactly one holder, built from the offer that comes second in the order `get_messages` returns, and replies offer-received. |
| IssuanceProperties.OperationsPreserveStore | aries-backchannels/aries-vcx/src/controllers/issuance.rs:50-108 | All three operations keep every role object stored under its own source id. They never drop a key and never change the last connection. |
| IssuanceProperties.OperationsKeepConnections | aries-backchannels/aries-vcx/src/controllers/issuance.rs:52-102 | Stored connections survive an offer under a fresh id. They also survive a query for an id that does not hold a connection. |
| IssuanceProperties.QueryReplacesConnection | aries-backchannels/aries-vcx/src/controllers/issuance.rs:84-102 | For every agent and id under which a connection is stored, a query takes the lazy branch. When an offer is found and the create and write succeed, it replies offer-received. The connection under that id is then gone, replaced by a holder, and no key is added. |
| IssuanceProperties.OfferNotFoundNamesFreshId | aries-backchannels/aries-vcx/src/controllers/issuance.rs:51-53 | As written, when the fresh id differs from the connection id, the not-found error never names the missing connection. |
| IssuanceProperties.OfferNotFoundExample | aries-backchannels/aries-vcx/src/controllers/issuance.rs:51-53 | Connection "C1" absent and fresh id "U1" give "Connection with id U1 not found". |
| IssuanceProperties.IntendedOfferNamesConnection | aries-backchannels/aries-vcx/src/controllers/issuance.rs:52-53 | Every not-found error of the corrected offer has the message that names the missing connection, and the connection id can be read back from it. |

## Findings

| source | as written | input that shows it | evidently intended | confidence | as-written member | corrected member |
|---|---|---|---|---|---|---|
| aries-backchannels/aries-vcx/src/controllers/issuance.rs:51-53 | The "Connection with id {} not found" message formats `id`, the uuid just generated, rather than the connection id that was looked up. | An offer for connection "C1" with no such connection stored, and fresh id "U1", gives "Connection with id U1 not found". | The message names "C1", the connection that is missing. | high, not executed | IssuanceProperties.OfferNotFoundNamesFreshId | Issuance.SendCredentialOfferIntended |

## Left out

- The actix-web handlers, the route scope, the `Cache-Control` header and `config` (lines 111-135) are HTTP plumbing.
- The `Mutex` around the agent is left out because it is concurrency. So is the poisoning of that mutex when `get_issuer_state` panics on an inbox with no offer. The model only reports the panic as `Panicked`, with the store unchanged.
- The vcx internals are left out because they are foreign library code. That covers `Issuer`, `Holder`, `Connection`, the anoncreds calls and the decoding of numeric codes (`VcxStateType::from_u32`). Role objects carry a decoded `VcxState`. Each vcx call is an outcome given by the caller.
- The failure of `issuer.get_state().unwrap()` inside the issuer mapping is left out. The model assumes the issuer always reports a code.
- serde is left out: the JSON encoding of the preview and of the replies. Replies are a `Reply` datatype. The model assumes `State` serialises to the strings "offer-sent", "offer-received", and so on. Serialising the preview cannot fail for its field types, so that error path is not modelled.
- The session store's decoding is left out because the store is foreign. The model assumes a stored record of one kind never decodes as another: a Connection is never read as an `Issuer` or a `Holder`. `QueryReplacesConnection` and `OperationsKeepConnections` rest on that assumption.
- uuid generation is left out. The fresh id is a parameter, and freshness is a precondition only where a property needs it.
- The order of the inbox is vcx's. The code takes `.last()` in whatever order `get_messages` returns the messages. The model takes that order as given and makes no claim that it is arrival order. "Last offer" in this model means last in that order.
- Message transport is left out. A send is a possibly failing outcome. The inbox is a given, possibly failing, sequence of messages. Message uids are dropped. The `pw_did` handed to `send_request` is not modelled, because the send's outcome is an input.
