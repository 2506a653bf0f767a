/** The part of a connection's inbox the controller looks at: which messages are credential
    offers, and which offer is the last one in the order `get_messages` returns. */
module Inbox {
  import opened Outcomes

  /** A credential offer as received from the peer; its content is opaque to the controller. */
  datatype VcxCredentialOffer = VcxCredentialOffer(threadId: string, credDefId: string)

  /** An inbox message: a credential offer or any other kind of message. An inbox is a
      sequence in the order in which vcx's `get_messages` returns the messages. */
  datatype A2AMessage =
    | CredentialOffer(offer: VcxCredentialOffer)
    | OtherMessage(kind: string)

  /** No credential offer comes after position `i`. */
  ghost predicate NoOfferAfter(inbox: seq<A2AMessage>, i: int) {
    forall j :: 0 <= j < |inbox| && i < j ==> !inbox[j].CredentialOffer?
  }

  /** `o` is the offer carried by the last credential-offer message of the inbox, last in the
      order `get_messages` returns. */
  ghost predicate IsLatestOffer(inbox: seq<A2AMessage>, o: VcxCredentialOffer) {
    exists i :: 0 <= i < |inbox| && inbox[i] == CredentialOffer(o) && NoOfferAfter(inbox, i)
  }

  /** The offers carried by the inbox's credential-offer messages, in inbox order. */
  function CredentialOffers(inbox: seq<A2AMessage>): (offers: seq<VcxCredentialOffer>)
    ensures |offers| <= |inbox|
    ensures forall o :: o in offers <==> CredentialOffer(o) in inbox
    ensures |offers| > 0 ==> IsLatestOffer(inbox, offers[|offers| - 1])
    decreases |inbox|
  {
    if |inbox| == 0 then []
    else
      var earlier := inbox[..|inbox| - 1];
      assert inbox == earlier + [inbox[|inbox| - 1]];
      var found := CredentialOffers(earlier);
      match inbox[|inbox| - 1]
      case CredentialOffer(o) =>
        assert NoOfferAfter(inbox, |inbox| - 1);
        found + [o]
      case OtherMessage(_) =>
        assert |found| > 0 ==> IsLatestOffer(inbox, found[|found| - 1]) by {
          if |found| > 0 {
            var i :| 0 <= i < |earlier| && earlier[i] == CredentialOffer(found[|found| - 1]) && NoOfferAfter(earlier, i);
            assert inbox[i] == earlier[i];
            assert NoOfferAfter(inbox, i);
          }
        }
        found
  }

  /** Each offer is kept as many times as credential-offer messages carry it. */
  lemma {:induction false} CredentialOffersKeepMultiplicity(inbox: seq<A2AMessage>, o: VcxCredentialOffer)
    ensures multiset(CredentialOffers(inbox))[o] == multiset(inbox)[CredentialOffer(o)]
    decreases |inbox|
  {
    if |inbox| > 0 {
      var earlier := inbox[..|inbox| - 1];
      var last := inbox[|inbox| - 1];
      assert inbox == earlier + [last];
      assert multiset(inbox) == multiset(earlier) + multiset{last};
      CredentialOffersKeepMultiplicity(earlier, o);
      var found := CredentialOffers(earlier);
      if last.CredentialOffer? {
        assert multiset(found + [last.offer]) == multiset(found) + multiset{last.offer};
      }
    }
  }

  /** The offer the controller builds a holder from: the last of the filtered offers. */
  function LatestOffer(inbox: seq<A2AMessage>): (r: Option<VcxCredentialOffer>)
    ensures r.None? <==> forall i :: 0 <= i < |inbox| ==> !inbox[i].CredentialOffer?
    ensures r.Some? ==> IsLatestOffer(inbox, r.value)
  {
    var offers := CredentialOffers(inbox);
    if |offers| == 0 then None
    else
      assert offers[0] in offers;
      Some(offers[|offers| - 1])
  }

  /** At most one offer is last among the inbox's offers, so `LatestOffer` is determined by `IsLatestOffer`. */
  lemma LatestOfferUnique(inbox: seq<A2AMessage>, a: VcxCredentialOffer, b: VcxCredentialOffer)
    requires IsLatestOffer(inbox, a) && IsLatestOffer(inbox, b)
    ensures a == b
  {
    var i :| 0 <= i < |inbox| && inbox[i] == CredentialOffer(a) && NoOfferAfter(inbox, i);
    var j :| 0 <= j < |inbox| && inbox[j] == CredentialOffer(b) && NoOfferAfter(inbox, j);
  }

  /** `LatestOffer` picks exactly the inbox's last offer, in both directions. */
  lemma LatestOfferIff(inbox: seq<A2AMessage>, o: VcxCredentialOffer)
    ensures LatestOffer(inbox) == Some(o) <==> IsLatestOffer(inbox, o)
  {
    if IsLatestOffer(inbox, o) {
      var i :| 0 <= i < |inbox| && inbox[i] == CredentialOffer(o) && NoOfferAfter(inbox, i);
      assert inbox[i].CredentialOffer?;
      LatestOfferUnique(inbox, LatestOffer(inbox).value, o);
    }
  }

  /** An offer placed last in the inbox becomes the chosen offer, whatever comes before it. */
  lemma {:induction false} LatestOfferOfNewOffer(inbox: seq<A2AMessage>, o: VcxCredentialOffer)
    ensures LatestOffer(inbox + [CredentialOffer(o)]) == Some(o)
  {
    var grown := inbox + [CredentialOffer(o)];
    assert grown[|grown| - 1] == CredentialOffer(o);
    assert NoOfferAfter(grown, |grown| - 1);
    LatestOfferIff(grown, o);
  }

  /** A message of another kind does not change which offer is chosen. */
  lemma {:induction false} LatestOfferIgnoresOtherMessage(inbox: seq<A2AMessage>, kind: string)
    ensures LatestOffer(inbox + [OtherMessage(kind)]) == LatestOffer(inbox)
  {
    var grown := inbox + [OtherMessage(kind)];
    assert grown[..|grown| - 1] == inbox;
  }
}
