/** The two state mappings of the issuance controller: a vcx protocol state, as reported by an
    Issuer or a Holder, is translated into the test harness's external state vocabulary. */
module States {
  import opened Outcomes

  /** A decoded vcx state code. Only the codes the controller distinguishes are named;
      every other code decodes to `VcxOther`. */
  datatype VcxState =
    | VcxInitialized
    | VcxOfferSent
    | VcxRequestReceived
    | VcxAccepted
    | VcxOther

  /** The external states the harness reports (serialised as "offer-sent", "request-received", ...). */
  datatype HarnessState =
    | Initial
    | OfferSent
    | RequestReceived
    | CredentialSent
    | OfferReceived
    | RequestSent
    | CredentialReceived
    | Unknown

  const IssuerVocabulary: set<HarnessState> := {Initial, OfferSent, RequestReceived, CredentialSent, Unknown}
  const HolderVocabulary: set<HarnessState> := {OfferReceived, RequestSent, CredentialReceived, Unknown}

  /** The vcx code an issuer must be in to be reported in external state `s`, if any. */
  function IssuerCode(s: HarnessState): Option<VcxState> {
    match s
    case Initial => Some(VcxInitialized)
    case OfferSent => Some(VcxOfferSent)
    case RequestReceived => Some(VcxRequestReceived)
    case CredentialSent => Some(VcxAccepted)
    case _ => None
  }

  /** The vcx code a holder must be in to be reported in external state `s`, if any.
      vcx reuses the issuer-side codes for the holder: a holder that has received an offer
      reports "request received", one that has sent its request reports "offer sent". */
  function HolderCode(s: HarnessState): Option<VcxState> {
    match s
    case OfferReceived => Some(VcxRequestReceived)
    case RequestSent => Some(VcxOfferSent)
    case CredentialReceived => Some(VcxAccepted)
    case _ => None
  }

  /** External state of an issuer whose vcx state is `code`. */
  function IssuerState(code: VcxState): (s: HarnessState)
    ensures s in IssuerVocabulary
    ensures s == Unknown <==> code == VcxOther
    ensures s != Unknown ==> IssuerCode(s) == Some(code)
  {
    match code
    case VcxInitialized => Initial
    case VcxOfferSent => OfferSent
    case VcxRequestReceived => RequestReceived
    case VcxAccepted => CredentialSent
    case VcxOther => Unknown
  }

  /** External state of a holder whose vcx state is `code`. */
  function HolderState(code: VcxState): (s: HarnessState)
    ensures s in HolderVocabulary
    ensures s == Unknown <==> code == VcxInitialized || code == VcxOther
    ensures s != Unknown ==> HolderCode(s) == Some(code)
  {
    match code
    case VcxRequestReceived => OfferReceived
    case VcxOfferSent => RequestSent
    case VcxAccepted => CredentialReceived
    case _ => Unknown
  }

  /** The contract of `IssuerState` pins it down: any mapping with the same vocabulary,
      the same fallback and the same inverse is `IssuerState`. */
  lemma IssuerStateExact(f: VcxState -> HarnessState)
    requires forall c :: f(c) in IssuerVocabulary
    requires forall c :: f(c) == Unknown <==> c == VcxOther
    requires forall c :: f(c) != Unknown ==> IssuerCode(f(c)) == Some(c)
    ensures forall c :: f(c) == IssuerState(c)
  {
    forall c ensures f(c) == IssuerState(c) {
      if c != VcxOther {
        assert IssuerCode(f(c)) == Some(c) == IssuerCode(IssuerState(c));
      }
    }
  }

  /** Likewise for `HolderState`: vocabulary, fallback and inverse determine it. */
  lemma HolderStateExact(f: VcxState -> HarnessState)
    requires forall c :: f(c) in HolderVocabulary
    requires forall c :: f(c) == Unknown <==> c == VcxInitialized || c == VcxOther
    requires forall c :: f(c) != Unknown ==> HolderCode(f(c)) == Some(c)
    ensures forall c :: f(c) == HolderState(c)
  {
    forall c ensures f(c) == HolderState(c) {
      if c != VcxInitialized && c != VcxOther {
        assert HolderCode(f(c)) == Some(c) == HolderCode(HolderState(c));
      }
    }
  }

  /** The holder mapping reads each shared vcx code as the counterpart of the issuer's step:
      the code for which the issuer reports "request-received" is the holder's "offer-received",
      the issuer's "offer-sent" is the holder's "request-sent", and both finish on the same code.
      A freshly created (initialized) object is "Initial" for an issuer but unknown for a holder. */
  lemma HolderMirrorsIssuer(c: VcxState)
    ensures HolderState(c) == OfferReceived <==> IssuerState(c) == RequestReceived
    ensures HolderState(c) == RequestSent <==> IssuerState(c) == OfferSent
    ensures HolderState(c) == CredentialReceived <==> IssuerState(c) == CredentialSent
    ensures HolderState(c) == Unknown <==> IssuerState(c) in {Initial, Unknown}
  {
  }
}
