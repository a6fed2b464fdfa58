/**
 * `verify_smtp`: extract the domain, look up its mail exchangers, and try an
 * SMTP handshake with the first one. The DNS lookup (`get_mx_records`) and
 * the connect/EHLO/QUIT exchange are parameters of the model: `resolve`
 * gives what the lookup returned for a domain, `handshake` whether the
 * exchange with a host completed without raising.
 */
module Probe {
  import opened Wrappers
  import opened Text
  import opened Pattern

  /** One answer of an MX query: the exchanger's host name and its preference. */
  datatype MxRecord = MxRecord(exchange: string, preference: int)

  /** What `get_mx_records` returns: the error text of a failed query, or the records in resolver order. */
  datatype MxLookup = LookupFailed(reason: string) | Found(records: seq<MxRecord>)

  /** What `verify_smtp` returns: a boolean, or a diagnostic string. */
  datatype SmtpResult = Flag(value: bool) | Diagnostic(text: string)

  /** Python truthiness of a `verify_smtp` result. */
  predicate Truthy(r: SmtpResult) {
    match r
    case Flag(b) => b
    case Diagnostic(text) => text != []
  }

  const MxErrorPrefix: string := "Error retrieving MX records: "

  /** `email.split('@')[1]`, or None where that raises IndexError. */
  function DomainOf(email: string): (d: Option<string>)
    ensures d.None? <==> '@' !in email
    ensures d.Some? ==> '@' !in d.value
  {
    var parts := Split(email, '@');
    SplitSpec(email, '@');
    assert '@' in email <==> multiset(email)['@'] > 0;
    if |parts| < 2 then None else Some(parts[1])
  }

  function VerifySmtp(email: string, resolve: string -> MxLookup, handshake: string -> bool): SmtpResult {
    match DomainOf(email)
    case None => Flag(false)
    case Some(domain) =>
      match resolve(domain)
      case LookupFailed(reason) => Diagnostic(MxErrorPrefix + reason)
      case Found(records) =>
        if |records| == 0 then Flag(false)
        else Flag(handshake(records[0].exchange))
  }

  /** Without an `@` the probe answers False: the failed split is caught, nothing is looked up. */
  lemma NoAtIsFalse(email: string, resolve: string -> MxLookup, handshake: string -> bool)
    requires '@' !in email
    ensures VerifySmtp(email, resolve, handshake) == Flag(false)
  {
  }

  /**
   * The three outcomes once a domain is found: a non-empty diagnostic naming
   * the lookup error, False for an empty answer, and otherwise the handshake
   * with the first exchanger.
   */
  lemma ProbeOutcomes(email: string, resolve: string -> MxLookup, handshake: string -> bool)
    requires '@' in email
    ensures var r := VerifySmtp(email, resolve, handshake);
      var lookup := resolve(DomainOf(email).value);
      && (lookup.LookupFailed? ==>
            r.Diagnostic? && r.text == MxErrorPrefix + lookup.reason && Truthy(r))
      && (lookup.Found? && lookup.records == [] ==> r == Flag(false))
      && (lookup.Found? && lookup.records != [] ==> r == Flag(handshake(lookup.records[0].exchange)))
  {
  }

  /** The result is truthy exactly on a lookup error or a successful handshake with the first exchanger. */
  lemma TruthyIff(email: string, resolve: string -> MxLookup, handshake: string -> bool)
    ensures Truthy(VerifySmtp(email, resolve, handshake)) <==>
      '@' in email &&
      var lookup := resolve(DomainOf(email).value);
      lookup.LookupFailed? || (lookup.records != [] && handshake(lookup.records[0].exchange))
  {
  }

  /** Only the first exchanger is ever tried: oracles that agree on it give the same result. */
  lemma FirstExchangerOnly(email: string, resolve: string -> MxLookup, h1: string -> bool, h2: string -> bool)
    requires '@' in email
    requires var lookup := resolve(DomainOf(email).value);
      lookup.Found? && lookup.records != [] ==> h1(lookup.records[0].exchange) == h2(lookup.records[0].exchange)
    ensures VerifySmtp(email, resolve, h1) == VerifySmtp(email, resolve, h2)
  {
  }

  /** For an address the pattern accepts, the domain looked up is all the text after its one `@`. */
  lemma AcceptedDomain(email: string)
    requires Accepts(email)
    ensures exists l, x, t :: ShapeOf(email, l, x, t) && DomainOf(email) == Some(x + "." + t)
  {
    AcceptsIffShape(email);
    var l, x, t :| ShapeOf(email, l, x, t);
    DomainOfShape(email, l, x, t);
  }

  lemma DomainOfShape(email: string, l: string, x: string, t: string)
    requires ShapeOf(email, l, x, t)
    ensures DomainOf(email) == Some(x + "." + t)
  {
    var a := |l|;
    assert email[..a] == l;
    assert email[a + 1..] == x + "." + t;
    assert '@' !in l && '@' !in x + "." + t;
    SplitOneSeparator(email, '@', a);
  }
}
