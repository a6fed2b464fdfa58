/**
 * The driver `main`: read the candidate lines, skip those the pattern
 * rejects with a notice, probe the rest, and keep the ones whose probe
 * result is truthy. Opening the file and printing are modelled by the
 * method's input (None when the file is missing) and its console output.
 */
module Pipeline {
  import opened Wrappers
  import opened Text
  import opened Pattern
  import opened Probe
  import opened Selection

  const NotFoundNotice: string := "The file 'email_valid.txt' was not found."
  const SkipPrefix: string := "Skipping invalid email format: "
  const Header: string := "Existing Emails:"

  // ---------------------------------------------------------------------------
  // Reading the candidates
  // ---------------------------------------------------------------------------

  /** Non-empty and without whitespace at either end. */
  predicate IsTrimmed(e: string) {
    e != [] && !IsSpace(e[0]) && !IsSpace(e[|e| - 1])
  }

  /** `[line.strip() for line in file if line.strip()]` */
  function Candidates(lines: seq<string>): (emails: seq<string>)
    ensures forall k :: 0 <= k < |emails| ==> IsTrimmed(emails[k])
  {
    if lines == [] then []
    else
      var prev := Candidates(lines[..|lines| - 1]);
      var e := Strip(lines[|lines| - 1]);
      StripSpec(lines[|lines| - 1]);
      prev + (if e != [] then [e] else [])
  }

  function StripAll(lines: seq<string>): (r: seq<string>)
    ensures |r| == |lines|
    ensures forall i :: 0 <= i < |lines| ==> r[i] == Strip(lines[i])
  {
    if lines == [] then [] else StripAll(lines[..|lines| - 1]) + [Strip(lines[|lines| - 1])]
  }

  function NonBlank(lines: seq<string>): (m: seq<bool>)
    ensures |m| == |lines|
    ensures forall i :: 0 <= i < |lines| ==> m[i] == (Strip(lines[i]) != [])
  {
    if lines == [] then [] else NonBlank(lines[..|lines| - 1]) + [Strip(lines[|lines| - 1]) != []]
  }

  lemma {:induction false} CandidatesArePicked(lines: seq<string>)
    ensures Candidates(lines) == Pick(StripAll(lines), NonBlank(lines))
  {
    if lines != [] {
      var n := |lines| - 1;
      CandidatesArePicked(lines[..n]);
      PickSnoc(StripAll(lines[..n]), NonBlank(lines[..n]), Strip(lines[n]), Strip(lines[n]) != []);
    }
  }

  /**
   * The candidates are the stripped lines that are not blank, in input order
   * and with duplicates kept.
   */
  lemma CandidatesSpec(lines: seq<string>)
    ensures var pos := Positions(NonBlank(lines));
      && |Candidates(lines)| == |pos|
      && (forall k :: 0 <= k < |pos| ==> Candidates(lines)[k] == Strip(lines[pos[k]]))
      && (forall i :: 0 <= i < |lines| ==> (i in pos <==> !AllSpace(lines[i])))
  {
    CandidatesArePicked(lines);
    PickAt(StripAll(lines), NonBlank(lines));
    forall i | 0 <= i < |lines| ensures Strip(lines[i]) == [] <==> AllSpace(lines[i]) {
      StripSpec(lines[i]);
    }
  }

  // ---------------------------------------------------------------------------
  // What happens to each candidate
  // ---------------------------------------------------------------------------

  /**
   * The terminal state of one candidate: skipped by the pattern check,
   * accepted by a truthy probe result, or probed and left out.
   */
  datatype Verdict = Skipped | Accepted | Unverified

  function Classify(email: string, resolve: string -> MxLookup, handshake: string -> bool): Verdict {
    if !PatternMatches(email) then Skipped
    else if Truthy(VerifySmtp(email, resolve, handshake)) then Accepted
    else Unverified
  }

  /** Marks the candidates whose verdict lies in `keep`. */
  function Marks(emails: seq<string>, resolve: string -> MxLookup, handshake: string -> bool, keep: set<Verdict>): (m: seq<bool>)
    ensures |m| == |emails|
    ensures forall i :: 0 <= i < |emails| ==> m[i] == (Classify(emails[i], resolve, handshake) in keep)
  {
    if emails == [] then []
    else
      var n := |emails| - 1;
      Marks(emails[..n], resolve, handshake, keep) + [Classify(emails[n], resolve, handshake) in keep]
  }

  /** The candidates whose verdict lies in `keep`, in the order they were checked. */
  function Keep(emails: seq<string>, resolve: string -> MxLookup, handshake: string -> bool, keep: set<Verdict>): seq<string> {
    if emails == [] then []
    else
      var n := |emails| - 1;
      Keep(emails[..n], resolve, handshake, keep) + (if Classify(emails[n], resolve, handshake) in keep then [emails[n]] else [])
  }

  /** The final `existing_emails` list. */
  function ExistingEmails(emails: seq<string>, resolve: string -> MxLookup, handshake: string -> bool): seq<string> {
    Keep(emails, resolve, handshake, {Accepted})
  }

  /** The addresses handed to `verify_smtp`, in call order. */
  function ProbedEmails(emails: seq<string>, resolve: string -> MxLookup, handshake: string -> bool): seq<string> {
    Keep(emails, resolve, handshake, {Accepted, Unverified})
  }

  /** One `Skipping invalid email format: <addr>` line per address. */
  function Notices(skipped: seq<string>): (r: seq<string>)
    ensures |r| == |skipped|
    ensures forall k :: 0 <= k < |skipped| ==> r[k] == SkipPrefix + skipped[k]
  {
    if skipped == [] then []
    else Notices(skipped[..|skipped| - 1]) + [SkipPrefix + skipped[|skipped| - 1]]
  }

  /** The diagnostic lines printed while the candidates are checked. */
  function SkipNotices(emails: seq<string>, resolve: string -> MxLookup, handshake: string -> bool): seq<string> {
    Notices(Keep(emails, resolve, handshake, {Skipped}))
  }

  function AcceptedPositions(emails: seq<string>, resolve: string -> MxLookup, handshake: string -> bool): seq<nat> {
    Positions(Marks(emails, resolve, handshake, {Accepted}))
  }

  function SkippedPositions(emails: seq<string>, resolve: string -> MxLookup, handshake: string -> bool): seq<nat> {
    Positions(Marks(emails, resolve, handshake, {Skipped}))
  }

  function ProbedPositions(emails: seq<string>, resolve: string -> MxLookup, handshake: string -> bool): seq<nat> {
    Positions(Marks(emails, resolve, handshake, {Accepted, Unverified}))
  }

  /** Keeping by verdict is picking by the verdict marks. */
  lemma {:induction false} KeepIsPick(emails: seq<string>, resolve: string -> MxLookup, handshake: string -> bool, keep: set<Verdict>)
    ensures Keep(emails, resolve, handshake, keep) == Pick(emails, Marks(emails, resolve, handshake, keep))
  {
    if emails != [] {
      var n := |emails| - 1;
      KeepIsPick(emails[..n], resolve, handshake, keep);
      var v := Classify(emails[n], resolve, handshake);
      assert emails == emails[..n] + [emails[n]];
      PickSnoc(emails[..n], Marks(emails[..n], resolve, handshake, keep), emails[n], v in keep);
    }
  }

  /** How the lists grow by one candidate. */
  lemma KeepOneMore(emails: seq<string>, i: nat, resolve: string -> MxLookup, handshake: string -> bool, keep: set<Verdict>)
    requires i < |emails|
    ensures Keep(emails[..i + 1], resolve, handshake, keep)
      == Keep(emails[..i], resolve, handshake, keep) + (if Classify(emails[i], resolve, handshake) in keep then [emails[i]] else [])
  {
    assert emails[..i + 1][..i] == emails[..i];
  }

  /** The kept list of a concatenation is the concatenation of the kept lists. */
  lemma {:induction false} KeepAppend(a: seq<string>, b: seq<string>, resolve: string -> MxLookup, handshake: string -> bool, keep: set<Verdict>)
    ensures Keep(a + b, resolve, handshake, keep) == Keep(a, resolve, handshake, keep) + Keep(b, resolve, handshake, keep)
    decreases |b|
  {
    if b == [] {
      assert a + b == a;
    } else {
      var n := |b| - 1;
      assert (a + b)[..|a + b| - 1] == a + b[..n];
      assert (a + b)[|a + b| - 1] == b[n];
      KeepAppend(a, b[..n], resolve, handshake, keep);
    }
  }

  // ---------------------------------------------------------------------------
  // The driver
  // ---------------------------------------------------------------------------

  /**
   * The loop of `main` over the candidates: a notice for each one the
   * pattern rejects, a probe for each other one, and `existing` collects
   * those whose probe result is truthy. `probed` lists the addresses
   * `verify_smtp` was called on, in call order.
   */
  method CheckCandidates(emails: seq<string>, resolve: string -> MxLookup, handshake: string -> bool)
    returns (notices: seq<string>, existing: seq<string>, probed: seq<string>)
    ensures notices == SkipNotices(emails, resolve, handshake)
    ensures existing == ExistingEmails(emails, resolve, handshake)
    ensures probed == ProbedEmails(emails, resolve, handshake)
  {
    notices, existing, probed := [], [], [];
    for i := 0 to |emails|
      invariant existing == ExistingEmails(emails[..i], resolve, handshake)
      invariant probed == ProbedEmails(emails[..i], resolve, handshake)
      invariant notices == SkipNotices(emails[..i], resolve, handshake)
    {
      var email := emails[i];
      KeepOneMore(emails, i, resolve, handshake, {Accepted});
      KeepOneMore(emails, i, resolve, handshake, {Accepted, Unverified});
      KeepOneMore(emails, i, resolve, handshake, {Skipped});
      if !PatternMatches(email) {
        assert Classify(email, resolve, handshake) == Skipped;
        var skipped := Keep(emails[..i], resolve, handshake, {Skipped});
        assert Notices(skipped + [email]) == Notices(skipped) + [SkipPrefix + email];
        notices := notices + [SkipPrefix + email];
        continue;
      }
      probed := probed + [email];
      var smtpResult := VerifySmtp(email, resolve, handshake);
      if Truthy(smtpResult) {
        assert Classify(email, resolve, handshake) == Accepted;
        existing := existing + [email];
      } else {
        assert Classify(email, resolve, handshake) == Unverified;
      }
    }
    assert emails[..|emails|] == emails;
  }

  /**
   * `main`: `file` is the content of `email_valid.txt` as lines, or None when
   * it does not exist; `console` is everything printed.
   */
  method RunMain(file: Option<seq<string>>, resolve: string -> MxLookup, handshake: string -> bool)
    returns (console: seq<string>, existing: seq<string>, probed: seq<string>)
    ensures file.None? ==> console == [NotFoundNotice] && existing == [] && probed == []
    ensures file.Some? ==>
      var emails := Candidates(file.value);
      && existing == ExistingEmails(emails, resolve, handshake)
      && probed == ProbedEmails(emails, resolve, handshake)
      && console == SkipNotices(emails, resolve, handshake) + [Header] + existing
  {
    if file.None? {
      return [NotFoundNotice], [], [];
    }
    var emails := Candidates(file.value);
    var notices;
    notices, existing, probed := CheckCandidates(emails, resolve, handshake);
    console := notices + [Header];
    for i := 0 to |existing|
      invariant console == notices + [Header] + existing[..i]
    {
      assert existing[..i + 1] == existing[..i] + [existing[i]];
      console := console + [existing[i]];
    }
    assert existing[..|existing|] == existing;
  }

  // ---------------------------------------------------------------------------
  // Properties of the driver
  // ---------------------------------------------------------------------------

  /**
   * The accepted list is the candidates, in order, that pass the pattern and
   * whose probe result is truthy; nothing else and nothing twice.
   */
  lemma ExistingSpec(emails: seq<string>, resolve: string -> MxLookup, handshake: string -> bool)
    ensures var pos := AcceptedPositions(emails, resolve, handshake);
      var acc := ExistingEmails(emails, resolve, handshake);
      && Increasing(pos)
      && |acc| == |pos|
      && (forall k :: 0 <= k < |pos| ==> pos[k] < |emails| && acc[k] == emails[pos[k]])
      && (forall i :: 0 <= i < |emails| ==>
            (i in pos <==> PatternMatches(emails[i]) && Truthy(VerifySmtp(emails[i], resolve, handshake))))
  {
    KeepIsPick(emails, resolve, handshake, {Accepted});
    PickAt(emails, Marks(emails, resolve, handshake, {Accepted}));
  }

  /** One notice per candidate the pattern rejects, in input order. */
  lemma SkipNoticesSpec(emails: seq<string>, resolve: string -> MxLookup, handshake: string -> bool)
    ensures var pos := SkippedPositions(emails, resolve, handshake);
      var out := SkipNotices(emails, resolve, handshake);
      && Increasing(pos)
      && |out| == |pos|
      && (forall k :: 0 <= k < |pos| ==> pos[k] < |emails| && out[k] == SkipPrefix + emails[pos[k]])
      && (forall i :: 0 <= i < |emails| ==> (i in pos <==> !PatternMatches(emails[i])))
  {
    KeepIsPick(emails, resolve, handshake, {Skipped});
    PickAt(emails, Marks(emails, resolve, handshake, {Skipped}));
  }

  /** `verify_smtp` is called exactly on the candidates that pass the pattern, once each, in order. */
  lemma ProbedSpec(emails: seq<string>, resolve: string -> MxLookup, handshake: string -> bool)
    ensures var pos := ProbedPositions(emails, resolve, handshake);
      var probed := ProbedEmails(emails, resolve, handshake);
      && Increasing(pos)
      && |probed| == |pos|
      && (forall k :: 0 <= k < |pos| ==> pos[k] < |emails| && probed[k] == emails[pos[k]])
      && (forall i :: 0 <= i < |emails| ==> (i in pos <==> PatternMatches(emails[i])))
  {
    KeepIsPick(emails, resolve, handshake, {Accepted, Unverified});
    PickAt(emails, Marks(emails, resolve, handshake, {Accepted, Unverified}));
  }

  /** The notices do not depend on the network at all. */
  lemma {:induction false} NoticesIgnoreNetwork(emails: seq<string>,
                                                r1: string -> MxLookup, h1: string -> bool,
                                                r2: string -> MxLookup, h2: string -> bool)
    ensures SkipNotices(emails, r1, h1) == SkipNotices(emails, r2, h2)
  {
    if emails != [] {
      var n := |emails| - 1;
      assert emails[..n + 1] == emails;
      NoticesIgnoreNetwork(emails[..n], r1, h1, r2, h2);
      KeepOneMore(emails, n, r1, h1, {Skipped});
      KeepOneMore(emails, n, r2, h2, {Skipped});
      assert Classify(emails[n], r1, h1) == Skipped <==> Classify(emails[n], r2, h2) == Skipped;
    }
  }

  /** Every accepted address has the pattern's shape, so it holds exactly one `@`. */
  lemma ExistingAreWellFormed(lines: seq<string>, resolve: string -> MxLookup, handshake: string -> bool)
    ensures forall e :: e in ExistingEmails(Candidates(lines), resolve, handshake) ==> Accepts(e) && HasShape(e)
  {
    var emails := Candidates(lines);
    ExistingSpec(emails, resolve, handshake);
    var pos := AcceptedPositions(emails, resolve, handshake);
    var acc := ExistingEmails(emails, resolve, handshake);
    forall e | e in acc ensures Accepts(e) && HasShape(e) {
      var k :| 0 <= k < |acc| && acc[k] == e;
      assert pos[k] in pos;
      assert IsTrimmed(e) && PatternMatches(e);
      assert IsSpace('\n');
      PatternMatchesNoNewline(e);
      AcceptsIffShape(e);
    }
  }

  /**
   * A candidate that passes the pattern and whose MX lookup fails is
   * accepted: the probe returns a non-empty diagnostic string, and the
   * driver only tests truthiness.
   */
  lemma LookupFailureAccepted(emails: seq<string>, i: nat, resolve: string -> MxLookup, handshake: string -> bool)
    requires i < |emails| && Accepts(emails[i])
    requires DomainOf(emails[i]).Some? && resolve(DomainOf(emails[i]).value).LookupFailed?
    ensures i in AcceptedPositions(emails, resolve, handshake)
  {
    ExistingSpec(emails, resolve, handshake);
  }

  /** A candidate that passes the pattern but whose domain has an empty MX answer is left out. */
  lemma EmptyAnswerRejected(emails: seq<string>, i: nat, resolve: string -> MxLookup, handshake: string -> bool)
    requires i < |emails| && Accepts(emails[i])
    requires DomainOf(emails[i]).Some? && resolve(DomainOf(emails[i]).value) == Found([])
    ensures i !in AcceptedPositions(emails, resolve, handshake)
    ensures i in ProbedPositions(emails, resolve, handshake)
  {
    ExistingSpec(emails, resolve, handshake);
    ProbedSpec(emails, resolve, handshake);
  }
}

/**
 * The end-to-end scenario of three input lines: one good address, one
 * malformed line, and an address whose domain has no MX records.
 */
module PipelineExample {
  import opened Wrappers
  import opened Text
  import opened Pattern
  import opened Probe
  import opened Pipeline

  const Alice: string := "alice@good.example"
  const Malformed: string := "not-an-email"
  const Bob: string := "bob@nomx.example"

  /** The lines of `email_valid.txt`, each with its newline. */
  const Lines: seq<string> := [Alice + "\n", Malformed + "\n", Bob + "\n"]

  /** The resolver answers for good.example; for any other domain the query raises with this text. */
  function RaisingResolver(domain: string): MxLookup {
    if domain == "good.example" then Found([MxRecord("mx.good.example.", 10)])
    else LookupFailed("The DNS response does not contain an answer to the question: nomx.example. IN MX")
  }

  /** The resolver answers for good.example and gives an empty answer for any other domain. */
  function EmptyResolver(domain: string): MxLookup {
    if domain == "good.example" then Found([MxRecord("mx.good.example.", 10)]) else Found([])
  }

  /** Only good.example's exchanger answers SMTP. */
  function GoodHandshake(host: string): bool {
    host == "mx.good.example."
  }

  lemma ExampleCandidates()
    ensures Candidates(Lines) == [Alice, Malformed, Bob]
  {
    var a, n, b := Alice, Malformed, Bob;
    StripLine(a);
    StripLine(n);
    StripLine(b);
    var l1, l2 := Lines[..1], Lines[..2];
    assert l1[..0] == [] && l2[..1] == l1 && Lines[..2] == l2;
    assert l1[0] == Lines[0] && l2[1] == Lines[1];
    assert Candidates(l1) == [a];
    assert Candidates(l2) == [a, n];
  }

  /** A candidate of the address shape passes the pattern and names the domain after its '@'. */
  lemma AddressFacts(email: string, l: string, x: string, t: string)
    requires ShapeOf(email, l, x, t)
    ensures PatternMatches(email) && DomainOf(email) == Some(x + "." + t)
  {
    ComposeAccepts(l, x, t);
    DomainOfShape(email, l, x, t);
  }

  // The verdict lemmas below take the address through its parts (`ShapeOf`)
  // rather than as `email == Alice`: a literal argument makes the solver
  // evaluate the recogniser and the split character by character.

  /** alice's domain answers and its exchanger accepts the handshake, whichever resolver is used. */
  lemma AliceVerdict(email: string)
    requires ShapeOf(email, "alice", "good", "example")
    ensures Classify(email, RaisingResolver, GoodHandshake) == Accepted
    ensures Classify(email, EmptyResolver, GoodHandshake) == Accepted
  {
    AddressFacts(email, "alice", "good", "example");
    assert "good" + "." + "example" == "good.example";
    assert GoodHandshake("mx.good.example.");
  }

  /** bob's domain lookup raises, and the error text is taken as success. */
  lemma BobOnLookupError(email: string)
    requires ShapeOf(email, "bob", "nomx", "example")
    ensures Classify(email, RaisingResolver, GoodHandshake) == Accepted
  {
    AddressFacts(email, "bob", "nomx", "example");
    var domain := "nomx" + "." + "example";
    assert domain[0] == 'n';
    assert RaisingResolver(domain).LookupFailed?;
  }

  /** bob's domain has an empty MX answer, so its probe is false. */
  lemma BobOnEmptyAnswer(email: string)
    requires ShapeOf(email, "bob", "nomx", "example")
    ensures Classify(email, EmptyResolver, GoodHandshake) == Unverified
  {
    AddressFacts(email, "bob", "nomx", "example");
    var domain := "nomx" + "." + "example";
    assert domain[0] == 'n';
    assert EmptyResolver(domain) == Found([]);
  }

  /** The malformed line is skipped before any lookup. */
  lemma MalformedVerdict(email: string, resolve: string -> MxLookup)
    requires email == "not-an-email"
    ensures Classify(email, resolve, GoodHandshake) == Skipped
  {
    ShapeNeeds(email);
  }

  /** With a good first address, a malformed second one and a well-formed third, only the third is open. */
  lemma ThreeCandidates(emails: seq<string>, resolve: string -> MxLookup, handshake: string -> bool)
    requires |emails| == 3
    requires Classify(emails[0], resolve, handshake) == Accepted
    requires Classify(emails[1], resolve, handshake) == Skipped
    requires Classify(emails[2], resolve, handshake) != Skipped
    ensures SkipNotices(emails, resolve, handshake) == [SkipPrefix + emails[1]]
    ensures ExistingEmails(emails, resolve, handshake)
      == [emails[0]] + (if Classify(emails[2], resolve, handshake) == Accepted then [emails[2]] else [])
  {
    var e0, e1, e2 := [emails[0]], [emails[1]], [emails[2]];
    assert emails == e0 + e1 + e2;
    KeepAppend(e0, e1, resolve, handshake, {Accepted});
    KeepAppend(e0 + e1, e2, resolve, handshake, {Accepted});
    KeepAppend(e0, e1, resolve, handshake, {Skipped});
    KeepAppend(e0 + e1, e2, resolve, handshake, {Skipped});
    assert Keep(emails, resolve, handshake, {Skipped}) == [emails[1]];
  }

  /** Both addresses of the example have the shape the pattern accepts. */
  lemma ExampleShapes()
    ensures ShapeOf(Alice, "alice", "good", "example")
    ensures ShapeOf(Bob, "bob", "nomx", "example")
  {
    assert Alice == "alice" + "@" + "good" + "." + "example";
    assert Bob == "bob" + "@" + "nomx" + "." + "example";
  }

  /**
   * As the code is written, the lookup error for nomx.example comes back as
   * a non-empty string, which the driver treats as success: bob is accepted.
   */
  lemma LookupErrorScenario()
    ensures SkipNotices(Candidates(Lines), RaisingResolver, GoodHandshake) == [SkipPrefix + Malformed]
    ensures ExistingEmails(Candidates(Lines), RaisingResolver, GoodHandshake) == [Alice, Bob]
  {
    ExampleCandidates();
    ExampleShapes();
    AliceVerdict(Alice);
    MalformedVerdict(Malformed, RaisingResolver);
    BobOnLookupError(Bob);
    ThreeCandidates(Candidates(Lines), RaisingResolver, GoodHandshake);
  }

  /** Only when the resolver gives an empty answer is bob left out. */
  lemma EmptyAnswerScenario()
    ensures SkipNotices(Candidates(Lines), EmptyResolver, GoodHandshake) == [SkipPrefix + Malformed]
    ensures ExistingEmails(Candidates(Lines), EmptyResolver, GoodHandshake) == [Alice]
  {
    ExampleCandidates();
    ExampleShapes();
    AliceVerdict(Alice);
    MalformedVerdict(Malformed, EmptyResolver);
    BobOnEmptyAnswer(Bob);
    ThreeCandidates(Candidates(Lines), EmptyResolver, GoodHandshake);
  }
}
