# Email validation script, modelled in Dafny

`helloworld.py` reads candidate addresses from `email_valid.txt`, one per
line. Each line is stripped, and blank lines are dropped. A candidate that
does not match the pattern `^[a-zA-Z0-9._%+-]+@[a-zA-Z0-9.-]+\.[a-zA-Z]{2,}$`
gets a "Skipping invalid email format" notice. Every other candidate is
probed by `verify_smtp`, which does three things:

- takes the text after the `@`;
- looks up that domain's MX records;
- tries an SMTP handshake with the first exchanger.

The script keeps every candidate whose probe result is truthy and prints the
kept list under "Existing Emails:".

The model has six modules:

- `Text` holds Python's `str.strip()` and `str.split(sep)`. Whitespace is
  `str.isspace`, written out as its list of code points.
- `Pattern` holds `validate_email_pattern`. It is a hand-written finite
  recogniser, proved to accept exactly the strings `L @ X . T`:
  - `L` is a non-empty run of `[a-zA-Z0-9._%+-]`;
  - `X` is a non-empty run of `[a-zA-Z0-9.-]`;
  - `T` is two or more ASCII letters.

  Python's `$` also matches just before one final newline, and the model
  includes that case.
- `Probe` holds `verify_smtp`, over two oracles:
  - `resolve` gives what `get_mx_records` returned for a domain: an error
    text, or the records in resolver order;
  - `handshake` says whether the connect, EHLO and QUIT exchange with a host
    completed without raising.

  The result is `Flag(b)` or `Diagnostic(text)`, and `Truthy` is Python's
  truthiness of it.
- `Selection` holds an order-preserving pick by mask. Both the
  comprehension at line 54 and the append loop compute one.
- `Pipeline` holds the candidate comprehension, the verdict of each
  candidate, and the imperative driver:
  - `CheckCandidates` is the `for` loop with its appends and notices, proved
    against the spec functions `SkipNotices`, `ExistingEmails` and
    `ProbedEmails`;
  - `RunMain` is `main`, including the missing-file path and the console
    output.
- `PipelineExample` holds the three-line scenario: a good address, a
  malformed line, and an address whose domain has no MX records.

The script tests the probe result only for truthiness (line 67). On a failed
lookup the probe returns the non-empty text "Error retrieving MX records: …"
(line 28). So an address whose MX lookup raises is accepted, not rejected.
The model follows the code here (`Pipeline.LookupFailureAccepted`,
`PipelineExample.LookupErrorScenario`).

An address whose domain has no MX records might be expected to be left
out. Under the code that holds only when the lookup returns an empty list
(`PipelineExample.EmptyAnswerScenario`). When the lookup raises, which is how
a DNS resolver usually reports a missing answer, the address is accepted
(`PipelineExample.LookupErrorScenario`).

## Model

| member | source | states |
|---|---|---|
| Text.IsSpace | helloworld.py:54 | the whitespace `str.strip()` removes: the code points for which `str.isspace` holds (no contract; used by StripSpec) |
| Text.Strip | helloworld.py:54 | `line.strip()`; its result is at most as long as the line, and is characterised by StripSpec |
| Text.Split | helloworld.py:24 | `email.split('@')`; at least one piece, characterised by SplitSpec and SplitJoin |
| Text.StripLeadingSpec | helloworld.py:54 | left-stripping removes only a whitespace prefix, and what is left does not start with whitespace |
| Text.StripTrailingSpec | helloworld.py:54 | right-stripping removes only a whitespace suffix, and what is left does not end with whitespace |
| Text.StripSpec | helloworld.py:54 | `strip()` leaves an infix of the line with only whitespace around it and none at its ends; it is empty exactly when the line is all whitespace |
| Text.StripIdempotent | helloworld.py:54 | stripping a stripped line changes nothing |
| Text.StripLine | helloworld.py:54 | a line read with its newline strips to its text when the text has no whitespace at either end |
| Text.SplitSpec | helloworld.py:24 | `split('@')` gives one piece more than there are `@`, and no piece contains `@` |
| Text.SplitJoin | helloworld.py:24 | joining the pieces with the separator restores the string |
| Text.SplitNoSeparator | helloworld.py:24 | a string without the separator splits into itself alone, so `[1]` raises IndexError |
| Text.SplitOneSeparator | helloworld.py:24 | with exactly one separator, the pieces are the text before it and the text after it |
| Text.SplitConsNonSeparator | helloworld.py:24 | proof step (one unfolding of the definition): a leading non-separator character joins the first piece |
| Selection.Pick | helloworld.py:54 | order-preserving selection by a mask; its result is at most as long as the input, and is characterised by PickAt |
| Selection.Positions | helloworld.py:54 | the marked positions of a mask, strictly increasing, each marked, and every marked position present |
| Selection.PickSnoc | helloworld.py:68 | proof step (one unfolding of the definition): appending one element with its mark adds it to the pick exactly when it is marked |
| Selection.PickAt | helloworld.py:54 | the picked elements are exactly the elements at the marked positions, in order |
| Pattern.Step | helloworld.py:47 | one character of the recogniser for the pattern (no contract; characterised through AcceptsIffShape) |
| Pattern.Run | helloworld.py:47 | the recogniser's state after a whole string (no contract; RunAppend, LocalRun, AtRun and DomainRun characterise it) |
| Pattern.Accepts | helloworld.py:47 | the anchored match of the whole string (no contract; characterised by AcceptsIffShape) |
| Pattern.PatternMatches | helloworld.py:45-48 | `validate_email_pattern`: acceptance of the string, or of the string without one final newline, as `$` allows (no contract; characterised by PatternMatchesNoNewline and AcceptsIffShape) |
| Pattern.RunAppend | helloworld.py:47 | the recogniser reads a concatenation by reading its parts in turn |
| Pattern.DomainRun | helloworld.py:47 | after the `@`, the state records whether the text is all domain characters and how many letters follow the last dot that has text before it |
| Pattern.LocalRun | helloworld.py:47 | before the `@`, the recogniser is in the local-part state exactly when it has read a non-empty run of local characters |
| Pattern.AtRun | helloworld.py:47 | a state past the `@` implies a local part, then an `@`, then text read from the after-`@` state |
| Pattern.ComposeAccepts | helloworld.py:47-48 | every string `L @ X . T` is accepted |
| Pattern.DecomposeAccepted | helloworld.py:47-48 | every accepted string has the form `L @ X . T` |
| Pattern.ShapeAt | helloworld.py:47 | an `@` and a later dot that has only letters after it cut a string into the three parts |
| Pattern.AcceptsIffShape | helloworld.py:47-48 | the recogniser accepts a string if and only if it is `L @ X . T` |
| Pattern.ShapeUnique | helloworld.py:47 | such a string splits into `L`, `X`, `T` in only one way, with `T` the text after the last dot |
| Pattern.AcceptedHasOneAt | helloworld.py:47 | an accepted string holds exactly one `@`, the one that ends its local part |
| Pattern.PatternMatchesNoNewline | helloworld.py:48 | proof step (one unfolding of the definition): for a string not ending in a newline, `validate_email_pattern` is exactly acceptance by the recogniser |
| Pattern.AcceptedExamples | helloworld.py:47 | "user@example.com" and "a.b+c@sub.example.co" pass the pattern |
| Pattern.RejectedExamples | helloworld.py:47 | "", "not-an-email", "a@b" and "a@.co" fail the pattern |
| Pattern.ShapeNeeds | helloworld.py:47 | a string without a final newline that lacks an `@` or has fewer than six characters fails the pattern |
| Probe.DomainOf | helloworld.py:24 | the piece after the first `@` is absent (IndexError) exactly when there is no `@`, and it holds no `@` itself |
| Probe.VerifySmtp | helloworld.py:21-35 | `verify_smtp` over the resolver and handshake oracles (no contract; characterised by NoAtIsFalse, ProbeOutcomes, TruthyIff and FirstExchangerOnly) |
| Probe.NoAtIsFalse | helloworld.py:21-35 | an address without `@` gives False, and nothing is looked up |
| Probe.ProbeOutcomes | helloworld.py:26-35 | lookup error: a truthy diagnostic "Error retrieving MX records: " + error; empty answer: False; otherwise the handshake result with the first exchanger |
| Probe.TruthyIff | helloworld.py:21-35 | the result is truthy if and only if the address has an `@` and either the lookup fails or the handshake with the first exchanger succeeds |
| Probe.FirstExchangerOnly | helloworld.py:29-33 | only the first exchanger matters: handshake oracles that agree on it give the same result |
| Probe.AcceptedDomain | helloworld.py:24 | for an address the pattern accepts, the domain looked up is all the text after its `@` |
| Probe.DomainOfShape | helloworld.py:24 | for `L @ X . T` the domain is `X . T` |
| Pipeline.Candidates | helloworld.py:54 | every candidate is non-empty and has no whitespace at either end |
| Pipeline.StripAll | helloworld.py:54 | the stripped lines, one per input line |
| Pipeline.NonBlank | helloworld.py:54 | the filter of the comprehension: line i is kept when its stripped text is non-empty |
| Pipeline.CandidatesArePicked | helloworld.py:54 | the candidates are the stripped lines picked by the non-blank mask |
| Pipeline.CandidatesSpec | helloworld.py:54 | the candidates are the stripped lines that are not all whitespace, in input order, duplicates kept |
| Pipeline.Classify | helloworld.py:62-68 | what the loop does with one candidate: skipped when the pattern fails, accepted when the probe is truthy, otherwise probed and left out (no contract; used by Marks, ExistingSpec, SkipNoticesSpec, ProbedSpec) |
| Pipeline.Keep | helloworld.py:61-68 | the candidates whose verdict is in a set, in order (no contract; characterised by KeepIsPick and KeepAppend) |
| Pipeline.ExistingEmails | helloworld.py:59-68 | reference value of `existing_emails` after the loop (no contract; characterised by ExistingSpec) |
| Pipeline.SkipNotices | helloworld.py:62-64 | reference value of the printed skip notices (no contract; characterised by SkipNoticesSpec) |
| Pipeline.ProbedEmails | helloworld.py:66 | reference list of the addresses passed to `verify_smtp` (no contract; characterised by ProbedSpec) |
| Pipeline.Marks | helloworld.py:61-68 | mark i is set exactly when candidate i's verdict (skipped, accepted, probed and left out) is in the chosen set |
| Pipeline.Notices | helloworld.py:63 | one "Skipping invalid email format: " line per skipped address, in order |
| Pipeline.KeepIsPick | helloworld.py:61-68 | keeping by verdict is picking by the verdict marks |
| Pipeline.KeepOneMore | helloworld.py:61-68 | proof step (one unfolding of the definition): one more candidate extends a kept list by it exactly when its verdict is kept |
| Pipeline.KeepAppend | helloworld.py:61-68 | the kept list of a concatenation is the concatenation of the kept lists |
| Pipeline.CheckCandidates | helloworld.py:59-68 | the loop prints exactly the skip notices, calls `verify_smtp` on exactly the pattern-valid candidates, and leaves `existing_emails` equal to the accepted list |
| Pipeline.RunMain | helloworld.py:50-72 | a missing file prints only the not-found notice; otherwise the console is the skip notices, the header, then the accepted addresses |
| Pipeline.ExistingSpec | helloworld.py:61-68 | the accepted list is the order-preserving subsequence of candidates that pass the pattern and have a truthy probe result, each once |
| Pipeline.SkipNoticesSpec | helloworld.py:62-64 | exactly one notice per pattern-failing candidate, in input order |
| Pipeline.ProbedSpec | helloworld.py:62-66 | `verify_smtp` is called exactly on the pattern-valid candidates, once each, in order; pattern failures are never probed |
| Pipeline.NoticesIgnoreNetwork | helloworld.py:62-64 | the skip notices are the same whatever the resolver and the handshake do |
| Pipeline.ExistingAreWellFormed | helloworld.py:61-68 | every accepted address is accepted by the recogniser and has the form `L @ X . T` |
| Pipeline.LookupFailureAccepted | helloworld.py:66-68 | a pattern-valid candidate whose MX lookup raises is accepted, because the diagnostic string is truthy |
| Pipeline.EmptyAnswerRejected | helloworld.py:66-68 | a pattern-valid candidate whose MX answer is empty is probed but not accepted |
| PipelineExample.ExampleCandidates | helloworld.py:54 | the three example lines give the three addresses without their newlines |
| PipelineExample.AddressFacts | helloworld.py:24 | an address `L @ X . T` passes the pattern and has domain `X . T` |
| PipelineExample.AliceVerdict | helloworld.py:61-68 | alice@good.example is accepted under both resolvers |
| PipelineExample.BobOnLookupError | helloworld.py:27-28 | bob@nomx.example is accepted when its lookup raises |
| PipelineExample.BobOnEmptyAnswer | helloworld.py:29 | bob@nomx.example is probed and left out when its MX answer is empty |
| PipelineExample.MalformedVerdict | helloworld.py:62-64 | "not-an-email" is skipped whatever the resolver does |
| PipelineExample.ThreeCandidates | helloworld.py:61-68 | for an accepted, a skipped and a probed candidate, the single notice is for the second, and the accepted list is the first plus the third if accepted |
| PipelineExample.ExampleShapes | helloworld.py:47 | both example addresses have the form `L @ X . T` |
| PipelineExample.LookupErrorScenario | helloworld.py:50-72 | with a raising resolver, the example prints one notice for "not-an-email" and accepts alice and bob |
| PipelineExample.EmptyAnswerScenario | helloworld.py:50-72 | with an empty MX answer for nomx.example, the example prints the same notice and accepts alice only |

## Left out

- `get_mx_records` (helloworld.py:13-19) is not modelled as code. Only its result is: the `resolve` parameter gives, for each domain, the error text or the records in the order the resolver returned them.
- The `smtplib.SMTP` connection, the `ehlo` and `quit` calls, and the 10-second timeout (helloworld.py:30-32) are network I/O. The `handshake` parameter stands for them: false when any of them raises.
- `get_domain_info` (helloworld.py:37-43) wraps a whois call that the script never invokes, so it is not modelled.
- `validate_email_with_pyisemail` (helloworld.py:7-11) wraps the `pyisemail` library and is never invoked, so it is not modelled.
- Opening and reading `email_valid.txt` is an input: `None` stands for FileNotFoundError, otherwise the lines as read. Newline translation in text mode and I/O errors other than a missing file, which the script does not catch, are not modelled.
- Printing is modelled as the sequence of printed lines in `RunMain`'s `console` output.
- The regex is modelled only as this one pattern, not as a regex engine. Character classes are ASCII ranges over Unicode code points, as Python's `re` uses them without flags.
- Text.IsSpace: the code points for which `str.isspace` is true are written out as a fixed list, not derived from a Unicode database.
- Text.Strip: its own `ensures` only bounds the length. Its content is stated by `Text.StripSpec`.
- Selection.Pick: its own `ensures` only bounds the length. Its content is stated by `Selection.PickAt`.
- The MX preference value is carried in `MxRecord` but not used, as in the script: the first record is tried whatever its preference.
- Probe.VerifySmtp: the `resolve` and `handshake` oracles are functions, so within one run every lookup of a domain and every handshake with a host gives the same answer. The script makes a fresh DNS query and a fresh SMTP connection on each call (helloworld.py:16, 30-32), so repeated probes, for example of a duplicated candidate, could differ; the model does not capture that.
