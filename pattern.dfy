/**
 * The syntactic check `validate_email_pattern`: an anchored match of
 *   ^[a-zA-Z0-9._%+-]+@[a-zA-Z0-9.-]+\.[a-zA-Z]{2,}$
 * written as a hand-made finite automaton, and proved equal to the
 * declarative shape  L "@" X "." T  of the three character classes.
 */
module Pattern {

  predicate IsAsciiLetter(c: char) {
    ('a' <= c <= 'z') || ('A' <= c <= 'Z')
  }

  predicate IsAsciiDigit(c: char) {
    '0' <= c <= '9'
  }

  /** The class `[a-zA-Z0-9._%+-]` of the part before the `@`. */
  predicate IsLocalChar(c: char) {
    IsAsciiLetter(c) || IsAsciiDigit(c) || c == '.' || c == '_' || c == '%' || c == '+' || c == '-'
  }

  /** The class `[a-zA-Z0-9.-]` of the domain text before the final dot. */
  predicate IsDomainChar(c: char) {
    IsAsciiLetter(c) || IsAsciiDigit(c) || c == '.' || c == '-'
  }

  predicate AllLocal(s: string) {
    forall i :: 0 <= i < |s| ==> IsLocalChar(s[i])
  }

  predicate AllDomain(s: string) {
    forall i :: 0 <= i < |s| ==> IsDomainChar(s[i])
  }

  predicate AllLetters(s: string) {
    forall i :: 0 <= i < |s| ==> IsAsciiLetter(s[i])
  }

  // ---------------------------------------------------------------------------
  // The recogniser
  // ---------------------------------------------------------------------------

  /**
   * States of the recogniser after reading a prefix:
   *   Start     nothing read
   *   InLocal   one or more local characters
   *   AfterAt   the `@` and no domain text yet
   *   InDomain  domain text with no dot that could end the domain before the top-level label
   *   AfterDot  domain text ending in a dot that has text before it
   *   Tld1      such a dot followed by one letter
   *   Tld2      such a dot followed by two or more letters (accepting)
   *   Dead      no continuation can match
   */
  datatype State = Start | InLocal | AfterAt | InDomain | AfterDot | Tld1 | Tld2 | Dead

  function Step(q: State, c: char): State {
    match q
    case Dead => Dead
    case Start => if IsLocalChar(c) then InLocal else Dead
    case InLocal => if IsLocalChar(c) then InLocal else if c == '@' then AfterAt else Dead
    case AfterAt => if IsDomainChar(c) then InDomain else Dead
    case _ =>
      if c == '.' then AfterDot
      else if IsAsciiLetter(c) then (if q == InDomain then InDomain else if q == AfterDot then Tld1 else Tld2)
      else if IsDomainChar(c) then InDomain
      else Dead
  }

  /** The state reached from `q` after reading all of `s`. */
  function Run(q: State, s: string): State {
    if s == [] then q else Step(Run(q, s[..|s| - 1]), s[|s| - 1])
  }

  /** The whole of `s` matches the pattern (anchored at both ends). */
  predicate Accepts(s: string) {
    Run(Start, s) == Tld2
  }

  /**
   * `validate_email_pattern`: `re.match` with a trailing `$`, which in Python
   * also matches just before one final newline.
   */
  predicate PatternMatches(s: string) {
    Accepts(s) || (s != [] && s[|s| - 1] == '\n' && Accepts(s[..|s| - 1]))
  }

  // ---------------------------------------------------------------------------
  // The declarative shape
  // ---------------------------------------------------------------------------

  /** `l` is a local part, `x` a domain text and `t` a top-level label. */
  ghost predicate IsAddress(l: string, x: string, t: string) {
    l != [] && AllLocal(l) && x != [] && AllDomain(x) && |t| >= 2 && AllLetters(t)
  }

  ghost predicate ShapeOf(s: string, l: string, x: string, t: string) {
    IsAddress(l, x, t) && s == l + "@" + x + "." + t
  }

  ghost predicate HasShape(s: string) {
    exists l, x, t :: ShapeOf(s, l, x, t)
  }

  // ---------------------------------------------------------------------------
  // Proof that the recogniser accepts exactly the shape
  // ---------------------------------------------------------------------------

  predicate InDomainPhase(q: State) {
    q == InDomain || q == AfterDot || q == Tld1 || q == Tld2
  }

  function TldState(n: nat): State {
    if n == 0 then AfterDot else if n == 1 then Tld1 else Tld2
  }

  /** Dot `j` of domain text `r` has text before it and only letters after it. */
  ghost predicate SepAt(r: string, j: int) {
    1 <= j < |r| && r[j] == '.' && AllLetters(r[j + 1..])
  }

  lemma {:induction false} RunAppend(q: State, a: string, b: string)
    ensures Run(q, a + b) == Run(Run(q, a), b)
    decreases |b|
  {
    if b == [] {
      assert a + b == a;
    } else {
      var b' := b[..|b| - 1];
      assert (a + b)[..|a + b| - 1] == a + b';
      RunAppend(q, a, b');
    }
  }

  /** What reading domain text `r` right after the `@` leads to. */
  lemma {:induction false} DomainRun(r: string)
    ensures !AllDomain(r) ==> Run(AfterAt, r) == Dead
    ensures r == [] ==> Run(AfterAt, r) == AfterAt
    ensures AllDomain(r) && r != [] && (forall j :: !SepAt(r, j)) ==> Run(AfterAt, r) == InDomain
    ensures forall j :: AllDomain(r) && SepAt(r, j) ==> Run(AfterAt, r) == TldState(|r| - 1 - j)
    decreases |r|
  {
    if r != [] {
      var p, c := r[..|r| - 1], r[|r| - 1];
      DomainRun(p);
      assert r == p + [c];
      var q := Run(AfterAt, p);
      assert Run(AfterAt, r) == Step(q, c);
      if AllDomain(r) {
        assert AllDomain(p) by {
          forall i | 0 <= i < |p| ensures IsDomainChar(p[i]) {
            assert p[i] == r[i];
          }
        }
        assert IsDomainChar(c);
        assert p != [] ==> InDomainPhase(q) by {
          if p != [] && exists j :: SepAt(p, j) {
            var j :| SepAt(p, j);
            assert q == TldState(|p| - 1 - j);
          }
        }
        forall j | SepAt(r, j) ensures Run(AfterAt, r) == TldState(|r| - 1 - j) {
          if j < |p| {
            assert r[j + 1..] == p[j + 1..] + [c];
            assert IsAsciiLetter(c);
            var pt, rt := p[j + 1..], r[j + 1..];
            assert AllLetters(pt) by {
              forall i | 0 <= i < |pt| ensures IsAsciiLetter(pt[i]) {
                assert pt[i] == rt[i];
              }
            }
            assert SepAt(p, j);
          } else {
            assert c == '.';
          }
        }
        if r != [] && (forall j :: !SepAt(r, j)) {
          if p != [] {
            assert !SepAt(r, |p|);
            assert c != '.';
            if IsAsciiLetter(c) {
              forall j | SepAt(p, j) ensures false {
                assert r[j + 1..] == p[j + 1..] + [c];
                assert SepAt(r, j);
              }
            }
          }
        }
      } else if AllDomain(p) {
        assert !IsDomainChar(c);
        assert p == [] || InDomainPhase(q) by {
          if p != [] && exists j :: SepAt(p, j) {
            var j :| SepAt(p, j);
            assert q == TldState(|p| - 1 - j);
          }
        }
      } else {
        assert q == Dead;
      }
    }
  }

  /** `s` is a local part, then the `@` at `a`, then text that takes AfterAt to where `s` takes Start. */
  ghost predicate AtSplit(s: string, a: int) {
    0 < a < |s| && s[a] == '@' && AllLocal(s[..a]) && Run(Start, s) == Run(AfterAt, s[a + 1..])
  }

  /** What reading `s` from the start leads to before any `@`. */
  lemma {:induction false} LocalRun(s: string)
    ensures Run(Start, s) == Start <==> s == []
    ensures Run(Start, s) == InLocal <==> s != [] && AllLocal(s)
    decreases |s|
  {
    if s != [] {
      var p, c := s[..|s| - 1], s[|s| - 1];
      LocalRun(p);
      assert s == p + [c];
      assert AllLocal(s) <==> AllLocal(p) && IsLocalChar(c) by {
        if AllLocal(p) && IsLocalChar(c) {
          forall i | 0 <= i < |s| ensures IsLocalChar(s[i]) {
            if i < |p| { assert s[i] == p[i]; }
          }
        }
        if AllLocal(s) {
          forall i | 0 <= i < |p| ensures IsLocalChar(p[i]) {
            assert p[i] == s[i];
          }
        }
      }
    }
  }

  /** Once past the local part, the state is that reached from AfterAt on the text after the `@`. */
  lemma {:induction false} AtRun(s: string)
    ensures Run(Start, s) == AfterAt || InDomainPhase(Run(Start, s)) ==> exists a :: AtSplit(s, a)
    decreases |s|
  {
    if s != [] {
      var p, c := s[..|s| - 1], s[|s| - 1];
      var q := Run(Start, p);
      var q' := Run(Start, s);
      if q' == AfterAt || InDomainPhase(q') {
        if q == InLocal {
          LocalRun(p);
          assert c == '@';
          assert s[..|p|] == p;
          assert s[|p| + 1..] == [];
          assert AtSplit(s, |p|);
        } else {
          AtRun(p);
          var a :| AtSplit(p, a);
          assert s[..a] == p[..a];
          assert s[a + 1..] == p[a + 1..] + [c];
          assert s[a + 1..][..|s[a + 1..]| - 1] == p[a + 1..];
          assert AtSplit(s, a);
        }
      }
    }
  }

  /** Every string of the shape is accepted. */
  lemma ComposeAccepts(l: string, x: string, t: string)
    requires IsAddress(l, x, t)
    ensures Accepts(l + "@" + x + "." + t)
  {
    var r := x + "." + t;
    var s := l + "@" + x + "." + t;
    assert s == (l + "@") + r;
    LocalRun(l);
    assert (l + "@")[..|l|] == l;
    assert Run(Start, l + "@") == AfterAt;
    RunAppend(Start, l + "@", r);
    assert AllDomain(r) by {
      forall i | 0 <= i < |r| ensures IsDomainChar(r[i]) {
        if i < |x| { assert r[i] == x[i]; }
        else if i > |x| { assert r[i] == t[i - |x| - 1]; }
      }
    }
    assert r[|x| + 1..] == t;
    assert SepAt(r, |x|);
    DomainRun(r);
  }

  /** Every accepted string has the shape. */
  lemma DecomposeAccepted(s: string)
    requires Accepts(s)
    ensures HasShape(s)
  {
    AtRun(s);
    var a :| AtSplit(s, a);
    var r := s[a + 1..];
    DomainRun(r);
    assert Run(AfterAt, r) == Tld2;
    var j :| SepAt(r, j) && |r| - 1 - j >= 2;
    ShapeAt(s, a, j);
  }

  /** The `@` at `a` and the dot `j` places after it cut `s` into the three parts. */
  lemma ShapeAt(s: string, a: nat, j: nat)
    requires 0 < a < |s| && s[a] == '@' && AllLocal(s[..a])
    requires AllDomain(s[a + 1..]) && SepAt(s[a + 1..], j) && |s| - a - 2 - j >= 2
    ensures ShapeOf(s, s[..a], s[a + 1..][..j], s[a + 1..][j + 1..])
  {
    var r := s[a + 1..];
    var l, x, t := s[..a], r[..j], r[j + 1..];
    assert AllDomain(x) by {
      forall i | 0 <= i < |x| ensures IsDomainChar(x[i]) {
        assert x[i] == r[i];
      }
    }
    assert s == s[..a] + [s[a]] + r;
    assert r == x + [r[j]] + t;
  }

  /** The recogniser accepts exactly the strings `L @ X . T` of the three classes. */
  lemma AcceptsIffShape(s: string)
    ensures Accepts(s) <==> HasShape(s)
  {
    if Accepts(s) {
      DecomposeAccepted(s);
    }
    if HasShape(s) {
      var l, x, t :| ShapeOf(s, l, x, t);
      ComposeAccepts(l, x, t);
    }
  }

  /**
   * The shape splits a string in only one way: the `@` is its only `@`, and
   * the top-level label is exactly the text after its last dot.
   */
  lemma ShapeUnique(s: string, l: string, x: string, t: string, l': string, x': string, t': string)
    requires ShapeOf(s, l, x, t) && ShapeOf(s, l', x', t')
    ensures l == l' && x == x' && t == t'
  {
    assert s[|l|] == '@' && s[|l'|] == '@';
    assert '@' !in l && '@' !in l';
    assert |l| == |l'| by {
      assert forall i :: 0 <= i < |l| ==> s[i] == l[i];
      assert forall i :: 0 <= i < |l'| ==> s[i] == l'[i];
    }
    assert l == s[..|l|] == l';
    var d, d' := |s| - |t| - 1, |s| - |t'| - 1;
    assert s[d] == '.' && s[d'] == '.';
    assert d == d' by {
      assert forall i :: d < i < |s| ==> s[i] == t[i - d - 1];
      assert forall i :: d' < i < |s| ==> s[i] == t'[i - d' - 1];
    }
    assert t == s[d + 1..] == t';
    assert x == s[|l| + 1..d] == x';
  }

  /** An accepted string holds exactly one `@`: the one that ends its local part. */
  lemma AcceptedHasOneAt(s: string)
    requires Accepts(s)
    ensures exists l, x, t :: ShapeOf(s, l, x, t) && forall i :: 0 <= i < |s| && s[i] == '@' ==> i == |l|
  {
    AcceptsIffShape(s);
    var l, x, t :| ShapeOf(s, l, x, t);
    assert '@' !in l && '@' !in x + "." + t;
    assert s[..|l|] == l && s[|l| + 1..] == x + "." + t;
  }

  /** A string that does not end in a newline matches exactly when the recogniser accepts it. */
  lemma PatternMatchesNoNewline(s: string)
    requires s == [] || s[|s| - 1] != '\n'
    ensures PatternMatches(s) <==> Accepts(s)
  {
  }

  // ---------------------------------------------------------------------------
  // Examples
  // ---------------------------------------------------------------------------

  lemma AcceptedExamples()
    ensures PatternMatches("user@example.com")
    ensures PatternMatches("a.b+c@sub.example.co")
  {
    assert PatternMatches("user@example.com") by {
      assert "user@example.com" == "user" + "@" + "example" + "." + "com";
      ComposeAccepts("user", "example", "com");
    }
    assert PatternMatches("a.b+c@sub.example.co") by {
      assert "a.b+c@sub.example.co" == "a.b+c" + "@" + "sub.example" + "." + "co";
      ComposeAccepts("a.b+c", "sub.example", "co");
    }
  }

  lemma RejectedExamples()
    ensures !PatternMatches("")
    ensures !PatternMatches("not-an-email")
    ensures !PatternMatches("a@b")
    ensures !PatternMatches("a@.co")
  {
    ShapeNeeds("");
    ShapeNeeds("not-an-email");
    ShapeNeeds("a@b");
    ShapeNeeds("a@.co");
  }

  /** A string of the shape has an `@` and at least six characters. */
  lemma ShapeNeeds(s: string)
    requires s == [] || s[|s| - 1] != '\n'
    requires '@' !in s || |s| < 6
    ensures !PatternMatches(s)
  {
    AcceptsIffShape(s);
  }
}
