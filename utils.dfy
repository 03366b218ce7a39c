/** The two input validators of the browser helper module: `isValidPhone`
    and `isValidEmail`. Each is a single anchored regular-expression test on
    its argument. Here each pattern is given twice: as a predicate that reads
    the pattern's concatenation of runs literally (the reference), and as the
    deterministic automaton the pattern compiles to, run character by
    character (the validator itself). The lemmas prove that the two agree on
    every string, and relate the email pattern to a declarative reading of
    what a well-formed address is. */
module Utils {
  import opened CharClasses

  // ---------------------------------------------------------------------
  // isValidPhone: /^[6-9]\d{9}$/
  // ---------------------------------------------------------------------

  /** The strings `^[6-9]\d{9}$` matches: one of '6'..'9', then exactly
      nine ASCII digits, then the end of the string. */
  ghost predicate PhoneRegex(s: string): (r: bool)
    ensures r ==> |s| == 10 && forall i :: 0 <= i < |s| ==> IsDigit(s[i])
  {
    |s| == 10 && IsMobileLead(s[0]) && forall i :: 1 <= i < 10 ==> IsDigit(s[i])
  }

  /** States of the automaton for the phone pattern: how many characters of
      the pattern have been matched, or a dead state. */
  datatype PhoneState = Matched(count: nat) | PhoneDead

  function PhoneStep(q: PhoneState, c: char): (q': PhoneState) {
    match q
    case PhoneDead => PhoneDead
    case Matched(n) =>
      if n == 0 then (if IsMobileLead(c) then Matched(1) else PhoneDead)
      else if n < 10 && IsDigit(c) then Matched(n + 1)
      else PhoneDead
  }

  /** Feeds the characters of `s` to the automaton, starting in `q`. */
  function PhoneRun(q: PhoneState, s: string): (q': PhoneState)
    decreases |s|
  {
    if s == [] then q else PhoneRun(PhoneStep(q, s[0]), s[1..])
  }

  /** `isValidPhone`: the whole string is accepted by the automaton. */
  function IsValidPhone(s: string): (r: bool)
    ensures r <==> PhoneRegex(s)
  {
    PhoneScanCorrect(s);
    PhoneRun(Matched(0), s) == Matched(10)
  }

  /** `w` can still be the beginning of a match: a mobile lead, then digits. */
  ghost predicate PhonePrefix(w: string) {
    (|w| > 0 ==> IsMobileLead(w[0])) && forall i :: 1 <= i < |w| ==> IsDigit(w[i])
  }

  /** What the automaton knows about the input `w` read so far in state `q`. */
  ghost predicate PhoneDescribes(q: PhoneState, w: string) {
    match q
    case Matched(n) => n == |w| <= 10 && PhonePrefix(w)
    case PhoneDead => |w| > 10 || !PhonePrefix(w)
  }

  /** One step of the automaton keeps its state description true. */
  lemma PhoneStepDescribes(q: PhoneState, w: string, c: char)
    requires PhoneDescribes(q, w)
    ensures PhoneDescribes(PhoneStep(q, c), w + [c])
  {
    var w' := w + [c];
    assert forall i :: 0 <= i < |w| ==> w'[i] == w[i];
    assert w'[|w|] == c;
    match q
    case PhoneDead =>
      if |w| <= 10 {
        if |w| > 0 && !IsMobileLead(w[0]) {
          assert !IsMobileLead(w'[0]);
        } else {
          var i :| 1 <= i < |w| && !IsDigit(w[i]);
          assert !IsDigit(w'[i]);
        }
      }
    case Matched(n) =>
      if n == 0 {
        assert w' == [c];
      } else if n < 10 && IsDigit(c) {
        assert PhonePrefix(w');
      } else if n < 10 {
        assert !IsDigit(w'[n]);
      }
  }

  /** Running the automaton over `s` keeps its state description true. */
  lemma {:induction false} PhoneRunDescribes(q: PhoneState, w: string, s: string)
    requires PhoneDescribes(q, w)
    ensures PhoneDescribes(PhoneRun(q, s), w + s)
    decreases |s|
  {
    if s == [] {
      assert w + s == w;
    } else {
      PhoneStepDescribes(q, w, s[0]);
      assert w + s == (w + [s[0]]) + s[1..];
      PhoneRunDescribes(PhoneStep(q, s[0]), w + [s[0]], s[1..]);
    }
  }

  /** The automaton accepts exactly the strings the pattern matches. */
  lemma PhoneScanCorrect(s: string)
    ensures PhoneRun(Matched(0), s) == Matched(10) <==> PhoneRegex(s)
  {
    PhoneRunDescribes(Matched(0), [], s);
    assert [] + s == s;
  }

  /** A valid phone number has exactly ten characters. */
  lemma PhoneLength(s: string)
    requires IsValidPhone(s)
    ensures |s| == 10
  {
  }

  /** A number whose first character is '0'..'5' is rejected. */
  lemma PhoneLowLeadRejected(s: string)
    requires |s| > 0 && '0' <= s[0] <= '5'
    ensures !IsValidPhone(s)
  {
  }

  /** A concrete accepted phone number. */
  lemma PhoneExampleAccepted()
    ensures IsValidPhone("9876543210")
  {
    var ok := "9876543210";
    forall i | 1 <= i < 10
      ensures IsDigit(ok[i])
    {
    }
    assert PhoneRegex(ok);
  }

  /** Concrete rejected phone numbers: a bad leading digit, a wrong length. */
  lemma PhoneExamplesRejected()
    ensures !IsValidPhone("1234567890")
    ensures !IsValidPhone("98765")
  {
  }

  // ---------------------------------------------------------------------
  // isValidEmail: /^[^\s@]+@[^\s@]+\.[^\s@]+$/
  // ---------------------------------------------------------------------

  /** The strings `^[^\s@]+@[^\s@]+\.[^\s@]+$` matches: a non-empty run of
      address characters, '@' at index `at`, a non-empty run, '.' at index
      `dot`, and a non-empty run up to the end of the string. */
  ghost predicate EmailRegex(s: string): (r: bool)
    ensures r ==> |s| >= 5 && NoWhitespace(s)
  {
    exists at, dot ::
      0 < at && at + 1 < dot && dot + 1 < |s| && s[at] == '@' && s[dot] == '.'
      && AllAddressChars(s[..at]) && AllAddressChars(s[at + 1..dot]) && AllAddressChars(s[dot + 1..])
  }

  /** `d` has a '.' that is neither its first nor its last character. */
  ghost predicate HasInnerDot(d: string) {
    exists i :: 0 < i < |d| - 1 && d[i] == '.'
  }

  /** Index `k` holds the one and only '@' of `s`. */
  ghost predicate SoleAtSign(s: string, k: int) {
    0 <= k < |s| && s[k] == '@' && forall j :: 0 <= j < |s| && s[j] == '@' ==> j == k
  }

  /** The declarative reading of the pattern: no whitespace, exactly one
      '@', a non-empty local part before it, and a domain part after it
      with a '.' that is neither its first nor its last character. */
  ghost predicate WellFormedEmail(s: string) {
    NoWhitespace(s) && exists k :: SoleAtSign(s, k) && 0 < k && HasInnerDot(s[k + 1..])
  }

  /** States of the automaton for the email pattern. `Host` has read a
      non-empty domain with no usable '.' yet, `HostDot` one that ends in a
      usable '.', `Complete` one with a '.' strictly inside. */
  datatype EmailState = Start | Local | AfterAt | Host | HostDot | Complete | EmailDead

  function EmailStep(q: EmailState, c: char): (q': EmailState) {
    match q
    case Start => if IsAddressChar(c) then Local else EmailDead
    case Local => if c == '@' then AfterAt else if IsAddressChar(c) then Local else EmailDead
    case AfterAt => if IsAddressChar(c) then Host else EmailDead
    case Host => if c == '.' then HostDot else if IsAddressChar(c) then Host else EmailDead
    case HostDot => if IsAddressChar(c) then Complete else EmailDead
    case Complete => if IsAddressChar(c) then Complete else EmailDead
    case EmailDead => EmailDead
  }

  /** Feeds the characters of `s` to the automaton, starting in `q`. */
  function EmailRun(q: EmailState, s: string): (q': EmailState)
    decreases |s|
  {
    if s == [] then q else EmailRun(EmailStep(q, s[0]), s[1..])
  }

  /** `isValidEmail`: the whole string is accepted by the automaton. */
  function IsValidEmail(s: string): (r: bool)
    ensures r <==> EmailRegex(s)
    ensures r <==> WellFormedEmail(s)
  {
    EmailScanCorrect(s);
    EmailRegexIffWellFormed(s);
    EmailRun(Start, s) == Complete
  }

  /** `w` is a non-empty local part, '@' at `k`, and a run of address
      characters after it. */
  ghost predicate SplitAt(w: string, k: int) {
    0 < k < |w| && w[k] == '@' && AllAddressChars(w[..k]) && AllAddressChars(w[k + 1..])
  }

  ghost predicate HasTwoAtSigns(w: string) {
    exists i, j :: 0 <= i < j < |w| && w[i] == '@' && w[j] == '@'
  }

  /** What the domain-reading states know about the domain `d` read so far. */
  ghost predicate DomainDescribes(q: EmailState, d: string) {
    match q
    case AfterAt => d == []
    case Host => |d| > 0 && forall i :: 1 <= i < |d| ==> d[i] != '.'
    case HostDot => |d| >= 2 && d[|d| - 1] == '.' && forall i :: 1 <= i < |d| - 1 ==> d[i] != '.'
    case Complete => HasInnerDot(d)
    case _ => false
  }

  /** What the automaton knows about the input `w` read so far in state `q`. */
  ghost predicate EmailDescribes(q: EmailState, w: string) {
    match q
    case Start => w == []
    case Local => |w| > 0 && AllAddressChars(w)
    case EmailDead => !NoWhitespace(w) || (|w| > 0 && w[0] == '@') || HasTwoAtSigns(w)
    case _ => exists k :: SplitAt(w, k) && DomainDescribes(q, w[k + 1..])
  }

  /** One step in a domain-reading state keeps the domain description true. */
  lemma DomainStepDescribes(q: EmailState, d: string, c: char)
    requires DomainDescribes(q, d) && IsAddressChar(c)
    ensures DomainDescribes(EmailStep(q, c), d + [c])
  {
    var d' := d + [c];
    assert forall i :: 0 <= i < |d| ==> d'[i] == d[i];
    assert d'[|d|] == c;
    if q == HostDot {
      assert d'[|d| - 1] == '.';
    } else if q == Complete {
      var i :| 0 < i < |d| - 1 && d[i] == '.';
      assert d'[i] == '.';
    }
  }

  /** A step from a domain-reading state, with the '@' of `w` at `k`,
      keeps the state description true. */
  lemma DomainStateStep(q: EmailState, w: string, k: int, c: char)
    requires SplitAt(w, k) && DomainDescribes(q, w[k + 1..])
    ensures EmailDescribes(EmailStep(q, c), w + [c])
  {
    var w' := w + [c];
    assert w'[|w|] == c;
    if c == '@' {
      assert w'[k] == '@';
    } else if IsWhitespace(c) {
      assert !NoWhitespace(w');
    } else {
      assert w'[..k] == w[..k];
      assert w'[k + 1..] == w[k + 1..] + [c];
      DomainStepDescribes(q, w[k + 1..], c);
      assert SplitAt(w', k);
    }
  }

  /** One step of the automaton keeps its state description true. */
  lemma EmailStepDescribes(q: EmailState, w: string, c: char)
    requires EmailDescribes(q, w)
    ensures EmailDescribes(EmailStep(q, c), w + [c])
  {
    var w' := w + [c];
    assert forall i :: 0 <= i < |w| ==> w'[i] == w[i];
    assert w'[|w|] == c;
    if q == Start {
      assert w' == [c];
    } else if q == Local {
      if c == '@' {
        assert w'[..|w|] == w;
        assert w'[|w| + 1..] == [];
        assert SplitAt(w', |w|) && DomainDescribes(AfterAt, w'[|w| + 1..]);
      } else if IsWhitespace(c) {
        assert IsWhitespace(w'[|w|]);
      }
    } else if q == EmailDead {
      if !NoWhitespace(w) {
        var i :| 0 <= i < |w| && IsWhitespace(w[i]);
        assert IsWhitespace(w'[i]);
      } else if |w| > 0 && w[0] == '@' {
        assert w'[0] == '@';
      } else {
        var i, j :| 0 <= i < j < |w| && w[i] == '@' && w[j] == '@';
        assert w'[i] == '@' && w'[j] == '@';
      }
    } else {
      var k :| SplitAt(w, k) && DomainDescribes(q, w[k + 1..]);
      DomainStateStep(q, w, k, c);
    }
  }

  /** Running the automaton over `s` keeps its state description true. */
  lemma {:induction false} EmailRunDescribes(q: EmailState, w: string, s: string)
    requires EmailDescribes(q, w)
    ensures EmailDescribes(EmailRun(q, s), w + s)
    decreases |s|
  {
    if s == [] {
      assert w + s == w;
    } else {
      EmailStepDescribes(q, w, s[0]);
      assert w + s == (w + [s[0]]) + s[1..];
      EmailRunDescribes(EmailStep(q, s[0]), w + [s[0]], s[1..]);
    }
  }

  /** Splitting at `k` puts the only '@' at `k` and leaves no whitespace. */
  lemma SplitAtSoleAtSign(w: string, k: int)
    requires SplitAt(w, k)
    ensures NoWhitespace(w) && SoleAtSign(w, k)
  {
    forall i | 0 <= i < |w|
      ensures !IsWhitespace(w[i]) && (w[i] == '@' ==> i == k)
    {
      if i < k {
        assert w[..k][i] == w[i];
      } else if i > k {
        assert w[k + 1..][i - k - 1] == w[i];
      }
    }
  }

  /** An input that ends before the '@', or in the dead state, is not well formed. */
  lemma EarlyStateRejects(q: EmailState, s: string)
    requires q == Start || q == Local || q == EmailDead
    requires EmailDescribes(q, s)
    ensures !WellFormedEmail(s)
  {
    if q == Local {
      assert forall k :: 0 <= k < |s| ==> s[k] != '@';
    }
  }

  /** An input that ends in a domain-reading state is well formed exactly
      when that state is the accepting one. */
  lemma DomainStateDecides(q: EmailState, s: string, k: int)
    requires SplitAt(s, k) && DomainDescribes(q, s[k + 1..])
    ensures q == Complete <==> WellFormedEmail(s)
  {
    SplitAtSoleAtSign(s, k);
    assert forall k' :: SoleAtSign(s, k') ==> k' == k;
  }

  /** The automaton accepts exactly the well-formed addresses. */
  lemma EmailScanCorrect(s: string)
    ensures EmailRun(Start, s) == Complete <==> WellFormedEmail(s)
  {
    EmailRunDescribes(Start, [], s);
    assert [] + s == s;
    var q := EmailRun(Start, s);
    if q == Start || q == Local || q == EmailDead {
      EarlyStateRejects(q, s);
    } else {
      var k :| SplitAt(s, k) && DomainDescribes(q, s[k + 1..]);
      DomainStateDecides(q, s, k);
    }
  }

  /** A match of the pattern with '@' at `at` and the separating '.' at
      `dot` is a well-formed address. */
  lemma RegexMatchWellFormed(s: string, at: int, dot: int)
    requires 0 < at && at + 1 < dot && dot + 1 < |s| && s[at] == '@' && s[dot] == '.'
    requires AllAddressChars(s[..at]) && AllAddressChars(s[at + 1..dot]) && AllAddressChars(s[dot + 1..])
    ensures WellFormedEmail(s)
  {
    forall i | at + 1 <= i < |s|
      ensures IsAddressChar(s[i])
    {
      if i < dot {
        assert s[at + 1..dot][i - at - 1] == s[i];
      } else if i > dot {
        assert s[dot + 1..][i - dot - 1] == s[i];
      }
    }
    assert SplitAt(s, at);
    SplitAtSoleAtSign(s, at);
    assert s[at + 1..][dot - at - 1] == '.';
  }

  /** A well-formed address with its '@' at `k` and a '.' at index `i` of
      its domain part matches the pattern. */
  lemma WellFormedRegexMatch(s: string, k: int, i: int)
    requires NoWhitespace(s) && SoleAtSign(s, k) && 0 < k
    requires 0 < i < |s| - k - 2 && s[k + 1 + i] == '.'
    ensures EmailRegex(s)
  {
    var dot := k + 1 + i;
    assert forall j :: 0 <= j < |s| && j != k ==> IsAddressChar(s[j]);
    assert AllAddressChars(s[..k]);
    assert AllAddressChars(s[k + 1..dot]);
    assert AllAddressChars(s[dot + 1..]);
  }

  /** The pattern, read literally, matches exactly the well-formed addresses. */
  lemma EmailRegexIffWellFormed(s: string)
    ensures EmailRegex(s) <==> WellFormedEmail(s)
  {
    if EmailRegex(s) {
      var at, dot :|
        0 < at && at + 1 < dot && dot + 1 < |s| && s[at] == '@' && s[dot] == '.'
        && AllAddressChars(s[..at]) && AllAddressChars(s[at + 1..dot]) && AllAddressChars(s[dot + 1..]);
      RegexMatchWellFormed(s, at, dot);
    }
    if WellFormedEmail(s) {
      var k :| SoleAtSign(s, k) && 0 < k && HasInnerDot(s[k + 1..]);
      var i :| 0 < i < |s[k + 1..]| - 1 && s[k + 1..][i] == '.';
      WellFormedRegexMatch(s, k, i);
    }
  }

  /** A concrete accepted address. */
  lemma EmailExampleAccepted()
    ensures IsValidEmail("a@b.co")
  {
    var ok := "a@b.co";
    assert SoleAtSign(ok, 1);
    assert ok[2..][1] == '.';
  }

  /** Concrete rejected addresses that fail on their characters: whitespace, and no '@' at all. */
  lemma EmailExamplesRejectedChars()
    ensures !IsValidEmail("a b@c.com")
    ensures !IsValidEmail("no-at-sign")
  {
    assert IsWhitespace("a b@c.com"[1]);
    var noAt := "no-at-sign";
    assert forall j :: 0 <= j < |noAt| ==> noAt[j] != '@';
  }

  /** Concrete rejected addresses that fail on the position of the '.' in the domain part. */
  lemma EmailExamplesRejectedDot()
    ensures !IsValidEmail("a@.co")
    ensures !IsValidEmail("a@b.")
  {
    var s := "a@.co";
    assert SoleAtSign(s, 1);
    assert s[2..] == ".co";
    var t := "a@b.";
    assert SoleAtSign(t, 1);
    assert t[2..] == "b.";
  }

  /** An accepted address has no whitespace and exactly one '@'. */
  lemma EmailNoWhitespaceOneAtSign(s: string)
    requires IsValidEmail(s)
    ensures NoWhitespace(s)
    ensures exists k :: SoleAtSign(s, k)
  {
  }

  /** An accepted address has a non-empty local part before its '@'. */
  lemma EmailLocalPartNonEmpty(s: string, k: int)
    requires IsValidEmail(s) && 0 <= k < |s| && s[k] == '@'
    ensures 0 < k && AllAddressChars(s[..k])
  {
  }


  /** Both validators reject the empty string. */
  lemma EmptyRejected()
    ensures !IsValidEmail("")
    ensures !IsValidPhone("")
  {
  }
}
