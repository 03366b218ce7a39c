# Input validators of the browser helper module

This project models the two input validators exported by `js/utils.js`:

- `isValidPhone(phone)` tests the whole string against `/^[6-9]\d{9}$/`.
  That means one digit from '6' to '9' followed by exactly nine ASCII digits
  (the regional mobile-number convention).
- `isValidEmail(email)` tests the whole string against
  `/^[^\s@]+@[^\s@]+\.[^\s@]+$/`. That is a permissive address check, not the
  full RFC 5322 grammar.

Both are pure predicates, defined on every string the model can represent
(see "## Left out" for how strings are represented). The regular expressions have no
`m`, `u` or `i` flag. So `^` and `$` anchor the whole string, and `\d` means
the ASCII digits '0'..'9'. `\s` means the ECMAScript WhiteSpace and
LineTerminator code points. The model spells that set out in
`CharClasses.IsWhitespace`: TAB, LF, VT, FF, CR, SPACE, U+00A0, U+1680,
U+2000..U+200A, U+2028, U+2029, U+202F, U+205F, U+3000 and U+FEFF.

Each pattern is written twice:

- A reference predicate reads the pattern literally, as a concatenation of
  runs: `Utils.PhoneRegex` and `Utils.EmailRegex`.
- The validator itself runs the deterministic automaton the pattern compiles
  to, one character at a time: `Utils.PhoneRun`/`Utils.PhoneStep` and
  `Utils.EmailRun`/`Utils.EmailStep`.

A state-description predicate says what the input read so far must look like
in each automaton state. The lemmas prove that one step keeps it true, and
therefore so does a whole run. From that, the automaton accepts exactly the
strings the pattern matches. For the email pattern, a second lemma proves
that the literal reading agrees with a declarative one
(`Utils.WellFormedEmail`): no whitespace, exactly one '@', a non-empty local
part, and a domain part with a '.' that is neither its first nor its last
character.

The run after the '.' uses the class `[^\s@]`, like the other two runs, so
it excludes '@' as well as whitespace. An address with a second '@' after
the dot is rejected, and the model keeps that.

Files: `char_classes.dfy` (module `CharClasses`, the regex character classes)
and `utils.dfy` (module `Utils`, the two validators and their proofs).

## Model

| member | source | states |
|---|---|---|
| `CharClasses.IsWhitespace` | js/utils.js:72 | holds exactly of `\s`: ECMAScript WhiteSpace and LineTerminator (the Unicode "Zs" separators as of Unicode 6.3 or later, so not U+180E; not U+0085); no such character is '@', '.' or an ASCII digit |
| `CharClasses.IsDigit` | js/utils.js:78 | holds exactly of `\d` without the `u` flag, the ASCII digits '0'..'9'; a digit is never whitespace, '@' or '.' |
| `CharClasses.IsMobileLead` | js/utils.js:78 | holds exactly of `[6-9]`; every lead is a digit, and '0'..'5' are not leads |
| `CharClasses.IsAddressChar` | js/utils.js:72 | holds exactly of `[^\s@]`; never '@', while '.' and every digit are address characters |
| `Utils.PhoneRegex` | js/utils.js:78 | the literal reading of `^[6-9]\d{9}$`: a lead in '6'..'9' then nine ASCII digits to the end; a match is ten characters, all digits |
| `Utils.EmailRegex` | js/utils.js:72 | the literal reading of `^[^\s@]+@[^\s@]+\.[^\s@]+$`: a non-empty run, '@', a non-empty run, '.', a non-empty run to the end, each run over `[^\s@]`, with the split points chosen existentially as backtracking would; a match has at least five characters and no whitespace |
| `Utils.IsValidPhone` | js/utils.js:77-80 | accepts `s` exactly when `s` has length 10, its first character is in '6'..'9' and the other nine are ASCII digits (the pattern `^[6-9]\d{9}$`) |
| `Utils.PhoneStepDescribes` | js/utils.js:78 | one automaton step keeps the description of the prefix read so far: the matched count equals its length and it is a mobile lead followed by digits, or the prefix can no longer match |
| `Utils.PhoneRunDescribes` | js/utils.js:78 | running the automaton over any suffix keeps that description true of the whole input read |
| `Utils.PhoneScanCorrect` | js/utils.js:78-79 | the automaton ends in its accepting state on exactly the strings the pattern matches |
| `Utils.PhoneLength` | js/utils.js:78 | an accepted number has exactly 10 characters |
| `Utils.PhoneLowLeadRejected` | js/utils.js:78 | any string whose first character is '0'..'5' is rejected |
| `Utils.PhoneExampleAccepted` | js/utils.js:77-80 | "9876543210" is accepted |
| `Utils.PhoneExamplesRejected` | js/utils.js:77-80 | "1234567890" (bad leading digit) and "98765" (wrong length) are rejected |
| `Utils.IsValidEmail` | js/utils.js:71-74 | accepts `s` exactly when the pattern `^[^\s@]+@[^\s@]+\.[^\s@]+$` matches it, and exactly when `s` is well formed: no whitespace, one '@', non-empty local part, a '.' strictly inside the domain part |
| `Utils.DomainStepDescribes` | js/utils.js:72 | one step over an address character keeps the description of the domain read so far (empty; no usable '.'; ends in a usable '.'; has an inner '.') |
| `Utils.DomainStateStep` | js/utils.js:72 | from a domain-reading state, a step keeps the prefix description: another address character extends the domain, while '@' or whitespace leads to the dead state's description |
| `Utils.EmailStepDescribes` | js/utils.js:72 | one automaton step keeps the description of the prefix read so far, including the dead state: whitespace, a leading '@' or two '@' |
| `Utils.EmailRunDescribes` | js/utils.js:72 | running the automaton over any suffix keeps that description true of the whole input read |
| `Utils.EarlyStateRejects` | js/utils.js:72 | an input that stops before any '@', or that has reached the dead state, is not a well-formed address |
| `Utils.DomainStateDecides` | js/utils.js:72 | an input that stops while the domain is being read is well formed exactly when the automaton is in its accepting state |
| `Utils.EmailScanCorrect` | js/utils.js:72-73 | the automaton ends in its accepting state on exactly the well-formed addresses |
| `Utils.RegexMatchWellFormed` | js/utils.js:72 | a match of the pattern (local run, '@', run, '.', run) is a well-formed address |
| `Utils.WellFormedRegexMatch` | js/utils.js:72 | a well-formed address, split at its '@' and at a '.' strictly inside its domain, matches the pattern |
| `Utils.EmailRegexIffWellFormed` | js/utils.js:72 | the literal reading of the pattern and the declarative reading agree on every string, in both directions |
| `Utils.EmailNoWhitespaceOneAtSign` | js/utils.js:72 | an accepted address has no whitespace character and exactly one '@' |
| `Utils.EmailLocalPartNonEmpty` | js/utils.js:72 | in an accepted address the part before any '@' is non-empty and made of address characters only |
| `Utils.EmailExampleAccepted` | js/utils.js:71-74 | "a@b.co" is accepted |
| `Utils.EmailExamplesRejectedChars` | js/utils.js:71-74 | "a b@c.com" (whitespace) and "no-at-sign" (no '@') are rejected |
| `Utils.EmailExamplesRejectedDot` | js/utils.js:71-74 | "a@.co" (the '.' opens the domain part) and "a@b." (the '.' ends it) are rejected |
| `Utils.EmptyRejected` | js/utils.js:71-80 | both validators reject the empty string |

## Left out

- `formatCurrency` and `formatDate`: they depend on locale data, floating-point amounts and date parsing.
- `showToast`, `showLoading` and `hideLoading`: DOM creation and removal, with timer-scheduled removal.
- `debounce`: its behaviour is event-loop timer scheduling.
- `getQueryParam` and `redirectTo`: thin wrappers over the browser's URL parsing and page navigation.
- `isAuthenticated`, `getCurrentUser`, `saveUser` and `removeUser`: thin wrappers over local storage and JSON serialisation.
- The `<style>` element injected when the module loads: a DOM side effect.
- Arguments that are not strings: `RegExp.prototype.test` converts them to a string first (`undefined` becomes "undefined"); the model takes strings only.
- Strings are sequences of Unicode scalar values, not UTF-16 code units. Without the `u` flag the source's patterns match code unit by code unit. A lone surrogate cannot be written in the model, so inputs holding one (for which `isValidEmail("\uD800@b.co")` is true) are outside it. A character outside the Basic Multilingual Plane is one element here and two code units in the source. Neither it nor a surrogate half is whitespace, '@', '.' or a digit, so both validators give the same verdict on every string the model can represent.
- The regular-expression engine itself: each pattern is modelled by its own automaton and a literal reading of its runs, not by a general regex matcher.
