# COMESOL registration client: the pure logic, in Dafny

The COMESOL client is a single-page web app. Members of a solidarity-economy
cooperative sign in, register their group and its members, and later view the
saved registration. Authentication, storage and queries all go to a hosted
backend. This project models the few pieces of `src/App.tsx` that decide
something on their own:

- **CPF validation** (module `Cpf`, file `cpf.dfy`). `cpfDigits` strips every
  non-digit. `validateCPF` then requires exactly eleven digits and checks the
  two modulo-11 check digits. The first uses weights 10..2 over the first nine
  digits, the second weights 11..2 over the first ten. The check digit is
  `11 - sum % 11`, with 10 and 11 replaced by 0. The model follows that
  computation and proves it equivalent to an independent formulation of the
  same rule, `IsValidCpfNumber`: ascending weights 1..9 (then 0..9), with the
  sum taken modulo 11 and then modulo 10. Module `CpfExamples` works through
  concrete numbers: 529.982.247-25 is accepted, a wrong last digit is
  rejected, and all ten repeated-digit numbers such as 111.111.111-11 are
  accepted.
- **CEP and e-mail patterns** (module `Patterns`, file `patterns.dfy`). The
  two anchored regular expressions `cepRegex` and `emailRegex` are data: a
  sequence of character-class atoms, each with no quantifier, `?` or `+`.
  `Matches` is the backtracking whole-string match. Lemmas turn each pattern
  into a plain description. A CEP is eight digits, or five digits, a dash and
  three digits. An e-mail address has no white space, exactly one `@` (not
  first), and a `.` after the `@` that is neither next to it nor last.
- **Routing after sign-in** (module `Routing`, file `routing.dfy`). This is
  the decision `redirectAfterAuth` takes once the backend has answered. With
  no session the user goes to `/login`. With a session and a non-empty group
  query result they go to `/visualizacao`, and otherwise to `/cadastro`.
  The group query (`user_id` equal to the signed-in user, limit 1) is also
  modelled over a table of rows. That ties the decision to "does the user own
  a group". The `<Routes>` table is matched the way React Router 6 matches a
  path by default: letter case is ignored and trailing slashes are dropped,
  so `/Login/` shows the login page too.
- **Pending members** (module `Members`, file `members.dfy`). These are the
  registration page's local list (`onAddMemberLocally`, `onRemovePending`)
  and the checks `MemberForm.submit` makes before adding an entry: a
  non-empty name, then a CPF that validates.

`Wrappers` (`wrappers.dfy`) holds `Option` and `Result`. `Text` (`text.dfy`)
holds the JavaScript regular-expression character classes `\d` (ASCII digits
only, since the patterns have no `u` flag) and `\s`.

I/O is removed throughout. The session and the group query result are
parameters of the routing decision. The locally generated member id is a
parameter of the add and submit operations. Where the round-trip needs it,
its freshness is a precondition.

Two points about the routing decision, both taken from the code:

- The decision has three outcomes, not two. Before it looks for a group, the
  code checks the session and sends a user without one to `/login`.
  `RedirectAfterAuth` models that branch.
- A failed group query is not a separate state. It leaves `data` null, and a
  null result routes exactly as an empty one does: to `/cadastro`.

`cepRegex` is declared next to the validators, but neither CEP input field
applies it (src/App.tsx:243 and src/App.tsx:378). It is modelled as the
predicate it defines. `emailRegex` is the pattern the group form applies to
the contact e-mail.

## Model

| member | source | states |
|---|---|---|
| Text.DigitValue | src/App.tsx:28-36 | `parseInt` of one digit character gives a number from 0 to 9 that spells back to that character |
| Text.IsSpace | src/App.tsx:20 | `\s` holds exactly ECMAScript's WhiteSpace and LineTerminator characters, and never a digit or `@` |
| Cpf.Digits | src/App.tsx:22 | the stripped string holds only ASCII digits and is never longer than the input |
| Cpf.DigitsKeepsDigitCounts | src/App.tsx:22 | each digit occurs in the result exactly as often as in the input, and no other character occurs at all |
| Cpf.DigitsAppend | src/App.tsx:22 | stripping a concatenation is concatenating the stripped parts, so together with the one-character case the result is the input's digits in their original order |
| Cpf.DigitsOfDigitString | src/App.tsx:22 | a string made only of digits is returned unchanged |
| Cpf.DigitsIdempotent | src/App.tsx:22 | stripping twice gives the same as stripping once |
| Cpf.DigitsOfSeparators | src/App.tsx:22 | a string with no digit strips to the empty string |
| Cpf.DescendingPlusAscending | src/App.tsx:28-33 | at every position the source's falling weight and the reference's rising weight add up to a constant, so the two weighted sums add up to that constant times the digit sum |
| Cpf.DescendingSum | src/App.tsx:28-33 | the weighted sum the two loops build is never negative while the weights, falling by one per digit, stay at or above zero, as 10..2 and 11..2 do |
| Cpf.CheckDigit | src/App.tsx:29-30 | the computed check digit always lies in 0..9; it is 0 exactly when the sum leaves remainder 0 or 1 modulo 11; otherwise adding it to the sum gives a multiple of 11 |
| Cpf.CheckDigitOfComplement | src/App.tsx:29-30 | when two sums add up to a multiple of 11, the check digit of one equals the other modulo 11 then modulo 10 |
| Cpf.FirstCheckDigit | src/App.tsx:27-30 | the first check digit, from weights 10..2 over the first nine digits, is a single decimal digit |
| Cpf.SecondCheckDigit | src/App.tsx:32-35 | the second check digit, from weights 11..2 over the first ten digits, is a single decimal digit |
| Cpf.CheckDigitsAgree | src/App.tsx:27-36 | both computed check digits equal the reference rule's digits: weights 1..9 for the first and 0..9 for the second, each sum modulo 11 then modulo 10 |
| Cpf.CheckDigitsMatch | src/App.tsx:25-37 | the checks on the stripped string accept only eleven characters, and accept exactly the strings that satisfy the reference CPF rule |
| Cpf.ValidateCpf | src/App.tsx:23-38 | the verdict is true exactly when the input's digits form a valid CPF under the reference rule, and a true verdict implies exactly eleven digits |
| Cpf.AcceptedExactlyWhenValidNumber | src/App.tsx:23-38 | the validator accepts an input if and only if its stripped digits satisfy the reference CPF rule |
| Cpf.WrongLengthRejected | src/App.tsx:24-25 | any input that does not strip to exactly eleven digits is rejected |
| Cpf.FirstMismatchRejected | src/App.tsx:27-31 | eleven digits whose tenth digit differs from the first computed check digit are rejected |
| Cpf.SecondMismatchRejected | src/App.tsx:32-36 | eleven digits whose eleventh digit differs from the second computed check digit are rejected |
| Cpf.BothMatchAccepted | src/App.tsx:23-38 | eleven digits whose tenth and eleventh digits both equal the computed check digits are accepted |
| Cpf.VerdictOnDigitsOnly | src/App.tsx:22-24 | a formatted input and its bare digits get the same verdict |
| Cpf.SeparatorsIgnored | src/App.tsx:22-24 | inserting any run of non-digit characters anywhere in the input never changes the verdict |
| Cpf.UsualPunctuationIgnored | src/App.tsx:22-24 | the written layout NNN.NNN.NNN-NN gets the same verdict as the same pieces written without punctuation |
| CpfExamples.RepeatedDigitsAccepted | src/App.tsx:23-38 | all ten strings of eleven equal digits are accepted, because the validator has no rule against repeated digits |
| CpfExamples.BareExampleIsValidNumber | src/App.tsx:23-38 | 52998224725 satisfies the reference rule |
| CpfExamples.BareExampleAccepted | src/App.tsx:23-38 | the validator accepts 52998224725 |
| CpfExamples.FormattedExampleAccepted | src/App.tsx:22-38 | the validator accepts 529.982.247-25 |
| CpfExamples.RepeatedOnesAccepted | src/App.tsx:22-38 | the validator accepts 111.111.111-11 |
| CpfExamples.AlteredCheckDigitRejected | src/App.tsx:32-36 | the validator rejects 52998224724, where only the last check digit is wrong |
| Patterns.Matches | src/App.tsx:20-21 | an anchored `test` succeeds only on strings at least as long as the pattern's non-optional atoms, and, when the pattern has no `+`, no longer than the pattern |
| Patterns.CepPattern | src/App.tsx:21 | `^\d{5}-?\d{3}$` has nine atoms, none repeated and one optional, so whatever it accepts has eight or nine characters |
| Patterns.EmailPattern | src/App.tsx:20 | `^[^\s@]+@[^\s@]+\.[^\s@]+$` needs at least five characters and has a `+` atom, so the length cap of `Matches` does not apply |
| Patterns.RunOfOnce | src/App.tsx:21 | `n` unquantified atoms of one class match exactly when the first `n` characters are in the class and the rest of the pattern matches what follows |
| Patterns.RunOfOneOrMore | src/App.tsx:20 | a `+` atom followed by a pattern matches exactly when some non-empty prefix lies in the atom's class and the rest of the pattern matches the remainder |
| Patterns.IsCep | src/App.tsx:21 | `cepRegex` accepts exactly eight digits, or five digits, a dash and three digits, so an accepted string has 8 or 9 characters |
| Patterns.CepShape | src/App.tsx:21 | the pattern `^\d{5}-?\d{3}$` matches exactly the eight-digit and the dashed nine-character forms |
| Patterns.CepExamples | src/App.tsx:21 | `01310-100` and `01310100` are accepted; a misplaced dash and a short string are rejected |
| Patterns.LastRun | src/App.tsx:20 | the final `[^\s@]+$` matches exactly a non-empty string without white space or `@` |
| Patterns.DomainRuns | src/App.tsx:20 | the part after the `@` matches exactly when it splits into a non-empty run, a `.` and a non-empty run, none holding white space or `@` |
| Patterns.EmailMatchSplits | src/App.tsx:20 | every string `emailRegex` accepts splits into a run, `@`, a run, `.` and a run, each non-empty and free of white space and `@` |
| Patterns.EmailSplitMatches | src/App.tsx:20 | every string that splits that way is accepted |
| Patterns.EmailLengthUnbounded | src/App.tsx:20 | addresses of every length are accepted: `n` letters followed by `@b.c` match for every `n` of at least one |
| Patterns.EmailRuns | src/App.tsx:20 | `emailRegex` matches exactly when the string splits into a run, `@`, a run, `.` and a run, each run non-empty and free of white space and `@` |
| Patterns.IsEmail | src/App.tsx:20 | `emailRegex.test` is true if and only if such a split exists |
| Patterns.EmailInPlainWords | src/App.tsx:20 | an address is accepted if and only if it has no white space, exactly one `@` (not first), and a `.` after the `@` that is neither next to it nor last |
| Patterns.EmailExamples | src/App.tsx:20 | `a@b.c` is accepted; an address with no dot after the `@`, or with a space, is rejected |
| Routing.FirstMatch | src/App.tsx:63-68 | the page found comes from an entry whose pattern matches the path, and no page is found only when no pattern matches |
| Routing.TablePathsReachTheirPages | src/App.tsx:63-68 | no pattern listed before a table path matches it, so each of `/`, `/login`, `/cadastro` and `/visualizacao` reaches its own page |
| Routing.RouteAt | src/App.tsx:63-68 | `/` and `/login` show the login page, `/cadastro` and `/visualizacao` their own pages; any page shown comes from a matching `<Route>`, and a path no pattern matches shows none |
| Routing.RouteAtIgnoresCase | src/App.tsx:63-68 | two paths that differ only in letter case show the same page |
| Routing.RouteAtIgnoresTrailingSlash | src/App.tsx:63-68 | adding a slash at the end of a non-empty path does not change the page shown |
| Routing.MatchesRouteIgnoresCase | src/App.tsx:63-68 | a pattern matches a path exactly when it matches the same path in other letter case |
| Routing.MatchesRouteTrailingSlash | src/App.tsx:63-68 | a pattern that is the root or does not end in a slash matches a non-empty path exactly when it matches that path with one more slash |
| Routing.RoutePatternsExclusive | src/App.tsx:63-68 | no path matches two patterns of the table, so the order of the routes decides nothing |
| Routing.CapitalisedLoginWithSlash | src/App.tsx:64-65 | `/Login/` shows the login page |
| Routing.DoubleSlashIsRoot | src/App.tsx:64 | `//` shows the login page, as `/` does |
| Routing.LongerPathShowsNothing | src/App.tsx:63-68 | `/logins` shows no page, although it starts like `/login` |
| Routing.PathsRoundTrip | src/App.tsx:63-68 | each route's path leads back to that route, so the three paths are distinct |
| Routing.HasGroup | src/App.tsx:176 | `groups && groups.length > 0` holds exactly when the query result is present and holds some row |
| Routing.RedirectAfterAuth | src/App.tsx:170-181 | the three destinations are exclusive and cover every case: `/login` exactly without a session; `/visualizacao` exactly with a session and a group found; `/cadastro` exactly with a session and no group found, including a null result |
| Routing.OnlyPresenceMatters | src/App.tsx:175-176 | the destination depends on the query result only through whether a row came back |
| Routing.FailedQueryIsNoGroup | src/App.tsx:175-180 | for a signed-in user, a null query result routes like an empty one, to `/cadastro` |
| Routing.OwnGroupQuery | src/App.tsx:175 | the query returns at most one row; every row returned belongs to the user; it returns nothing exactly when the user owns no row of the table |
| Routing.ViewExactlyWhenOwningGroup | src/App.tsx:170-181 | a signed-in user is sent to `/visualizacao` if and only if some group row belongs to them |
| Routing.SavedGroupLeadsToView | src/App.tsx:175-177 | once a group row for the user has been saved, the decision is `/visualizacao` |
| Members.AddPending | src/App.tsx:194-196 | adding grows the list by one; earlier entries stay unchanged as a prefix; the new last entry is the member under the given id |
| Members.RemovePending | src/App.tsx:198 | removing never grows the list; it keeps exactly the entries whose id differs; no entry with that id remains |
| Members.RemoveAppend | src/App.tsx:198 | removing from a concatenation is concatenating the removals, so with the one-entry case the remaining entries keep their order |
| Members.RemoveAbsent | src/App.tsx:198 | removing an id that no entry carries leaves the list unchanged |
| Members.AddThenRemove | src/App.tsx:194-198 | adding under a fresh id and then removing that id restores the original list |
| Members.RemoveIdempotent | src/App.tsx:198 | removing the same id twice gives the same as removing it once |
| Members.RemovePresentUnique | src/App.tsx:198 | when ids are unique, removing an id that is present shortens the list by exactly one |
| Members.AddKeepsIdsUnique | src/App.tsx:195 | adding under a fresh id keeps all ids distinct |
| Members.RemoveKeepsIdsUnique | src/App.tsx:198 | removing keeps all ids distinct |
| Members.RemoveKeepsAccepted | src/App.tsx:198 | removing keeps every remaining entry one with a name and a valid CPF |
| Members.BuildMember | src/App.tsx:343-364 | the record carries the form's name, CPF and CEP, nests the address line with the CEP, and holds the other-occupation text as written when the box is ticked and nothing when it is not |
| Members.Submit | src/App.tsx:339-364 | a submission is added exactly when the name is non-empty and the CPF validates; a blank name is reported before any CPF problem; an accepted submission keeps the earlier entries and appends exactly the member built from the form values, under the fresh id |
| Members.BlankCpfRejectedByValidator | src/App.tsx:342 | the validator rejects the empty string, so the blank-CPF test in front of it refuses nothing the validator would accept |
| Members.SubmitKeepsInvariant | src/App.tsx:194-198 | submitting under a fresh id keeps the list made only of accepted members with distinct ids |

## Left out

- Every backend call is left out: the session lookup, sign-in with password
  or Google, sign-out, the connection check, the group and member inserts in
  `onSaveGroup`, and the member query, delete and group update on the view
  page. These are network I/O. The session and the group query result enter
  the model only as parameters.
- The React components, hooks, form library, rendering, `window.location`,
  `alert`/`confirm` and the DOM reset after a submission are left out. They
  are presentation. An `Err` from `Submit` stands for the alert, and the
  pending list stays as it was.
- `cryptoRandomId` is left out, because it draws on `Math.random`. The id is
  a parameter. Freshness is a precondition where a lemma needs it. The source
  itself does not guarantee that two random ids differ.
- `getUserId`, the `Protected` wrapper and `AuthInfo` are left out. They are
  asynchronous session lookups and rendering.
- The view page's `onDeleteMember` and its own group lookup, and the save
  button's disabled state while no member is pending, are not part of this
  model.
- Routing.RouteAt: React Router is not part of this model. Its default
  matching is restated here, letter case ignored for ASCII letters and any run
  of trailing slashes dropped. The router's percent-decoding of the path is
  not modelled, so an encoded spelling such as `/%6Cogin` shows no page in
  the model. The `BrowserRouter` here has no `basename`.
- Form values that are `undefined` are represented as empty strings. Both are
  falsy, so the name and CPF tests treat them alike.
- JavaScript strings are UTF-16 code units, and Dafny characters are Unicode
  scalar values. For these patterns the verdicts agree: a character outside
  the Basic Multilingual Plane is never a digit, white space or `@`, whether
  read as one character or two.
- Sums are exact integers. The largest CPF sum is below 600, so JavaScript's
  floating-point numbers compute them exactly too.
