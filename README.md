# Cloudlet edge-redirect rules to Fastly VCL, modelled in Dafny

The service takes the JSON export of an Akamai Edge Redirector cloudlet,
turns its `erMatchRule` rules into three Fastly VCL snippets and publishes
them. This project models the compiler at the heart of the POST handler in
`src/index.js`.

- **Rule loop** (`CompileSpec.Step`, `CompileSpec.Run`, `Compiler.RedirectCompiler.CompileRule`).
  Rules are handled in order.
  - A rule whose `matchURL` is not `null` becomes one record of the edge
    dictionary `table path_redirect`. A path that is already taken is
    reported in the response text instead.
  - A rule whose `matchURL` is `null` becomes an `if`/`elseif` block of the
    `recv` snippet. Its guard is built from the rule's matchers.
- **Guard** (`Condition`, `Compiler.RedirectCompiler.EmitMatcher`,
  `Compiler.RedirectCompiler.BuildCondition`).
  - Matchers are joined by `) && (`, inside one `(` and one `)` per matcher.
  - Space-separated alternatives are joined by ` || `.
  - An alternative with `?` or `*` gets a `.` before each wildcard and turns
    the comparison into a regex match.
    `Condition.Operator` and `Condition.MatchText` are the loop's two local
    values `eval_operator` and `eval_matchURL`, and `Condition.Format` is its
    template `${match_operand} ${eval_operator} "${eval_matchURL}"`.
- **Location** (`RedirectLocation`). The redirect location of a block is the
  redirect URL as a VCL long string. Each regex backreference `\N` becomes a
  concatenation with `re.group.N`.
- **Handler state** (`Compiler.RedirectCompiler`). The class holds the
  module-level buffers, which are set up once and never reset, so every call
  appends to what earlier calls left. It also holds the per-call
  `strict_redirects`, `response` and `first_if`, and the three snippet texts.
  `Handle` is one call: reset the per-call state, run the loop, close the
  table, append the fixed epilogue, and store the buffers as the snippets.
  Storing goes through `escapeSpecialChars`, which changes nothing.
- **Runtime choice** (`Resolution`). At request time the epilogue picks
  between a matching condition block and the dictionary record of the
  request path. This is modelled as a function on the two candidates.

The definitions everything else is proved about, with the source lines
each one follows:

- `Rules.StatusText`: `status_code`, `'301'` when absent (src/index.js:92).
- `Rules.QsFlag`: `cust_use_query_string` (src/index.js:98-103 and 174-179).
- `CompileSpec.RecordValue` and `CompileSpec.RecordLine`: the table record
  (src/index.js:108).
- `CompileSpec.DuplicateLine`: the duplicate report (src/index.js:105).
- `CompileSpec.Header`: `if` or `elseif` (src/index.js:114).
- `CompileSpec.Body`: the block body after the `)` repeat, with its four
  `set` lines (src/index.js:188-193).
- `CompileSpec.Step`: one iteration of the rule loop (src/index.js:92-194).
- `CompileSpec.Run`: the rule loop, which stops at the first throw
  (src/index.js:90-196).
- `Condition.Promote`, `Condition.Operator`, `Condition.MatchText` and
  `Condition.Format`: one alternative's comparison (src/index.js:291-300 and 309).
- `Condition.ConditionText`: the text `build_condition` appends
  (src/index.js:287-311).
- `Condition.MatcherClause`: the `switch` on one matcher (src/index.js:120-169).
- `Condition.Clauses`: the loop over a rule's matchers (src/index.js:118-170).
- `Condition.Guard`: the `(` repeat, the clauses and the `)` repeat
  (src/index.js:117-188).
- `RedirectLocation.ReplaceBackrefs`: the backreference rewrite
  (src/index.js:182).
- `RedirectLocation.Cleanup`: the clean-up of the location (src/index.js:185).
- `Resolution.DecodeRecord`: the match of the dictionary value against the
  record pattern (src/index.js:212-216).
- `Resolution.Atoi`: `std.atoi` on the two priorities (src/index.js:226).

Two things are proved.

- The imperative methods are proved against the value-level specification
  `CompileSpec`.
- `CompileSpec` is proved equal to a reference description that does not
  replay the loop (`CompileFacts.RunMatchesReference`). That description
  says which rules reach the table, which are reported as duplicates, which
  blocks open with `if`, and when the handler throws.

Three behaviours of the code are kept as written:

- A `matchURL` that is missing, rather than `null`, takes the table path and is written as `undefined`.
- A matcher of unknown type adds no clause and no `) && (`, but it still counts in the `(`/`)` repeats.
- A `query` or `cookie` value without `=` makes the handler throw a TypeError part-way through a block. What was appended to the global buffers before the throw stays there.

## Model

| member | source | states |
|---|---|---|
| Strings.SplitOn | src/index.js:135 | `split(' ')` gives one more part than there are separators, and no part holds a separator |
| Strings.SplitThenJoin | src/index.js:135 | joining the parts of a split with the separator gives the text back |
| Strings.JoinThenSplit | src/index.js:135 | splitting separator-free parts joined by the separator gives the parts back |
| Strings.SplitFirst | src/index.js:134 | `split(/=(.*)/s)` cuts at the first `=`: no cut exactly when there is no `=`; otherwise the name has no `=` and name, `=`, rest rebuild the value |
| Strings.SplitFirstAt | src/index.js:134 | splitting `a + "=" + b` with no `=` in `a` gives back `a` and `b` |
| Strings.Repeat | src/index.js:117 | `'('.repeat(n)` has length n and holds only the repeated character |
| Strings.ReplaceAllSame | src/index.js:17-24 | a global replace of a pattern by itself leaves every text unchanged |
| Snippets.EscapeSpecialChars | src/index.js:16-25 | the eight replaces of `escapeSpecialChars` return their input unchanged |
| Snippets.ReplaceEach | src/index.js:17-24 | any chain of backslash-pair replaces by the same pair is the identity |
| Condition.Promote | src/index.js:294-295 | promotion adds exactly one character per `?` and per `*`, and changes the text exactly when it holds a wildcard |
| Condition.PromoteRoundTrip | src/index.js:295 | removing the `.` before each wildcard undoes promotion |
| Condition.PromoteCount | src/index.js:295 | promotion adds only `.`: every other character keeps its number of occurrences |
| Condition.Operator | src/index.js:294-300 | the operator is `~`/`!~` exactly when the alternative has a wildcard, and `!~`/`!=` exactly when negated |
| Condition.MatchText | src/index.js:294-300 | an alternative with a wildcard is emitted promoted, one without verbatim; the emitted text always un-promotes to the alternative |
| Condition.DisjunctionCount | src/index.js:289-310 | k alternatives give k comparisons: a tracked character occurs k times per occurrence in the operand, once per occurrence in the alternatives, plus two `\|` per ` \|\| ` join |
| Condition.DisjunctionBars | src/index.js:302-308 | with no `\|` in operand and alternatives, k alternatives are joined by exactly k - 1 ` \|\| ` |
| Condition.ConditionTextCounts | src/index.js:302-309 | for alternatives that together are balanced in brackets and a balanced operand, `build_condition`'s text is balanced; without `&` in them, its only `&&` is the `) && (` past the first matcher |
| Condition.ConditionTextStep | src/index.js:302-309 | each iteration appends `) && (` (past matcher 0) or ` \|\| `, then one comparison |
| Condition.QueryOperandCount | src/index.js:137 | the `query` operand holds one `(` and one `)` besides those of its name, and no other tracked character beyond the name's |
| Condition.CookieOperandCount | src/index.js:157 | the `cookie` operand adds no bracket, `&` or `\|` to those of its name |
| Condition.RegexClauseCounts | src/index.js:121-131 | a balanced regex, capture groups included, gives a balanced clause; without `&` in the regex it holds `&&` only when it follows another matcher |
| Condition.MatcherThrowsIff | src/index.js:133-159 | a matcher throws exactly when it is `query` or `cookie` and its value has no `=` |
| Condition.ClauseCounts | src/index.js:120-169 | a matcher with balanced value (for `query`/`cookie`: balanced name and rest) gives a balanced clause; without `&` in the value, a known matcher past index 0 adds one `&&` and an unknown one nothing |
| Condition.ClausesThrowIff | src/index.js:118-170 | a rule's matcher loop throws exactly when one of its matchers does |
| Condition.ClausesStep | src/index.js:118-170 | the matcher loop, one matcher further: the matcher's clause is appended, or the loop throws |
| Condition.ClausesStop | src/index.js:118-170 | once a matcher throws, the matchers after it add nothing |
| Condition.ClausesCounts | src/index.js:118-170 | with balanced matchers the clauses are balanced; without a throw and without `&` in the values they hold two `&` per known matcher past index 0 |
| Condition.GuardCounts | src/index.js:117-188 | a guard of N balanced matchers, regex capture groups included, has as many `(` as `)`; with N known matchers and no `&` in their values it has N - 1 `&&` |
| Condition.KnownClauseOpens | src/index.js:123-124 | past index 0, a known matcher's clause opens with `) && (` |
| Condition.UnknownFirstMatcher | src/index.js:117-168 | an unknown matcher first and a known one second give a guard that starts with the empty group `(()` |
| RedirectLocation.Location | src/index.js:182-185 | the location always starts with `{` and ends with `;` |
| RedirectLocation.ReplaceBackrefsLength | src/index.js:182 | each backreference `\1`..`\9` grows the text by 18 characters |
| RedirectLocation.ReplaceBackrefsIdentity | src/index.js:182 | the rewrite leaves a URL unchanged exactly when it holds no backreference |
| RedirectLocation.ReplaceBackrefsConcat | src/index.js:182 | the rewrite works piece by piece when no backreference straddles the cut |
| RedirectLocation.PlainLocation | src/index.js:182-185 | a URL without backreferences gives `{"url"};`, unless it ends with ` + {"`, which the clean-up also cuts |
| RedirectLocation.TrailingBackref | src/index.js:182-185 | a URL ending in `\N` ends its location with a bare `re.group.N;` |
| RedirectLocation.GoLocation | src/index.js:182-185 | `/go\1` gives `{"/go"} + re.group.1;` |
| CompileFacts.StepThrowsIff | src/index.js:93-196 | one rule throws exactly when it is a condition rule with a matcher that cannot be split |
| CompileFacts.RunThrowsIff | src/index.js:90-196 | the loop throws exactly when some rule throws |
| CompileFacts.ThrowsOfInit | src/index.js:90-196 | a rule that throws still makes the loop throw when more rules follow |
| CompileFacts.StepAppends | src/index.js:104-188 | one rule only appends to the table, the logic, `strict_redirects` and `response` |
| CompileFacts.RunAppends | src/index.js:90-196 | a call's rules only append to the global buffers, whether or not the handler throws |
| CompileFacts.OtherTypeIgnored | src/index.js:93 | a rule whose type is not `erMatchRule` changes nothing |
| CompileFacts.TableUrlsMembers | src/index.js:104-107 | a path is in `strict_redirects` exactly when some table rule has it |
| CompileFacts.SeenBeforeIff | src/index.js:104 | a rule's path is a duplicate exactly when an earlier table rule put it in `strict_redirects` |
| CompileFacts.TableUrlsDistinct | src/index.js:104-107 | `strict_redirects` never holds a path twice |
| CompileFacts.TableStep | src/index.js:96-109 | a table rule adds its record when it comes first for its path, and otherwise adds the duplicate line to `response` |
| CompileFacts.ConditionStep | src/index.js:110-194 | a condition rule that does not throw appends its whole block, headed by `if` only when no earlier condition rule exists |
| CompileFacts.OtherStep | src/index.js:93 | a rule of another type leaves the reference state as it was |
| CompileFacts.ConditionBlock | src/index.js:114-193 | a condition rule that does not throw appends header, guard and body, and counts one more block |
| CompileFacts.RunMatchesReference | src/index.js:84-196 | without a throw: the table gets the first occurrences' records, the logic the blocks, `strict_redirects` the first occurrences' paths, `response` the duplicate reports, and `first_if` the number of blocks |
| CompileFacts.NoConditionBefore | src/index.js:88-115 | the block count is 0 exactly when no condition rule came before, so only the first block opens with `if` |
| CompileFacts.RunStep | src/index.js:90-196 | the loop, one rule further, is one more step |
| CompileFacts.RunStops | src/index.js:90-196 | once a rule throws, the rules after it are not compiled |
| Compiler.RedirectCompiler.constructor | src/index.js:30-66 | the buffers start with their opening text, the snippets are empty, and the handler text is fixed |
| Compiler.RedirectCompiler.BuildCondition | src/index.js:287-311 | the loop appends exactly `build_condition`'s text and changes nothing else |
| Compiler.RedirectCompiler.EmitMatcher | src/index.js:120-169 | the `switch` appends the matcher's clause, or throws exactly for a `query`/`cookie` value without `=`, leaving the logic as it was |
| Compiler.RedirectCompiler.CompileRule | src/index.js:91-195 | one iteration of the rule loop changes the state exactly as `CompileSpec.Step` says |
| Compiler.RedirectCompiler.StoreSnippets | src/index.js:253-256 | the snippets receive the three buffers unchanged |
| Compiler.RedirectCompiler.Finish | src/index.js:198-256 | the table gets `}` and a line break, the logic gets the epilogue, and the snippets hold both buffers and the handler text |
| Compiler.RedirectCompiler.Handle | src/index.js:84-256 | a call resets the per-call state and appends to the global buffers; it throws exactly when some rule does; without a throw it leaves the records, blocks and reports of the reference description |
| Resolution.DecodeFlagOf | src/index.js:212 | `(useQS\|noQS)\|` reads back the flag a record was written with |
| Resolution.DecodeRecordValue | src/index.js:212-216 | a record written with numeric key and status and a URL without line break decodes to that key, status, flag and URL |
| Resolution.NonNumericKey | src/index.js:212 | a record whose key holds no `\|` and is not a number never matches the lookup pattern (a key such as `5\|301\|useQS` would fake a record) |
| Resolution.Line | src/index.js:212 | `(.*)` captures a URL without line break whole |
| Resolution.LeadingDigits | src/index.js:226 | `std.atoi` reads the longest prefix of decimal digits |
| Resolution.Target | src/index.js:227-237 | the redirect keeps the side's status; its location starts with the side's location, equals it exactly when the side does not ask for the query string or the query string is empty, and otherwise continues with `?` and the query string |
| Resolution.Winner | src/index.js:225-242 | the side taken is present exactly when some side matched, is one of the two, has the smallest priority number of the two, and is the table whenever the table's number is not larger |
| Resolution.Resolve | src/index.js:225-242 | no redirect exactly when neither side matched; the condition block's redirect when it alone matched or has the strictly lower number; the table's when it alone matched or its number is not larger |
| Resolution.ResolveMinimal | src/index.js:225-232 | with both sides matched, the redirect taken is that of a side with the smaller priority number, and it is the condition block's (when the two differ) only for a strictly smaller number |
| Resolution.TableRecordRedirect | src/index.js:210-238 | the record text written at line 108, decoded by the pattern at line 212 and resolved for a path only the table knows, gives the rule's `redirectURL` and status, plus `?` and the query string for `useIncomingQueryString: true` and a non-empty query string |
| Resolution.TieGoesToTable | src/index.js:226-231 | on equal priority numbers the table record wins |
| Resolution.ConditionTwoBeatsTableFive | src/index.js:225-228 | a condition block of priority 2 beats a table record of priority 5 |

## Left out

- The HTTP side is not modelled: routing, `req.json()`, the `Fastly-Key` header check, building the `Response`, the 404 catch-all route and `router.listen()` (src/index.js:6-11, 69-82, 264-285). `Handle` takes the already parsed rules and returns the response text or a TypeError.
- Publishing the snippets is not modelled. These are network calls with no logic to verify: the service version lookup, clone, delete, upload and activate (src/index.js:258-262, 313-410). `src/fastly_api.js` and `webpack.config.js` are not part of this model.
- `console.log` calls are left out: they only log.
- The rules come as a sequence in the order `Object.entries` yields them, which puts array-index keys (canonical non-negative integers below 2^32 - 1) first in ascending order and keeps every other key, such as `"01"` or `"-1"`, in insertion order. The model takes that order as given and does not compute it.
- JSON values are reduced to what the handler distinguishes:
  - `statusCode` is the text a template literal gives for it;
  - `useIncomingQueryString` is a boolean or absent, so loose-equality values such as `1` or `"1"` are not modelled;
  - `negate` is a boolean.
  A condition rule without `matches` or `redirectURL` raises another TypeError in the source (src/index.js:117, 182), and so does a `query`, `cookie`, `hostname`, `path` or `extension` matcher whose `matchValue` is missing or not a string (its `.split`). The model does not represent these.
  A missing `redirectURL` of a table rule (src/index.js:108) or a missing `matchValue` of a `regex` matcher (src/index.js:127-129) is written as `undefined` without an error. The model represents it as the text `undefined` in the string field.
- The VCL the compiler emits is text. Its runtime meaning is not modelled: regex and string comparison, `re.group`, the `error 777` handling in the `error` snippet. `Resolution` models only the decoding of the dictionary value and the final choice between the two candidates. The condition block's location enters it as an already evaluated string, and the dictionary value as described in the next line.
- Resolution.TableRecordRedirect: the dictionary value that `table.lookup` returns (src/index.js:210) is taken to be the literal text between the quotes of the record at line 108. VCL short strings decode `%xx` escapes, and a `"` inside the `redirectURL` ends the string early. Neither is modelled, so for a `redirectURL` holding `%` or `"` the redirect the lemma states is not the one the edge makes.
- Resolution.LeadingDigits: `std.atoi` is modelled on leading decimal digits only; signs and leading blanks are not modelled, and `Resolution.Atoi` is an unbounded natural number, not the 64-bit INTEGER `std.atoi` returns, so priorities beyond that range are not modelled.
- Resolution.Line: the `(.*)` capture stops at the first line break, as in PCRE's default mode. Other PCRE options are not modelled.
