# RXP search-engine adapter: a Dafny model of its bookkeeping

Snort 3's RXP adapter (`src/search_engines/rxp.cc`) connects the engine's multi-pattern search interface to the Titan IC RXP regex accelerator. This project models the adapter's bookkeeping in Dafny 4.11 and proves properties of the model. The device is not modelled.

The model covers:

- **Escaping** (`escape.dfy`, module `Escape`). `rxp_escape_pattern` turns a raw byte pattern into the text the RXP rule compiler reads:
  - an alphanumeric byte (C locale, `[0-9A-Za-z]`) passes through;
  - any other byte becomes `\xHH`, with two lower-case hex digits;
  - an empty pattern gives no result.
- **Pattern store** (`store.dfy`, module `PatternStore`). The value-level view of one instance's `pats`:
  - deduplication by escaped text, within that one instance;
  - one `UserCtx` binding per registration;
  - rule ids drawn from the process-wide counter `patterns`;
  - the store invariant: distinct texts, increasing ids, and only ids the counter has issued.
- **Instances and statics** (`rxp.dfy`, module `Rxp`). Two classes:
  - `Registry` stands for the statics of `RxpMpse`: `duplicates`, `jobs_submitted`, `match_limit`, `patterns`, `max_pattern_len` and `instances`.
  - `RxpMpse` is one instance: its `pats`, its `ruleidtbl` and its `instance_id`.
  - The methods follow the source: the constructor, `add_pattern`, `prep_patterns`/`user_ctor`, `user_dtor`, `get_pattern_count`, the host side of `rxp_search`, and `rxp_init`.
  - The registry invariant holds across all instances. Each instance's id is its 1-based position. Each store is valid, and its table maps exactly its ids to their patterns. No rule id is held by two instances.
- **Agent calls** (`agent.dfy`, module `MatchAgent`). The host's match agent is foreign code, so its builders `build_tree` and `negate_list` are taken as functions. `user_ctor` and `user_dtor` return the trace of agent calls they make.
- **Match fan-out** (`fanout.dfy`, module `MatchFanout`). A search takes the accelerator's decoded response as an input. It issues one host callback `(user, user_tree, start_ptr + length, pv, user_list)` per binding of each returned record: records in order, bindings in order within a record.
- **Rule file** (`rulefile.dfy`, module `RuleFile`, with decimal printing in `decimal.dfy`). `write_rule_file` produces a sequence of lines from the registry:
  - the header;
  - then, for each instance, `subset_id = <n>`;
  - then `<ruleid>, <escaped text>` for each of that instance's patterns.

Two behaviours of the code worth stating plainly:

- `rxp_init` (`rxp.cc:444-450`) resets only `jobs_submitted`, `match_limit`, `patterns` and `max_pattern_len`. It leaves `duplicates` and `instances` alone, and `Rxp.Registry.Init` does the same.
- Deduplication is per instance: `add_pattern` (`rxp.cc:232-238`) scans only the instance's own `pats`. The same text registered with two instances therefore becomes two patterns, with two different rule ids. `PatternStore.Find` and `Rxp.RxpMpse.AddText` dedup per instance. `Rxp.RuleIdsUnique` shows the ids still never collide.

## Model

| member | source | states |
|---|---|---|
| Escape.EscapeByte | src/search_engines/rxp.cc:57-69 | An alphanumeric byte gives exactly that one character. Any other byte gives `\`, `x` and two lower-case hex digits, and those digits encode the byte's value. |
| Escape.EscapePattern | src/search_engines/rxp.cc:46-72 | No result exactly when the pattern is empty. Otherwise the result is the in-order concatenation of the per-byte texts; the loop keeps the escaped prefix as its invariant. |
| Escape.EscapedTextAppend | src/search_engines/rxp.cc:57-69 | Escaping a concatenation is the concatenation of the escapings: each byte is escaped on its own, in order. |
| Escape.EscapedTextCons | src/search_engines/rxp.cc:57-69 | The escaped text of `b` followed by `rest` is the text of `b` followed by the escaped text of `rest`. |
| Escape.EscapedTextLength | src/search_engines/rxp.cc:57-69 | Each byte adds exactly 1 or 4 characters: the length is `len + 3 * (number of non-alphanumeric bytes)`, between `len` and `4 * len`. |
| Escape.EscapedTextAlphabet | src/search_engines/rxp.cc:57-69 | The escaped text holds only alphanumerics and backslashes, so it never contains the `,`, space or line break of the rule-file layout. |
| Escape.UnescapeEscaped | src/search_engines/rxp.cc:57-69 | Round trip: unescaping the escaped text gives back the raw bytes. |
| Escape.EscapedUnescape | src/search_engines/rxp.cc:57-69 | The escaping is canonical: any text that unescapes is exactly the escaped text of its bytes. |
| Escape.EscapedTextInjective | src/search_engines/rxp.cc:230-238 | Two raw patterns have equal escaped texts, and so are merged by `add_pattern`, if and only if they are equal. |
| Decimal.DigitsShape | src/search_engines/rxp.cc:352-357 | A number is printed with digits only, and with a leading `0` only when it is 0. |
| Decimal.DigitsValueOfDigits | src/search_engines/rxp.cc:352-357 | Reading a printed number gives back that number. |
| Decimal.DigitsInjective | src/search_engines/rxp.cc:352-357 | Two numbers print the same if and only if they are equal. |
| MatchAgent.NewUserCtx | src/search_engines/rxp.cc:82-86 | A new binding holds the user handle, a null tree and a null list. |
| MatchAgent.PrepBinding | src/search_engines/rxp.cc:192-202 | For a binding with a user: negated patterns call `negate_list(user, list)` and non-negated ones call `build_tree(user, tree)`. Every binding then gets `build_tree(nullptr, tree)` as its last call. The user is kept, and the list changes only on the negate path. |
| MatchAgent.PrepCallsCounts | src/search_engines/rxp.cc:192-202 | Preparing `n` bindings makes `n` calls plus one for each binding with a user. Exactly `n` of them are null-user tree builds. Negated patterns make one `negate_list` per binding with a user and no user tree build; non-negated ones the reverse. |
| MatchAgent.FreeCallsCounts | src/search_engines/rxp.cc:214-221 | Releasing one binding frees its user, list and tree exactly when each is non-null, and never passes a null handle. |
| MatchAgent.DtorCallsCounts | src/search_engines/rxp.cc:212-222 | Releasing a pattern's bindings frees each non-null user, list and tree exactly once, and never passes a null handle. |
| PatternStore.Find | src/search_engines/rxp.cc:232-238 | No result if and only if no pattern has the text. Otherwise the result is the first position holding the text. |
| PatternStore.NewPattern | src/search_engines/rxp.cc:101-108 | A new pattern has the escaped text, the given rule id, the descriptor's `no_case` and `negated` flags, and a single fresh binding for `user`. |
| PatternStore.AddDuplicate | src/search_engines/rxp.cc:240-245 | On a duplicate text, the pattern holding it gains exactly one fresh binding for `user`. Nothing else in the store changes. |
| PatternStore.AddFresh | src/search_engines/rxp.cc:246-257 | A new text is appended at the end of `pats` as a new pattern with the next rule id. |
| PatternStore.TextSetSize | src/search_engines/rxp.cc:143 | A store with distinct texts holds as many texts as patterns. |
| PatternStore.AddDuplicateKeeps | src/search_engines/rxp.cc:232-245 | A duplicate add keeps the store invariant without advancing the counter. It keeps the set of texts and the set of ids, and adds exactly one binding. |
| PatternStore.AddFreshKeeps | src/search_engines/rxp.cc:246-257 | A fresh add keeps the store invariant with the counter advanced by one. It adds the text and the id `counter + 1`, and exactly one binding. |
| PatternStore.AddKeepsWellFormed | src/search_engines/rxp.cc:226-260 | Every `add_pattern` keeps the invariant: distinct texts, strictly increasing ids, ids only from the counter. The text is in the store afterwards, the binding count grows by one, and the id set grows exactly when the text was new. |
| PatternStore.AddTwice | src/search_engines/rxp.cc:232-257 | Adding the same text twice gives one pattern, not two: the second add takes no new id, adds no pattern and leaves the id set as it is. |
| PatternStore.PreparedKeeps | src/search_engines/rxp.cc:186-204 | Preparation keeps the store invariant and the number of bindings. Each binding keeps its user. |
| PatternStore.StorePrepCallsCounts | src/search_engines/rxp.cc:186-204 | `user_ctor` makes one null-user tree build per binding of the store. It makes one `negate_list` or user tree build per binding that has a user. |
| PatternStore.StoreDtorCallsCounts | src/search_engines/rxp.cc:206-224 | `user_dtor` frees each non-null user context of the store once, and never passes a null handle. |
| MatchFanout.FanoutLength | src/search_engines/rxp.cc:311-319 | The number of callbacks is the sum, over the processed records, of the matched pattern's binding count. |
| MatchFanout.FanoutPrefix | src/search_engines/rxp.cc:311-319 | The callbacks of the first `i` records come before those of the rest. |
| MatchFanout.FanoutSplit | src/search_engines/rxp.cc:311-319 | The callbacks around record `i`: those of the earlier records, then record `i`'s own, then those of the later records. |
| MatchFanout.FanoutAt | src/search_engines/rxp.cc:311-319 | Callback order: the callback for binding `j` of record `i` comes after all the callbacks of earlier records and of earlier bindings of record `i`. It carries that binding's user, tree and list, with `to = start_ptr + length`. |
| MatchFanout.JobLength | src/search_engines/rxp.cc:277-281 | The search length is `min(n, RXP_MAX_JOB_LENGTH)`. |
| MatchFanout.OverflowStep | src/search_engines/rxp.cc:302-309 | The overflow count grows by 1 if and only if `match_count != 0` and `detected_match_count > match_count`, otherwise by 0. |
| MatchFanout.SearchCallbacks | src/search_engines/rxp.cc:302-320 | No callbacks when `match_count == 0`. |
| Rxp.ToRuleId | src/search_engines/rxp.cc:250 | The counter stored in the `uint16_t` rule id is reduced modulo 65536: the id is below 65536 and differs from the counter by a multiple of 65536, so it is the counter itself below 65536. |
| Rxp.AddKeepsTable | src/search_engines/rxp.cc:240-251 | A duplicate add leaves the rule-id table mapping exactly the ids to their patterns. A fresh add does too, once the new id is entered at the new pattern's position. |
| Rxp.Lookup | src/search_engines/rxp.cc:232-238 | The scan loop finds the first pattern with the text, or reports none. |
| Rxp.PrepareBinding | src/search_engines/rxp.cc:194-201 | The loop body of `user_ctor` for one binding gives the prepared binding and its calls. |
| Rxp.PrepareBindings | src/search_engines/rxp.cc:192-202 | The inner loop of `user_ctor` prepares every binding of a pattern and returns its calls, in order. |
| Rxp.PrepareAll | src/search_engines/rxp.cc:190-203 | The outer loop of `user_ctor` prepares every pattern and returns all the calls, pattern by pattern. |
| Rxp.PreparedStore | src/search_engines/rxp.cc:186-204 | Preparation keeps distinct texts, increasing ids, the table, the id set and the counter bound. |
| Rxp.ReleaseBindings | src/search_engines/rxp.cc:212-222 | The inner loop of `user_dtor` returns the release calls for a pattern's bindings, in order. |
| Rxp.DuplicateStep | src/search_engines/rxp.cc:240-245 | Appending one binding to the pattern holding the text is the duplicate add. It keeps the invariant, the table and the ids. |
| Rxp.FreshStep | src/search_engines/rxp.cc:246-257 | Appending the new pattern with id `counter + 1` is the fresh add. It keeps the invariant, with the table extended by the new id at its position. |
| Rxp.StoreStep | src/search_engines/rxp.cc:250 | When one instance gains at most the counter's next id, no id is held by two instances and all ids stay issued. |
| Rxp.RegistryStep | src/search_engines/rxp.cc:250-251 | Changing one instance's store and table to valid ones that add at most the next id keeps the registry invariant. |
| Rxp.RegistryGrow | src/search_engines/rxp.cc:126 | Appending an instance with an empty store keeps the registry invariant. |
| Rxp.Registry.constructor | src/search_engines/rxp.cc:175-180 | All counters start at zero and the instance list is empty. The registry invariant holds. |
| Rxp.Registry.Restore | src/search_engines/rxp.cc:166-171 | After one instance adds at most the next id, with the counter moving by at most one and the other instances unchanged, the registry invariant holds again. |
| Rxp.Registry.Init | src/search_engines/rxp.cc:444-450 | `jobs_submitted`, `match_limit`, `patterns` and `max_pattern_len` become 0. `duplicates` and the instance list are unchanged. The registry invariant survives when no instance holds a pattern. |
| Rxp.RxpMpse.constructor | src/search_engines/rxp.cc:122-128 | The instance is appended to the instance list. Its id is the new length of the list, which is its 1-based position. It starts with no patterns and an empty table. The counters are unchanged and the registry invariant is kept. |
| Rxp.RxpMpse.PatternCount | src/search_engines/rxp.cc:143 | `get_pattern_count` is the number of distinct escaped texts of the instance. |
| Rxp.RxpMpse.AddBinding | src/search_engines/rxp.cc:240-245 | Duplicate path: the store becomes the duplicate add, with the table and the id set unchanged. `duplicates` grows by 1; `patterns`, `max_pattern_len`, the other counters and the instance list stay. |
| Rxp.RxpMpse.AddNewPattern | src/search_engines/rxp.cc:246-257 | Fresh path: the store becomes the fresh add with id `patterns + 1`, and the table gains that id at the old length of `pats`. `patterns` grows by 1 and `max_pattern_len` becomes `max(old, len)`. `duplicates` and the other counters stay. |
| Rxp.RxpMpse.AddText | src/search_engines/rxp.cc:232-257 | The store becomes `Add` of the old store. A text the instance has is a duplicate and one it lacks is fresh, with the respective table and counter effects. The store invariant is kept. |
| Rxp.RxpMpse.Register | src/search_engines/rxp.cc:232-257 | `AddText` at the level of the registry. Other instances keep their stores, and the whole registry invariant is kept, including rule ids unique across instances. |
| Rxp.RxpMpse.AddPattern | src/search_engines/rxp.cc:226-260 | `add_pattern` returns 0. The store becomes `Add` of the escaped text. Duplicate and fresh cases are as above, with `max_pattern_len` compared against the raw length. The registry invariant is kept. |
| Rxp.RxpMpse.InstanceWellFormed | src/search_engines/rxp.cc:159-171 | Each instance of a valid registry has a valid store whose ids are all issued by the counter. |
| Rxp.RxpMpse.BindingsOfPatterns | src/search_engines/rxp.cc:313-315 | The table resolves exactly the instance's rule ids. Each id leads to the bindings of the pattern carrying it. |
| Rxp.RxpMpse.UserCtor | src/search_engines/rxp.cc:186-204 | `user_ctor` prepares every binding of every pattern and returns the agent calls made, in order. Texts, ids, the table and the store invariant stay. |
| Rxp.RxpMpse.PrepPatterns | src/search_engines/rxp.cc:262-266 | `prep_patterns` runs `user_ctor`, returns 0 and keeps the registry invariant. |
| Rxp.RxpMpse.UserDtor | src/search_engines/rxp.cc:206-224 | `user_dtor` returns the release calls for every binding of every pattern, in order. |
| Rxp.RxpMpse.Dispatch | src/search_engines/rxp.cc:302-319 | The match loop issues exactly the fan-out of the processed records through the rule-id table. |
| Rxp.RxpMpse.Search | src/search_engines/rxp.cc:268-325 | `rxp_search` returns 0. It truncates exactly when `n > RXP_MAX_JOB_LENGTH`, to `min(n, max)`. The job id is `jobs_submitted + 1`, never 0, and `jobs_submitted` grows by 1. The instance id fills all four subset slots. `match_limit` grows by the overflow step. The callbacks are the fan-out of the response. Nothing else changes. |
| Rxp.RuleIdsUnique | src/search_engines/rxp.cc:250 | In a valid registry, two different patterns, of one instance or of two instances, never carry the same rule id. |
| RuleFile.RuleLines | src/search_engines/rxp.cc:354-358 | One line per pattern, in registration order. |
| RuleFile.SubsetBlock | src/search_engines/rxp.cc:352-358 | A subset's block is its `subset_id` line followed by its rule lines. |
| RuleFile.WriteSubset | src/search_engines/rxp.cc:352-358 | The inner loop of `write_rule_file` produces the subset's block. |
| RuleFile.WriteRuleFile | src/search_engines/rxp.cc:341-364 | `write_rule_file` returns 0 and produces the header line, then the blocks of all instances in registry order. |
| RuleFile.BlocksStep | src/search_engines/rxp.cc:350-359 | Each iteration of the outer loop appends one instance's block to the file. |
| RuleFile.BlocksPrefix | src/search_engines/rxp.cc:350-359 | The lines for the first `m` instances form a prefix of the file's blocks. |
| RuleFile.BlocksAt | src/search_engines/rxp.cc:350-359 | The block of instance `k` starts with `subset_id = k + 1`, followed by its patterns' lines in order. |
| RuleFile.RuleFileOfRegistry | src/search_engines/rxp.cc:348-359 | In a valid registry, the file lists each instance under its own instance id. Each pattern of the instance is listed under its rule id and escaped text. |
| RuleFile.RuleLineRoundTrip | src/search_engines/rxp.cc:357 | A rule line reads back as exactly its rule id and its escaped text. |

## Left out

- Device bring-up, programming and the job pipeline are not modelled, because they are foreign hardware calls: `dpdk_init`, `program_rule_file`, `rxp_enable`, `rxp_prepare_job`, `rxp_enqueue_job`, `rxp_dispatch_jobs`, the busy-wait on `rxp_get_responses` and `rxp_free_buffer`. Standing in for the device:
  - `Search` takes the decoded response as an input.
  - It returns the job it would submit as a value.
- `build_rule_file` (a `system()` call to the external `rxpc` compiler) and `rxp_setup` are not modelled, because they run external programs.
- The `ofstream` in `write_rule_file` is not modelled, because it is file I/O. The file's lines are a sequence of strings without the trailing `endl`.
- Logging (`LogMessage`, `rxp_print`) is not modelled. `Search` reports whether it truncated, in place of the warning.
- `_search` is not modelled: it only zeroes `current_state`, makes an unused `SnortState` lookup and calls `rxp_search`.
- The `MpseApi` table, `rxp_ctor` and `rxp_dtor` are not modelled. The destructor's call of `user_dtor` is `UserDtor`.
- Memory management is not modelled: `delete pat` in `~RxpPattern`, and the escaped string leaked on the duplicate path.
- Concurrency on the shared statics is not modelled.
- What the agent's `build_tree` and `negate_list` build, and what the `*_free` calls do, are not modelled. The builders are uninterpreted function parameters; every agent call is recorded in a trace.
- `RXP_MAX_JOB_LENGTH` is a parameter of `Search`, because `rxp.h`, where it is defined, is not part of this model.
- `RxpPattern` objects are values, not heap objects (`PatternStore.PatternView`). `ruleidtbl` maps a rule id to the pattern's position in `pats`, not to a pointer. The model does not capture the aliasing between `pats` and `ruleidtbl`.
- `user_ctor` updates each binding in place. `Rxp.RxpMpse.UserCtor` computes the prepared store and assigns `pats` once.
- The type of a response record's `rule_id` is declared in `rxp.h`, which is not part of this model. `rxp.cc` uses it as an `int` key of `ruleidtbl` (`rxp.cc:159`, `rxp.cc:313`), so the model takes it as an `int`; any value the table resolves is accepted.
- `new RxpPattern` followed by `rxp_pat->ruleid = ++patterns` is merged into one construction, `PatternStore.NewPattern`, with the id given.
- The counters are 64-bit in the source and unbounded in the model. Only the 16-bit rule id is bounded.
- Rxp.RxpMpse.AddPattern: requires a non-empty pattern. With `len == 0`, `rxp_escape_pattern` returns a null string. If the instance already holds patterns, the scan dereferences it at once (`rxp.cc:234`). On an empty instance the scan does not run: the pattern is stored with a null `pat` (`rxp.cc:248-256`), and that null is dereferenced later, by the next `add_pattern` on the instance (`rxp.cc:234`) or by `write_rule_file` (`rxp.cc:357`).
- Rxp.RxpMpse.AddPattern: requires `patterns < 65535` on every call, including duplicates, which do not advance the counter. Past that bound the `uint16_t` rule id wraps and ids collide; the model does not go there.
- Rxp.RxpMpse.Search: requires every processed rule id to be in `ruleidtbl` and `match_count` to be at most the number of records. In the source an unknown id makes `operator[]` insert a null pointer, which is then dereferenced.
- Rxp.Registry.Init: keeps the registry invariant only when no instance holds a pattern. After a reset of `patterns` with patterns already registered, the next ids would repeat ones already issued.
