# AuthMe player listener and dependency-graph tool, modelled in Dafny

This project models two parts of AuthMeReloaded.

The first is `AuthMePlayerListener`, the Bukkit listener that keeps players who have not logged in from acting in the world. Each handler is a pure function. Its inputs are the settings, a snapshot of the event's fields, and the answers of the collaborators the listener calls. Its output is a record saying:

- whether the event is cancelled;
- which event fields are overwritten (destination, recipients, join or quit message, login result and kick message, respawn location);
- which calls are made (a denial message, `performQuit`, `handlePlayerJoin`, a teleport, a quit-location update, a delayed `closeInventory`).

The static `joinMessage` map is passed in and returned explicitly. The two login pipelines are lists of `OnJoinVerifier` calls, each recorded with the arguments the listener passes, and run by one fail-fast runner. The country check receives the whole login event, as the handler holds it after the full-server check.

The second is the pure core of the `DrawDependency` developer tool:

- the pruning pass over the dependency multimap, modelled as its entry sequence in iteration order;
- dependency formatting;
- deriving a class name from a source path;
- reading the repeat count;
- building the DOT text.

Files:

- `optional.dfy`: `Option`, standing in for nullable references.
- `text.dfy`: the Java string and integer operations used. These are ASCII `toLowerCase`, `split(" ")` with its trailing-empty rule, `indexOf`, `endsWith`, single-character `replace`, and `Integer.valueOf`.
- `pipeline.dfy`: the `OnJoinVerifier` check calls and the fail-fast runner.
- `listener.dfy`: the listener handlers.
- `drawdependency.dfy`: the dependency-graph tool.

The collaborators are uninterpreted and become parameters:

- `ListenerService.shouldCancelEvent` is an answer (`restricted: bool`) or a predicate on players;
- `OnJoinVerifier` is a function from a check call to `Option<Failure>`;
- `DataSource` lookups are functions of the name they are asked with;
- `SpawnLoader` gives an optional location;
- `antiBot.antibotKicked` is a set of names;
- `Location.distance` is a real number passed in;
- `refusePlayerForFullServer` is a function of the login event. It gives its answer and the event's result and kick message after the call.

Points where the handlers' behaviour is easy to misread:

- A restricted move with unauthenticated movement disallowed is reverted to `from`. With movement allowed and `NO_TELEPORT` on, the move is simply let through.
- Quit and kick look up `antibotKicked` with the name exactly as presented, not lower-cased. `AntibotLookupIsCaseSensitive` shows "Bob" is not found under "bob".
- Of the player names, only the join-message key, the check names and the respawn lookup are lower-cased.

## Model

| member | source | states |
|---|---|---|
| AuthMePlayerListener.OnPlayerCommandPreprocess | src/main/java/fr/xephi/authme/listener/AuthMePlayerListener.java:77-91 | The command is cancelled, with DENIED_COMMAND sent, exactly when all three hold: its label is not in ALLOW_COMMANDS, it is not `/motd` with USE_ESSENTIALS_MOTD, and the player is restricted. Otherwise nothing changes. The handler throws exactly when there is no label, and then it has neither cancelled nor sent anything. |
| AuthMePlayerListener.CommandLabelShape | src/main/java/fr/xephi/authme/listener/AuthMePlayerListener.java:79 | The label is the lower-cased text before the first space. It is missing exactly for a non-empty message made only of spaces. |
| AuthMePlayerListener.UnlistedCommandRefused | src/main/java/fr/xephi/authme/listener/AuthMePlayerListener.java:79-90 | A restricted player's command is cancelled with DENIED_COMMAND whatever its arguments, when the lower-cased first word is neither in ALLOW_COMMANDS nor `/motd`. An example is `/spawn` or `/SPAWN` with only `/login` and `/register` allowed. |
| AuthMePlayerListener.AllowedCommandPasses | src/main/java/fr/xephi/authme/listener/AuthMePlayerListener.java:79-85 | A command whose first word lower-cases to an entry of ALLOW_COMMANDS is left alone for every player, whatever follows the word. `/LOGIN <password>` against an allowed `/login` is one case. |
| AuthMePlayerListener.OnPlayerChat | src/main/java/fr/xephi/authme/listener/AuthMePlayerListener.java:94-116 | With ALLOW_CHAT nothing changes. A restricted sender is cancelled with DENIED_CHAT and the recipients are untouched. Otherwise, with HIDE_CHAT, the recipients become exactly the unrestricted ones, and the message is cancelled iff every recipient was restricted. |
| AuthMePlayerListener.RemoveRestrictedRecipients | src/main/java/fr/xephi/authme/listener/AuthMePlayerListener.java:104-111 | The iterator loop visits each recipient once and removes the restricted ones. It leaves exactly the unrestricted recipients, the same set the chat handler installs. |
| AuthMePlayerListener.HideChatIdempotent | src/main/java/fr/xephi/authme/listener/AuthMePlayerListener.java:103-115 | Filtering an already filtered recipient set changes neither the set nor the cancel decision. |
| AuthMePlayerListener.OnPlayerMove | src/main/java/fr/xephi/authme/listener/AuthMePlayerListener.java:119-165 | Nothing changes unless all of these hold: movement is limited, the move leaves the block column or rises, and the player is restricted. When movement is disallowed, the destination becomes `from`, speeds are zeroed iff REMOVE_SPEED, and there is no teleport. A teleport to the spawn happens exactly when movement is allowed, NO_TELEPORT is off, the spawn and its world are known, and the player is in another world or farther away than the radius. |
| AuthMePlayerListener.FallingIgnoresAuthState | src/main/java/fr/xephi/authme/listener/AuthMePlayerListener.java:128-134 | A move in the same block column with no rise gives the same untouched outcome for restricted and unrestricted players. |
| AuthMePlayerListener.SpawnRadiusDecidesTeleport | src/main/java/fr/xephi/authme/listener/AuthMePlayerListener.java:155-164 | Take a restricted player in the spawn's world, with movement allowed, a positive radius and NO_TELEPORT off. A real move teleports them to the spawn exactly when their distance exceeds the radius, and the destination is never changed. |
| AuthMePlayerListener.OnJoinMessage | src/main/java/fr/xephi/authme/listener/AuthMePlayerListener.java:168-190 | REMOVE_JOIN_MESSAGE nulls the message and leaves the cache alone. With DELAY_JOIN_MESSAGE and a message present, the message is nulled and stored under the lower-cased name, overwriting; no other key changes. In every other case nothing changes. |
| AuthMePlayerListener.JoinMessageCaseFolded | src/main/java/fr/xephi/authme/listener/AuthMePlayerListener.java:182-188 | Two names that differ only in case share one cache entry, and the later join's message wins. |
| AuthMePlayerListener.OnPreLogin | src/main/java/fr/xephi/authme/listener/AuthMePlayerListener.java:210-224 | The three pre-login checks run in order up to the first failure. A failure sets KICK_OTHER with that failure's message. If all pass, all three ran and the event is untouched. |
| AuthMePlayerListener.OnPlayerLogin | src/main/java/fr/xephi/authme/listener/AuthMePlayerListener.java:227-255 | An unrestricted player is left alone, and the full-server check is not consulted. A full-server refusal, or a result other than ALLOWED as the full-server check left it, runs no check and keeps the event as that check left it. Otherwise the six checks run in order up to the first failure. A failure sets KICK_OTHER with its message. `handlePlayerJoin` is called exactly when all six pass. |
| AuthMePlayerListener.PreLoginRefusalRepeatedAtLogin | src/main/java/fr/xephi/authme/listener/AuthMePlayerListener.java:229-252 | Whenever the last pre-login check made fails, pre-login sets KICK_OTHER. Login then repeats the refusal after the same calls, with the same kick message, and no `handlePlayerJoin` follows. This holds for a player who is not unrestricted and whom the full-server check leaves ALLOWED. It also assumes the same name and account answer at both events, and a verifier that answers the three shared checks alike at both. A change in anti-bot state between the events would break that. |
| AuthMePlayerListener.OnPlayerQuit | src/main/java/fr/xephi/authme/listener/AuthMePlayerListener.java:258-270 | The quit message is nulled iff REMOVE_LEAVE_MESSAGE. `performQuit(player, false)` is called iff the name as presented is not in `antibotKicked`. |
| AuthMePlayerListener.OnPlayerKick | src/main/java/fr/xephi/authme/listener/AuthMePlayerListener.java:273-279 | `performQuit(player, true)` is called iff the name as presented is not in `antibotKicked`. |
| AuthMePlayerListener.QuitAndKickAgree | src/main/java/fr/xephi/authme/listener/AuthMePlayerListener.java:258-279 | Quit and kick agree on whether the quit is processed. The quit message does not depend on the anti-bot state. |
| AuthMePlayerListener.AntibotLookupIsCaseSensitive | src/main/java/fr/xephi/authme/listener/AuthMePlayerListener.java:265-277 | A player "Bob" is not matched by a kicked entry "bob", so both quit and kick are processed. |
| AuthMePlayerListener.OnGateEvent | src/main/java/fr/xephi/authme/listener/AuthMePlayerListener.java:281-411 | Covers the pickup, interact, consume, inventory, hit, interact-entity, drop, bed, sign, shear and fish gates; respawn is a separate row. Each of these gates cancels exactly when the shared predicate answers true for its subject. Only inventory-open also schedules `closeInventory` one tick later. A click by no one or by a non-player is ignored. |
| AuthMePlayerListener.OnPlayerRespawn | src/main/java/fr/xephi/authme/listener/AuthMePlayerListener.java:375-397 | With NO_TELEPORT or an unrestricted player nothing happens. Otherwise the quit location is updated to the spawn, under the lower-cased name, iff SAVE_QUIT_LOCATION and the account exists. The respawn point becomes the spawn iff the spawn and its world are known. |
| AuthMePlayerListener.GatesShareOnePredicate | src/main/java/fr/xephi/authme/listener/AuthMePlayerListener.java:281-372 | The sign, inventory-open and inventory-click gates for a player cancel exactly when that player is restricted, whatever the event-level answer. An event-asked gate given that player's answer decides the same way. |
| AuthMePlayerListener.RespawnAgreesWithMoveTeleport | src/main/java/fr/xephi/authme/listener/AuthMePlayerListener.java:376-397 | Take a restricted player, with NO_TELEPORT off and a spawn whose world is known. Respawning puts them at the spawn, any teleport a move makes targets that same spawn, and a saved quit location records it. |
| JoinPipeline.RunChecks | src/main/java/fr/xephi/authme/listener/AuthMePlayerListener.java:241-252 | Only a prefix of the calls is made, and every call before the last one made passed. There is a failure iff the last call made failed. Otherwise every call was made and passed. |
| JoinPipeline.RunChecksAppend | src/main/java/fr/xephi/authme/listener/AuthMePlayerListener.java:241-247 | Running two check lists back to back is running the first and, only if it all passed, the second. |
| JoinPipeline.PreLoginIsLoginPrefix | src/main/java/fr/xephi/authme/listener/AuthMePlayerListener.java:217-247 | The login checks start with the pre-login three in the same order. Under a verifier that answers both events alike, a pre-login failure is reproduced at login after the same calls. |
| JoinPipeline.RunChecksAgree | src/main/java/fr/xephi/authme/listener/AuthMePlayerListener.java:241-247 | The run depends only on the verifier's answers to the listed calls. Two verifiers that answer those calls alike give the same calls made and the same failure. |
| Text.FirstWordShape | src/main/java/fr/xephi/authme/listener/AuthMePlayerListener.java:79 | `split(" ")[0]` is the longest space-free prefix. It throws exactly on a non-empty message made only of spaces. |
| Text.ParseShow | src/test/java/tools/dependencygraph/DrawDependency.java:49 | `Integer.valueOf` reads back every 32-bit value from its decimal rendering. |
| DrawDependency.KeepEntriesCounts | src/test/java/tools/dependencygraph/DrawDependency.java:165-171 | The removal loop keeps every copy of a kept entry and no copy of a removed one: each entry's count is its full count or zero. |
| DrawDependency.Strip | src/test/java/tools/dependencygraph/DrawDependency.java:157-172 | A pruning pass only removes entries and keeps the rest in order. All entries of one key are kept or removed together. |
| DrawDependency.StripKeepsEveryCopy | src/test/java/tools/dependencygraph/DrawDependency.java:157-172 | A pass that keeps an entry keeps every duplicate copy of it, as the multimap holds them. |
| DrawDependency.FlagsLastWrite | src/test/java/tools/dependencygraph/DrawDependency.java:158-163 | A name is flagged iff some entry mentions it. Its flag is TRUE iff the last entry mentioning it has it as the value, because the value write follows the key write. |
| DrawDependency.StripKeepsLastWrittenTrue | src/test/java/tools/dependencygraph/DrawDependency.java:165-171 | An entry survives iff the last entry mentioning its key has that key as its value. |
| DrawDependency.UnusedKeyStripped | src/test/java/tools/dependencygraph/DrawDependency.java:158-170 | A key that is no entry's value loses all of its entries. |
| DrawDependency.SelfEdgeKeepsKey | src/test/java/tools/dependencygraph/DrawDependency.java:161-168 | A key whose last mention is a self-edge keeps all of its entries. |
| DrawDependency.StripTimes | src/test/java/tools/dependencygraph/DrawDependency.java:55-57 | Any number of passes leaves a subsequence of the original entries. |
| DrawDependency.RepeatCount | src/test/java/tools/dependencygraph/DrawDependency.java:47-52 | A numeric answer is the count itself; a non-numeric answer gives 0. Every count lies in the 32-bit range. |
| DrawDependency.NonNumericKeepsGraph | src/test/java/tools/dependencygraph/DrawDependency.java:47-57 | A non-numeric, zero or negative answer leaves the graph unchanged. |
| DrawDependency.EnteredCountStrips | src/test/java/tools/dependencygraph/DrawDependency.java:49-57 | A typed count n runs exactly n pruning passes. |
| DrawDependency.StripUnused | src/test/java/tools/dependencygraph/DrawDependency.java:152-156 | The pass the documentation describes keeps an entry, with all its duplicate copies and in order, exactly when its key is some entry's dependency. |
| DrawDependency.StripWithinIntended | src/test/java/tools/dependencygraph/DrawDependency.java:152-172 | Whatever the pass as written keeps, the documented pass keeps too. |
| DrawDependency.StripRemovesUsedDependency | src/test/java/tools/dependencygraph/DrawDependency.java:157-172 | For any three distinct classes, with a→b listed before b→c, the pass as written removes every entry, although a uses b. The documented pass keeps exactly b→c. |
| DrawDependency.FormatInjectionDependencies | src/test/java/tools/dependencygraph/DrawDependency.java:137-150 | There is one element per dependency. It is `@` plus the annotation name where an annotation exists, and the dependency's simple name otherwise. For dependency names not starting with `@`, an element starts with `@` iff its dependency has an annotation. |
| DrawDependency.ClassNameOf | src/test/java/tools/dependencygraph/DrawDependency.java:106-112 | Null for paths not ending in `.java`. An exception when the root package does not occur. Otherwise the name runs from the first occurrence of `fr.xephi.authme` to just before `.java` and holds no separator. |
| DrawDependency.ClassNameOfSourcePath | src/test/java/tools/dependencygraph/DrawDependency.java:106-112 | A class name round-trips through its source path when the directory part does not itself contain the root package. |
| DrawDependency.DotFile | src/test/java/tools/dependencygraph/DrawDependency.java:60-68 | The output starts with `digraph G {` and a newline, and ends with a newline and `}`. |
| DrawDependency.DotBodyAppend | src/test/java/tools/dependencygraph/DrawDependency.java:61-64 | Edge lines appear in entry order: the text for a concatenation of entries is the concatenation of their texts. |
| DrawDependency.DotFileLineCount | src/test/java/tools/dependencygraph/DrawDependency.java:60-68 | When no name holds a line break, the output has one line per entry plus the header and closing lines. |
| DrawDependency.Execute | src/test/java/tools/dependencygraph/DrawDependency.java:47-68 | A non-numeric console answer renders the unpruned graph. |

## Findings

| source | as written | input that shows it | evidently intended | confidence | as-written member | corrected member |
|---|---|---|---|---|---|---|
| src/test/java/tools/dependencygraph/DrawDependency.java:157-172 | Flags are last-write-wins in entry order, so a class whose last mention is as a key is removed even when an earlier entry uses it as a dependency | entries a→b then b→c with distinct names: b is a's dependency, yet both entries are removed | remove only classes that are no entry's dependency, as the method's documentation says | medium (depends on multimap key order); not executed | DrawDependency.StripRemovesUsedDependency | DrawDependency.StripUnused |

`StripWithinIntended` proves that the pass as written removes at least what the documented pass removes. `Execute` and `StripTimes` keep the pass as written, so the rendered graph is the one the code produces.

## Left out

- Bukkit plumbing is not modelled: event classes, `@EventHandler` priorities and `ignoreCancelled`. Every handler starts from a not-yet-cancelled event snapshot.
- `onPlayerJoin` (lines 192-205) only schedules `management.performJoin` on the main thread. This is host scheduling and is not modelled.
- The close scheduled by `onPlayerInventoryOpen` is recorded only as a one-tick delay. No scheduler is modelled.
- Concurrency is not modelled. The `ConcurrentHashMap` is threaded through as a plain map, and the asynchronous chat and pre-login contexts are treated sequentially.
- Several collaborators are not part of this model and stay uninterpreted: `ListenerService`, `OnJoinVerifier`, `AntiBot`, `Management`, `DataSource`, `Messages` and `SpawnLoader`.
- AuthMePlayerListener.OnPlayerRespawn: `PlayerAuth.builder()` is assumed to accept a null spawn location. So with SAVE_QUIT_LOCATION on, an existing account and no spawn, the update is recorded with a null location. The builder is not part of this model; if it dereferenced the location, that path would throw instead.
- Kick messages are recorded as the failure's reason and arguments. `Messages.retrieveSingle` is not part of this model.
- How `refusePlayerForFullServer` decides is not part of this model. Its answer, and the result and kick message it leaves on the event, are an input of `OnPlayerLogin`.
- Floating point is not modelled. Coordinates are reals, block coordinates are their floors, `Location.distance` is an input, and `setFlySpeed(0.0f)`/`setWalkSpeed(0.0f)` are one flag.
- Text.ToLower: only ASCII letters are lower-cased. Java's locale-dependent Unicode case mapping is not modelled.
- Text.ParseInt: only ASCII digits count. `Integer.valueOf` also accepts other Unicode decimal digits, which the model reads as non-numeric.
- Class objects are represented by their simple names. Two classes with the same simple name are one key in the model.
- DrawDependency.FormatInjectionDependencies requires at least as many annotations as dependencies. With fewer, the Java code throws, and that case is not modelled.
- DrawDependency I/O and reflection are not modelled: the recursive directory listing, `ClassLoader.loadClass` and its `ClassNotFoundException`, constructor/field injection discovery, `Files.write`, and the console prompts.
