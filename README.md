# Preview-mode flag targeting and prompt rendering, in Dafny

This project models two small pieces of logic from a garage demo application and proves
properties about them.

The first piece is the allow-list targeting store of the Go flags service
(`src/Garage.FeatureFlags/main.go`). The service keeps a flagd document in which each flag may
carry a targeting rule of one fixed shape, `{"if": [{"in": [<key ref>, [<user id>, ...]]}, ...]}`.
The array at `in[1]` is the flag's allow-list. The service exposes two operations:

- a membership query (`GET /flags/?userId=…`), which reports, for each flag the permission
  oracle lists, whether the user is in its allow-list;
- an update (`POST /flags/`), which adds the user to one flag's allow-list or removes them.

Both are gated by the permission oracle. This is the string value of the `enable-preview-mode`
flag, read as a comma-separated list of the flag keys that may be edited.

The second piece is the rendering of a parsed prompt document in the Python chat service
(`src/Garage.ChatService/prompt_loader.py`). Rendering substitutes `{{key}}` placeholders in each
message's content, then returns `role`/`content` messages. The same file also looks up the
prompt's model parameters.

The modules:

- `Wrappers`, `Json`: `Option`/`Result`, and the decoded JSON value (numbers as integers).
- `StringOps`: the library string operations the code relies on, written out. These are Go's
  `strings.TrimSpace` over Go's `unicode.IsSpace` characters and `strings.Split`, and Python's
  `str.replace`, with `str.split` and `str.join` as its reference definition.
- `PreviewMode`: `getPreviewModeFlags` after the oracle call. The oracle's answer is a string
  parameter; an uninitialised client or an evaluation error stands for `""`.
- `Targeting`: the rule shape, `getUserIDsFromTargeting` and `setUserIDsInTargeting` (methods with
  the source's loops), and enabling and disabling one user.
- `FlagsService`: the decoded document as a class `FlagFile`, whose two handler methods mirror
  `handleGetFlags` and `handleUpdateFlagTargeting`. The update's decision is also written as a
  pure function `Update` over the document's flag map. A separate section works through a demo
  flag.
- `PromptLoader`: `render_messages` as a method with the source's two loops, proved against the
  function `Rendered`, and `get_model_parameters`. Python exceptions become a `PyError` value.

Two behaviours of the code are worth noting:

- The write path (`setUserIDsInTargeting`, main.go:238-261) makes only three of the read path's
  four shape checks: it does not check that `in[1]` is an array. The model gives it exactly these
  three (`HasInRule`), while reading demands all four (`WellShaped`). In the handler the write
  always follows a successful read, so its failure branch cannot be taken.
- An update for a flag the oracle does not list is refused with 403 even when that flag is
  missing from the document. The permission check (main.go:387-390) runs before the lookup
  (main.go:403-407), so such a request is answered 403, not 404 (`DemoUnlisted`).

## Model

| member | source | states |
|---|---|---|
| StringOps.TrimSpace | src/Garage.FeatureFlags/main.go:291 | The trimmed piece keeps only characters of the input and neither starts nor ends with Go white space |
| StringOps.TrimSpaceIsInfix | src/Garage.FeatureFlags/main.go:291 | The trimmed piece is a contiguous infix of the input, and everything around it is white space |
| StringOps.TrimSpaceIdempotent | src/Garage.FeatureFlags/main.go:291 | Trimming twice is trimming once |
| StringOps.TrimSpaceOfTrimmed | src/Garage.FeatureFlags/main.go:291 | A string without white space at either end is its own trim |
| StringOps.SplitOn | src/Garage.FeatureFlags/main.go:288 | `strings.Split` always returns at least one piece; where it cuts is stated by `SplitFirstLeftmost`, `SplitSingle` and `SplitCut` |
| StringOps.SplitFirstIsPrefix | src/Garage.FeatureFlags/main.go:288 | The first piece of a split is a prefix of the string |
| StringOps.SplitFirstLeftmost | src/Garage.FeatureFlags/main.go:288 | No occurrence of the separator starts inside the first piece, so the first cut is at the leftmost occurrence, even for a separator that overlaps itself |
| StringOps.SplitSingle | src/Garage.FeatureFlags/main.go:288 | A split into one piece leaves the string whole |
| StringOps.SplitCut | src/Garage.FeatureFlags/main.go:288 | A split into several pieces cuts at the occurrence right after the first piece, and the other pieces are the split of what follows that occurrence |
| StringOps.LeftmostIsFirstPiece | src/Garage.FeatureFlags/main.go:288 | Where the separator occurs, the first piece is exactly the text before its leftmost occurrence |
| StringOps.SplitAfterLeftmost | src/Garage.FeatureFlags/main.go:288 | The pieces after the first are the split of the text that follows the leftmost occurrence |
| StringOps.JoinSplit | src/Garage.FeatureFlags/main.go:288 | Joining the pieces of `strings.Split` with the separator gives the original string back |
| StringOps.SplitJoin | src/Garage.FeatureFlags/main.go:288 | Splitting on a one-character separator undoes joining with it, when no piece contains it |
| StringOps.SplitPartsAvoidSeparator | src/Garage.FeatureFlags/main.go:288 | No piece of a split contains the separator, whatever its length |
| StringOps.SplitWithoutSeparator | src/Garage.FeatureFlags/main.go:288 | A string without the separator splits into itself alone |
| StringOps.ReplaceAll | src/Garage.ChatService/prompt_loader.py:42 | A string shorter than the pattern is returned unchanged, and a string that starts with the pattern gets the replacement at its front |
| StringOps.ReplaceIsJoinOfSplit | src/Garage.ChatService/prompt_loader.py:42 | `s.replace(p, r)` equals `r.join(s.split(p))` |
| StringOps.ReplaceAllPieces | src/Garage.ChatService/prompt_loader.py:42 | The string is its pieces joined by the pattern, no piece contains the pattern, and the result joins the same pieces by the replacement |
| StringOps.ReplaceLeftmost | src/Garage.ChatService/prompt_loader.py:42 | The leftmost occurrence is replaced and replacement carries on after it; with `ReplaceAbsent` this fixes the result for every input, including patterns that overlap themselves |
| StringOps.ReplaceAbsent | src/Garage.ChatService/prompt_loader.py:42 | A string in which the pattern does not occur is returned unchanged |
| StringOps.ReplaceWithItself | src/Garage.ChatService/prompt_loader.py:42 | Replacing a pattern by itself changes nothing |
| PreviewMode.EditableFlags | src/Garage.FeatureFlags/main.go:283-296 | The empty oracle value gives no keys, and every key given is non-empty and trimmed |
| PreviewMode.GetPreviewModeFlags | src/Garage.FeatureFlags/main.go:283-296 | The loop's result is `EditableFlags(value)`: empty for `""`, otherwise the non-blank trimmed comma pieces in order |
| PreviewMode.NonBlankTrimmed | src/Garage.FeatureFlags/main.go:289-295 | Every kept key is non-empty and trimmed, and there are no more keys than pieces |
| PreviewMode.NonBlankTrimmedMembership | src/Garage.FeatureFlags/main.go:289-295 | A key is kept if and only if it is non-empty and is the trim of some piece |
| PreviewMode.EditableFlagsElements | src/Garage.FeatureFlags/main.go:283-296 | Every editable key is non-empty, contains no comma and has no surrounding white space |
| PreviewMode.NonBlankTrimmedOfKeys | src/Garage.FeatureFlags/main.go:289-295 | Already clean, non-empty keys pass through unchanged and in order |
| PreviewMode.EditableFlagsOfJoin | src/Garage.FeatureFlags/main.go:283-296 | Round trip: parsing the comma-join of valid keys returns exactly those keys |
| Targeting.GetUserIDsFromTargeting | src/Garage.FeatureFlags/main.go:206-234 | Fails exactly when `if`, `if[0]`, `in` or `in[1]` has the wrong shape; otherwise returns the string entries of `in[1]` in order, dropping all others. The error messages are the source's, set in the body; the contract does not state them |
| Targeting.SetUserIDsInTargeting | src/Garage.FeatureFlags/main.go:238-261 | Fails exactly when one of its three shape checks fails; otherwise returns the rule with `in[1]` replaced by the ids as strings |
| Targeting.WithAllowList | src/Garage.FeatureFlags/main.go:254-260 | The written rule is well shaped, its allow-list is the given ids, and every other key, `if` entry, condition member and `in` entry is unchanged |
| Targeting.StringsMembership | src/Garage.FeatureFlags/main.go:227-232 | An id is read if and only if it occurs in `in[1]` as a JSON string |
| Targeting.StringsConcat | src/Garage.FeatureFlags/main.go:227-232 | Reading keeps the entries' order: it distributes over concatenation |
| Targeting.GetAfterSet | src/Garage.FeatureFlags/main.go:206-261 | Round trip: after setting the allow-list to L, reading it returns exactly L |
| Targeting.StringsOfJStrings | src/Garage.FeatureFlags/main.go:254-258 | Reading back ids written as JSON strings returns those ids |
| Targeting.RuleDeterminedByAllowList | src/Garage.FeatureFlags/main.go:238-261 | Two rules that agree outside `in[1]` and at `in[1]` are equal, so the write's frame is complete |
| Targeting.SetTwice | src/Garage.FeatureFlags/main.go:238-261 | Setting the allow-list twice is the same as setting it once with the second list |
| Targeting.WithUser | src/Garage.FeatureFlags/main.go:417-422 | Enable: a list that already holds the user is unchanged, and otherwise the user is appended once; so the user is in the result, nothing else is added and the old list is a prefix |
| Targeting.EnableIdempotent | src/Garage.FeatureFlags/main.go:417-422 | Enabling twice is enabling once |
| Targeting.EnableNoDuplicates | src/Garage.FeatureFlags/main.go:417-422 | Enabling never introduces a duplicate |
| Targeting.WithoutUser | src/Garage.FeatureFlags/main.go:423-432 | Disable: the user is absent from the result, and the result is no longer than the input |
| Targeting.RemoveUser | src/Garage.FeatureFlags/main.go:425-431 | The filtering loop computes `WithoutUser` |
| Targeting.WithoutUserMembership | src/Garage.FeatureFlags/main.go:423-432 | Disabling keeps exactly the other users |
| Targeting.WithoutUserOfAbsent | src/Garage.FeatureFlags/main.go:423-432 | A list without the user is returned unchanged |
| Targeting.DisableIdempotent | src/Garage.FeatureFlags/main.go:423-432 | Disabling twice is disabling once |
| Targeting.DisableKeepsOrder | src/Garage.FeatureFlags/main.go:423-432 | Survivors keep their relative order: disabling distributes over concatenation |
| Targeting.DisableNoDuplicates | src/Garage.FeatureFlags/main.go:423-432 | Disabling never introduces a duplicate |
| Targeting.DisableUndoesEnable | src/Garage.FeatureFlags/main.go:417-432 | Disabling a user who was absent before enabling restores the list exactly |
| Targeting.SetMembership | src/Garage.FeatureFlags/main.go:417-432 | After enable or disable, the user is present if and only if enabled, and every other user is present if and only if they were before |
| FlagsService.FlagStates | src/Garage.FeatureFlags/main.go:324-339 | Only listed keys of flags in the document are reported |
| FlagsService.FlagStatesSnoc | src/Garage.FeatureFlags/main.go:327-338 | One more listed key adds its state exactly when that flag exists, has targeting and reads successfully |
| FlagsService.FlagFile.HandleGetFlags | src/Garage.FeatureFlags/main.go:300-339 | An empty user id gives 400; otherwise the states are exactly the listed, existing, well-shaped flags, each mapped to whether the user is in its allow-list |
| FlagsService.FlagFile.HandleUpdateFlagTargeting | src/Garage.FeatureFlags/main.go:352-457 | Answers and rewrites the document as `Update` does for the oracle's editable list; the schema is unchanged |
| FlagsService.Update | src/Garage.FeatureFlags/main.go:362-441 | An update never adds or removes a flag |
| FlagsService.Apply | src/Garage.FeatureFlags/main.go:417-441 | The write always answers with success for the request's user and setting, and keeps the document's flag keys |
| FlagsService.RejectedKeepsDocument | src/Garage.FeatureFlags/main.go:362-415 | No rejected request changes the document |
| FlagsService.UpdateDecisionOrder | src/Garage.FeatureFlags/main.go:362-415 | The checks run in order: 403 on an empty list, then 400 for the body, 400 for `userId`, 400 for `flagKey`, 403 for an unlisted key, 404 for a missing flag, 500 for a malformed rule, and success otherwise |
| FlagsService.UpdateSuccess | src/Garage.FeatureFlags/main.go:362-441 | A successful update passed every check, and its outcome is the write of the request |
| FlagsService.UpdateAccepted | src/Garage.FeatureFlags/main.go:362-441 | When every check passes, the update is the write |
| FlagsService.ApplyEffect | src/Garage.FeatureFlags/main.go:417-457 | Only the requested flag's allow-list changes. The answer's `userIds` is the list now stored, holds the user iff enabled and every other user iff before, and stays duplicate-free |
| FlagsService.FailClosed | src/Garage.FeatureFlags/main.go:283-296 | When the oracle value names no flag, every update gets 403 with the document unchanged, and the query reports nothing |
| FlagsService.FailClosedScope | src/Garage.FeatureFlags/main.go:386-390 | A valid request for a flag the oracle does not list gets 403 and changes nothing, whatever the document holds |
| FlagsService.StatesAfterWrite | src/Garage.FeatureFlags/main.go:324-339 | Rewriting one listed flag so that it is reportable changes the query at that key only |
| FlagsService.QueryAfterUpdate | src/Garage.FeatureFlags/main.go:324-441 | After a successful update the query reports the requested membership for that flag and, for every user, what it reported before on all other flags |
| FlagsService.RepeatedUpdate | src/Garage.FeatureFlags/main.go:362-441 | Repeating a successful request gives the same answer and the same document |
| FlagsService.ApplyOverRewrite | src/Garage.FeatureFlags/main.go:417-441 | A write over an earlier rewrite of the same allow-list equals the write over the original, when both membership changes give the same list |
| FlagsService.DisableAfterEnable | src/Garage.FeatureFlags/main.go:362-441 | Disabling a user right after enabling them ends where disabling alone would have |
| FlagsService.DemoEditable | src/Garage.FeatureFlags/main.go:283-296 | The oracle value `enable-demo` makes exactly that flag editable |
| FlagsService.DemoEnable | src/Garage.FeatureFlags/main.go:352-457 | On the demo flag with an empty allow-list, enabling user 42 answers and stores `["42"]`, and the query then reports the flag as on for 42 |
| FlagsService.DemoDisable | src/Garage.FeatureFlags/main.go:352-457 | Disabling 42 afterwards answers with an empty allow-list |
| FlagsService.DemoUnlisted | src/Garage.FeatureFlags/main.go:386-390 | A request for an unlisted key gets 403, whether or not the flag exists |
| PromptLoader.Placeholder | src/Garage.ChatService/prompt_loader.py:42 | The placeholder is `{{`, then the key, then `}}` |
| PromptLoader.ApplyVariables | src/Garage.ChatService/prompt_loader.py:41-42 | With no variables the content is unchanged, and one variable is one `replace` of its placeholder |
| PromptLoader.RenderContent | src/Garage.ChatService/prompt_loader.py:40-42 | With no variables the content is returned as it was, even when it is not a string; otherwise a string gets the substitutions in mapping order, and any other value raises AttributeError |
| PromptLoader.RenderMessage | src/Garage.ChatService/prompt_loader.py:40-43 | A message renders if and only if it is a mapping with `content` and `role` whose content renders. Otherwise it raises, in this order, TypeError for a non-mapping, KeyError for a missing `content`, the content's own error, then KeyError for a missing `role`. A rendered message has the input's role and the rendered content |
| PromptLoader.MessagesOf | src/Garage.ChatService/prompt_loader.py:39 | A prompt without `messages` iterates nothing, and a list iterates its entries |
| PromptLoader.RenderAll | src/Garage.ChatService/prompt_loader.py:38-44 | A rendered list has as many messages as the input |
| PromptLoader.Rendered | src/Garage.ChatService/prompt_loader.py:26-44 | A rendering succeeds only when `messages` can be iterated, and then gives one message per item |
| PromptLoader.RenderMessages | src/Garage.ChatService/prompt_loader.py:26-44 | The two loops compute `Rendered`: the messages in order, or the first exception raised |
| PromptLoader.RenderAllSuccess | src/Garage.ChatService/prompt_loader.py:38-44 | A list renders if and only if every message does; then there is one output per input, in the same order |
| PromptLoader.RenderAllFirstFailure | src/Garage.ChatService/prompt_loader.py:38-44 | A failing list raises what its first failing message raises |
| PromptLoader.RenderAllStopsAt | src/Garage.ChatService/prompt_loader.py:38-44 | When a prefix renders and the next message raises, the whole rendering raises that |
| PromptLoader.RenderedMessages | src/Garage.ChatService/prompt_loader.py:38-44 | A rendered list has one output per input message, in order, each with its input's role and rendered content |
| PromptLoader.NoMessages | src/Garage.ChatService/prompt_loader.py:39 | A prompt without a `messages` key renders to the empty list |
| PromptLoader.NoVariables | src/Garage.ChatService/prompt_loader.py:40-43 | With an empty variables mapping every message keeps its role and content |
| PromptLoader.ApplyVariablesFirst | src/Garage.ChatService/prompt_loader.py:41-42 | Substitution runs one key at a time from the first key: the first key's replace happens first, then the rest in order |
| PromptLoader.ApplyVariablesAbsent | src/Garage.ChatService/prompt_loader.py:41-42 | A content containing none of the placeholders is returned unchanged |
| PromptLoader.Cascade | src/Garage.ChatService/prompt_loader.py:41-42 | For example, a value holding a later key's placeholder is substituted again, and one holding an earlier key's placeholder is not; `ApplyVariablesFirst` states the order in general |
| PromptLoader.AsDict | src/Garage.ChatService/prompt_loader.py:43 | A rendered message is the mapping with exactly the keys `role` and `content` |
| PromptLoader.ModelParameters | src/Garage.ChatService/prompt_loader.py:47-56 | Returns the `modelParameters` entry when present, and an empty mapping otherwise |

## Left out

- Telemetry (spans, logs, metrics) in both services: observability side effects with no behaviour to state.
- The permission-oracle client and its initialisation: a foreign network call. Its answer is a string parameter, and a missing client or an evaluation error stands for `""`, which leaves nothing editable.
- Reading and writing the flags file, and JSON encoding and decoding (main.go:162-203). This is I/O through the standard library. The handlers take the decoded document and leave the updated one in `FlagFile.flags`. So the 500 answers for "Failed to read flags", "Failed to write flags" and "Failed to encode response" are not modelled, and a broken request body is the `None` body, answered with 400. The write of main.go:443 re-encodes the decoded structs (main.go:30-41), which keep only `state`, `variants`, `defaultVariant` and `targeting` of a flag and only `$schema` and `flags` of the root. So after every successful update the file loses every other member, and `omitempty` drops an empty `targeting`. "Every other flag is unchanged" (`ApplyEffect`) holds of the decoded document, not of the file's text.
- The method check at main.go:356-359 (405 for anything but POST), HTTP routing and `main`. The handlers are modelled from the point where the request is accepted.
- The file mutex and where it is taken: concurrency. Each handler call is one atomic step on the document.
- Aliasing through Go's shared maps. `setUserIDsInTargeting` writes `in[1]` inside the map that the flag's struct copy shares with the document. The model returns a new rule value instead, and the handler stores it back under the flag's key, which ends in the same document.
- Go's trimming is Unicode-aware on UTF-8 bytes. The model trims over an explicit character set (Go's `unicode.IsSpace`) on `seq<char>`, so invalid UTF-8 and byte-level details are not modelled.
- JSON numbers are kept as integers; no floating-point value or number format is modelled.
- The query's expectation in main_test.go:42-53 (200 `{}` without a `userId`) contradicts main.go:304-307, which answers 400. The model follows main.go.
- `load_prompt` (prompt_loader.py:8-23) and all of the chat service's `main.py`: file I/O, YAML parsing, the web framework and the model-provider call.
- PromptLoader.MessagesOf: a prompt that is not a mapping is not modelled, because the prompt is a `map<string, Value>`. A `messages` value that is a non-empty string or mapping raises TypeError, because the iterated characters or keys are strings that `msg['content']` rejects. Python values that JSON has no form for (bytes, tuples, sets) are not modelled.
- PromptLoader.RenderMessages: the variables mapping is a sequence of pairs in iteration order. Duplicate keys, which a Python mapping cannot hold, are not excluded.
