# Verified model of the siliconflow-plugin painting core

The repository holds two chat-bot plugins. `SF_Painting` draws with
SiliconFlow and answers through Gemini. `MJ_Painting` submits prompts to a
Midjourney proxy, polls the task, and runs follow-up actions: upscale
(放大), variation (微调) and reroll (重绘). Nearly all of it sends HTTP requests.
This project models the deterministic logic in between, as Dafny, and proves
what that logic promises:

- the round-robin cursor over the `sf_keys` credential records, which skips
  disabled records (`get_use_sf_key`);
- the modular cursor over the comma-separated Gemini key string
  (`get_use_ggKey`), including the split on `,`/`，`, the trim and the removal
  of empty pieces;
- the grounding-source chain of `generateGeminiPrompt`: keep web chunks, map
  them to `{title, url}`, rewrite the redirect prefix, and keep the first
  occurrence of each pair;
- the composite action id (`customId`) of `handleAction`, and the choice of
  the task an action targets;
- the bounded `pollTaskResult` loop, run over abstract status responses;
- endpoint selection by mode, bot type, mode parsing, and base-URL
  normalisation.

Layout:
- `wrappers.dfy`: `Option` and `Result`.
- `js_strings.dfy`, module `JsStrings`: the JavaScript string built-ins the
  code uses: `trim`, `includes`, `replace` with a string pattern, and
  `split(/[,，]/)`.
- `sf_keys.dfy`, module `SfKeys`: both credential cursors. Each is a class
  whose one field is the cursor.
- `sf_sources.dfy`, module `SfSources`: the Gemini answer and source list.
- `mj_painting.dfy`, module `MjPainting`: everything from `MJ_Painting.js`.

Inputs that come from I/O are parameters:
- the configuration values;
- the cached last task id (`cachedId`);
- the fetched source task (`fetchDetails`);
- the decoded Gemini response (`candidates`);
- the backend's answer to the n-th status fetch (`fetch(n)`).

Behaviours of the code worth knowing:
- The poll loop does not retry transport errors within its budget. A failed
  fetch throws out of `pollTaskResult`, and the handler catches it.
- A composite id is built even when the fetched task has no `messageHash`.
  The template literal then renders `undefined` (`TemplateText`). Only a
  missing `properties` object stops the action, as a thrown TypeError
  (`NoProperties`).
- `get_use_sf_key` stops only on a truthy key. An enabled record whose
  `sf_key` is the empty string is skipped like a disabled one. If nothing
  better turns up, `""` is returned rather than `null` (`Usable`).

## Model

| member | source | states |
|---|---|---|
| `SfKeys.SfKeyCursor.constructor` | apps/SF_Painting.js:44 | a fresh cursor stands at -1 |
| `SfKeys.SfKeyCursor.GetUseSfKey` | apps/SF_Painting.js:49-66 | an empty pool gives null and leaves the cursor unchanged. A non-empty pool leaves the cursor in `[0, len)`. A returned key belongs to an enabled record. With a usable record, the result is the first usable record strictly after the old cursor in circular order, and the cursor ends on it after at most `len` moves. Without one, the cursor makes exactly one full circle and the result is null, or `""` when some record is enabled |
| `SfKeys.Step` | apps/SF_Painting.js:54-57 | one move from a cursor at -1 or above over a non-empty pool lands in `[0, len)` |
| `SfKeys.StepIsPos` | apps/SF_Painting.js:54-57 | one cursor step is "next index, wrapping to 0" and matches the closed-form position after k steps |
| `SfKeys.UsableIsReached` | apps/SF_Painting.js:52-58 | one full circle from any cursor passes every record, so it finds a usable one if there is one |
| `SfKeys.MovesFrom` | apps/SF_Painting.js:52-63 | the number of moves a call makes is the offset of the first usable record |
| `SfKeys.NextCursor` | apps/SF_Painting.js:52-63 | the cursor after a call that finds something lies in range, on a usable record |
| `SfKeys.FirstUsableUnique` | apps/SF_Painting.js:52-63 | the first usable record after the cursor is unique |
| `SfKeys.CallApproaches` | apps/SF_Painting.js:52-63 | for a usable record j, each call either picks j or strictly shortens the circular distance from the cursor to j |
| `SfKeys.PickedWithinPool` | apps/SF_Painting.js:49-66 | fairness: on an unchanged pool, every usable record is picked within `len` calls, whatever the starting cursor |
| `SfKeys.CallsFromFresh` | apps/SF_Painting.js:44-66 | when every record is usable, `len` calls from a fresh cursor return the keys in index order 0..len-1 |
| `SfKeys.TrimAll` | apps/SF_Painting.js:71 | `map(key => key.trim())` keeps the length |
| `SfKeys.TrimAllAt` | apps/SF_Painting.js:71 | `map(key => key.trim())` trims every piece in place |
| `SfKeys.NonEmpty` | apps/SF_Painting.js:71 | `filter(Boolean)` never lengthens the list |
| `SfKeys.NonEmptyMembers` | apps/SF_Painting.js:71 | `filter(Boolean)` keeps exactly the non-empty strings |
| `SfKeys.NonEmptySingleton` | apps/SF_Painting.js:71 | a single piece survives `filter(Boolean)` exactly when it is non-empty |
| `SfKeys.NonEmptyAppend` | apps/SF_Painting.js:71 | `filter(Boolean)` commutes with concatenation, so kept keys keep their order and their repeats |
| `SfKeys.TrimAllAppend` | apps/SF_Painting.js:71 | the trimming map commutes with concatenation |
| `JsStrings.SplitOnCommasAppend` | apps/SF_Painting.js:71 | splitting `a + "," + b` gives the pieces of `a` followed by the pieces of `b` |
| `SfKeys.GgKeyList` | apps/SF_Painting.js:71 | there are never more keys than separators plus one |
| `SfKeys.GgKeyListAppend` | apps/SF_Painting.js:71 | the keys of `a + "," + b` are the keys of `a` followed by the keys of `b`, in order and with repeats kept |
| `SfKeys.TrimAllMember` | apps/SF_Painting.js:71 | a string is among the trimmed pieces exactly when it is the trim of some piece |
| `SfKeys.GgKeyListMembers` | apps/SF_Painting.js:71 | a string is a Gemini key exactly when it is a non-empty trimmed piece of the split |
| `SfKeys.GgKeyListShape` | apps/SF_Painting.js:71 | every Gemini key is non-empty, already trimmed, and contains no `,` or `，` |
| `JsStrings.TrimKeepsNoSeparator` | apps/SF_Painting.js:71 | trimming a string without `,` or `，` cannot bring one in |
| `SfKeys.GgKeyCursor.constructor` | apps/SF_Painting.js:45 | a fresh Gemini cursor stands at 0 |
| `SfKeys.GgKeyCursor.GetUseGgKey` | apps/SF_Painting.js:69-79 | a missing string, or one with no keys, gives `''` and leaves the cursor unchanged. Otherwise the result is the key at the cursor, or undefined when the list has shrunk below the cursor. The cursor becomes `(cursor + 1) % len`, always in `[0, len)` |
| `SfKeys.ModularAdvanceIsStep` | apps/SF_Painting.js:76 | within the key list, the Gemini cursor's `(index + 1) % len` is the same circular step as the `sf_keys` cursor's: the next index, or 0 after the last |
| `SfKeys.GgCallsFromFresh` | apps/SF_Painting.js:45-79 | with an unchanged configuration, the n-th call from a fresh cursor returns key n |
| `JsStrings.SplitOnCommas` | apps/SF_Painting.js:71 | `split(/[,，]/)` gives one more piece than there are separators |
| `JsStrings.PrependChar` | apps/SF_Painting.js:71 | a separator in front of a string adds one piece, and any other character leaves the number of pieces unchanged |
| `JsStrings.PrependCharAppend` | apps/SF_Painting.js:71 | a character in front changes only the first piece, so it commutes with appending pieces behind |
| `JsStrings.SplitPiecesHaveNoSeparator` | apps/SF_Painting.js:71 | no piece of the split contains a `,` or `，` |
| `JsStrings.JoinSplit` | apps/SF_Painting.js:71 | joining the pieces with `,` gives back the input, with every `，` turned into `,` |
| `JsStrings.Trim` | apps/MJ_Painting.js:56 | `trim()` never lengthens the input, and its result neither starts nor ends with whitespace |
| `JsStrings.TrimShape` | apps/MJ_Painting.js:56 | `trim()` removes only whitespace, and only at the two ends |
| `JsStrings.TrimIdempotent` | apps/SF_Painting.js:71 | trimming twice is the same as trimming once |
| `JsStrings.TrimStart` | apps/MJ_Painting.js:56 | the result is a suffix of the input that does not start with whitespace |
| `JsStrings.TrimStartRemovesWhitespace` | apps/MJ_Painting.js:56 | what is cut off at the front is all whitespace |
| `JsStrings.TrimEnd` | apps/MJ_Painting.js:56 | the result is a prefix of the input that does not end with whitespace |
| `JsStrings.TrimEndRemovesWhitespace` | apps/MJ_Painting.js:56 | what is cut off at the end is all whitespace |
| `JsStrings.ReplaceFirst` | apps/SF_Painting.js:507-510 | the result keeps the input's length, or changes it by exactly the replacement's length minus the pattern's |
| `JsStrings.Includes` | apps/MJ_Painting.js:84 | a string can contain only a substring no longer than itself |
| `JsStrings.ReplaceFirstAbsent` | apps/SF_Painting.js:507-510 | `replace` leaves a string without the pattern unchanged |
| `JsStrings.ReplaceFirstPresent` | apps/SF_Painting.js:507-510 | `replace` rewrites exactly the first occurrence of the pattern and keeps the rest |
| `JsStrings.OccursShiftAt` | apps/SF_Painting.js:507-510 | an occurrence in a string's tail sits one position further on in the whole string, and back |
| `SfSources.WebsOf` | apps/SF_Painting.js:504 | the kept chunks are exactly those that have `web`, and the list never grows |
| `SfSources.WebsOfAppend` | apps/SF_Painting.js:504 | the filter commutes with concatenation, so kept chunks keep their relative order |
| `SfSources.ToSourceUrl` | apps/SF_Painting.js:505-511 | a uri that starts with the redirect prefix becomes `https://miao.news` plus the rest. A uri without the prefix is kept unchanged. The title is copied |
| `SfSources.ToSource` | apps/SF_Painting.js:505-511 | the title is copied, and the url keeps the uri's length or changes it by exactly the length difference of the replacement |
| `SfSources.ToSources` | apps/SF_Painting.js:505-511 | the map keeps the length and maps each chunk in place |
| `SfSources.FindIndex` | apps/SF_Painting.js:512 | `findIndex` gives the first position holding the pair, or -1 exactly when no position does |
| `SfSources.FindIndexPrefix` | apps/SF_Painting.js:512 | the first occurrence of a pair does not move when the list is extended |
| `SfSources.KeepFirst` | apps/SF_Painting.js:512 | filtering a prefix of n entries keeps at most n |
| `SfSources.Dedup` | apps/SF_Painting.js:512 | the deduplicated list has no two equal pairs and holds exactly the pairs of its input |
| `SfSources.FindIndexAtMost` | apps/SF_Painting.js:512 | the first occurrence of the pair at position k lies at or before k, so `findIndex` never misses it |
| `SfSources.KeepFirstBound` | apps/SF_Painting.js:512 | every pair the filter keeps from the first n positions first occurs below n |
| `SfSources.KeepFirstOrdered` | apps/SF_Painting.js:512 | the kept pairs come in strictly increasing order of their first occurrences |
| `SfSources.KeepFirstMember` | apps/SF_Painting.js:512 | a pair is kept from the first n positions exactly when it occurs among them |
| `SfSources.KeepFirstShape` | apps/SF_Painting.js:512 | the dedup filter keeps every pair exactly once, ordered by first occurrence |
| `SfSources.ExtractSourcesShape` | apps/SF_Painting.js:502-513 | the source list has no duplicate `(title, url)`. Its entries are exactly the mapped web chunks. Each entry is the first occurrence of its pair, and their order is the order of first occurrences |
| `SfSources.MappedMembers` | apps/SF_Painting.js:503-511 | before the dedup, the mapped list holds exactly the `{title, url}` entries of the web chunks |
| `SfSources.ExtractSources` | apps/SF_Painting.js:502-513 | the source list is empty when the grounding chunks are missing, and it is always duplicate-free |
| `SfSources.JoinTexts` | apps/SF_Painting.js:496-498 | a single part answers with its own text, or `''` without one, and parts without text join to `''` |
| `SfSources.JoinTextsAppend` | apps/SF_Painting.js:496-498 | joining the part texts commutes with concatenation of the parts |
| `SfSources.GeminiReply` | apps/SF_Painting.js:494-520 | sources appear only when the first candidate has parts, and they never contain duplicates |
| `MjPainting.SubmitEndpoint` | apps/MJ_Painting.js:167 | the submit endpoint is always one of the two imagine endpoints |
| `MjPainting.SubmitEndpointChoice` | apps/MJ_Painting.js:167 | the endpoint is `/mj/submit/imagine` exactly when `mj_mode === 'fast'`. Every other mode, unset included, gives `/mj-relax/mj/submit/imagine` |
| `MjPainting.ParseMode` | apps/MJ_Painting.js:84 | the stored mode is `fast` exactly when the command contains 快速, and `slow` otherwise |
| `MjPainting.ModeSelectsEndpoint` | apps/MJ_Painting.js:84 | after a mode command, the fast endpoint is used exactly when the command contains 快速 |
| `MjPainting.BotType` | apps/MJ_Painting.js:99 | `botType` is always MID_JOURNEY or NIJI_JOURNEY |
| `MjPainting.BotTypeChoice` | apps/MJ_Painting.js:99 | `botType` is MID_JOURNEY exactly when the command word is `mjp`, and NIJI_JOURNEY otherwise |
| `MjPainting.NormalizeBaseUrl` | apps/MJ_Painting.js:56-62 | the stored base URL is the trimmed value, or the trimmed value minus one trailing `/`. It is unchanged exactly when the trimmed value does not end in `/` |
| `MjPainting.NormalizedTrailingSlash` | apps/MJ_Painting.js:56-62 | the stored base URL ends in `/` only when the trimmed input ended in `//` |
| `MjPainting.ParseAction` | apps/MJ_Painting.js:224-226 | a recognised action word names its action |
| `MjPainting.ParsePosition` | apps/MJ_Painting.js:224-226 | a recognised quadrant word names its position |
| `MjPainting.ParseWords` | apps/MJ_Painting.js:224-226 | every action word and quadrant word is recognised as what it names |
| `MjPainting.PositionCode` | apps/MJ_Painting.js:243-244 | every quadrant's code is between 1 and 4 |
| `MjPainting.PositionCodeInjective` | apps/MJ_Painting.js:243-244 | the position codes are 1 to 4, and no two quadrants share a code |
| `MjPainting.Digit` | apps/MJ_Painting.js:251 | a one-digit number renders as the single decimal digit that denotes it |
| `MjPainting.CustomId` | apps/MJ_Painting.js:245-252 | every id starts with `MJ::JOB::`. A reroll id ends with the hash and `::SOLO`, and any other id ends with the hash |
| `MjPainting.CustomIdParts` | apps/MJ_Painting.js:245-252 | in every id, the action's first letter (`r`, `u` or `v`) is at index 9 after `MJ::JOB::`. An upsample or variation id puts the position digit right after the action name and `::`, and the hash after `::` at the end |
| `MjPainting.CustomIdInjective` | apps/MJ_Painting.js:245-252 | the id determines the action and the hash, and the position unless the action is a reroll |
| `MjPainting.RerollIgnoresPosition` | apps/MJ_Painting.js:247-248 | the reroll id is `MJ::JOB::reroll::0::` + hash + `::SOLO` for every position |
| `MjPainting.TemplateText` | apps/MJ_Painting.js:248-251 | a template literal renders `undefined` exactly when the value is missing or is itself the text `undefined` |
| `MjPainting.ActionTarget` | apps/MJ_Painting.js:227-232 | the trimmed explicit task id wins when it is non-empty. Otherwise the cached id is used. There is no target exactly when both are empty or missing. A target is never empty |
| `MjPainting.PlanAction` | apps/MJ_Painting.js:227-254 | an id is submitted only after the source task has been fetched and has `properties`. The id is built from the chosen target and that task's `messageHash`. The "no task id" error happens exactly when there is no target. The action succeeds exactly when there is a target, its task is fetched, and the task has `properties`. It fails with "source task missing" exactly when the fetch finds nothing, and with "no properties" exactly when the fetched task lacks them |
| `MjPainting.FirstTerminal` | apps/MJ_Painting.js:199-206 | gives the first response within the budget that is complete (SUCCESS at exactly "100%") or FAILURE. Every earlier response within the budget is neither |
| `MjPainting.FirstTerminalAt` | apps/MJ_Painting.js:199-206 | the first terminal response is the terminal one that follows only non-terminal responses |
| `MjPainting.FirstTerminalFrom` | apps/MJ_Painting.js:199-206 | counting from any fetch on, the first terminal response is the terminal one preceded there only by non-terminal responses |
| `MjPainting.PollTaskResult` | apps/MJ_Painting.js:187-214 | at most 120 fetches are made. If the k-th response is the first terminal one, exactly k+1 fetches are made, and the result is that snapshot if it is complete, null if it is FAILURE. With no terminal response in 120 fetches, the result is null after exactly 120 fetches. A returned snapshot is always complete, and it is the last one fetched |

## Left out

- All HTTP requests and JSON decoding. Responses are inputs: `fetch`, `fetchDetails`, `candidates`. This covers image generation, chat, translation, submit and the action call.
- Thrown errors. A failed `fetch` or a JSON parse error inside `pollTaskResult`, and the error `fetchTaskDetails` throws on a non-OK response (apps/MJ_Painting.js:283-285), escape to the handlers' catch blocks (apps/MJ_Painting.js:126-129, 268-271). This is also why the Gemini "call failed" answer is not modelled.
- The 5-second wait between polls. Only the number of fetches is modelled.
- The Redis last-task-id cache and its 7-day expiry. The cached id is an input (`cachedId`).
- Loading and saving the configuration (`Config.getConfig`, `setConfig`). The configured values are parameters.
- Reply texts, forward messages, images and markdown screenshots. The image and parameter helpers are not part of this model.
- The inference-time formatting. It is floating point.
- Command regex routing, permission checks and the plugin lifecycle. The LLM system-prompt texts are also omitted. The command words captured by the regexes are inputs (`ParseAction`, `ParsePosition`, `BotType`).
- Concurrent callers sharing a cursor. Each call is atomic in the model, as it is between the awaits of the single-threaded plugin.
- `SfKeys.SfKeyCursor.GetUseSfKey`: `sf_key` values that are not strings, for example a record written into the configuration by hand without `sf_key`, are not represented. Keys are strings, and only the empty string is falsy.
- `SfKeys.GgKeyCursor.GetUseGgKey`: a configured `ggKey` that is not a string is not represented. Neither is JavaScript's ToString of a non-integer cursor, which cannot arise from the code.
