# globvar request handler — a Dafny model

The service keeps global variables in an in-memory key-value store
(`MemoryDb`). Clients talk to it over a named pipe. A client writes one
line holding its reply path, which is a FIFO under `/tmp/globvar-…`, then
a verb and its arguments. The service answers by writing lines to that
reply path. This project models the deterministic heart of the service,
`HandleRequest` in `Program.cs`, together with the filter that decides which
lines it is handed. It has three parts.

- **Framing** (module `Framing`). A line may hold several requests run
  together. It is split on the reply-path prefix `"/tmp/globvar-"` (the
  *anchor*), empty fragments are dropped, and the anchor is put back in
  front of every fragment. `FrameRequests` keeps the source's in-place
  rewrite of the fragment array.
- **Tokenising** (modules `Text` and `Framing`). Each sub-request is
  trimmed and cut at every white-space character, which is .NET's
  `String.Split()`. Empty words are kept. The model writes out
  `Char.IsWhiteSpace`, `Trim`, `Split()` and `Split(string,
  RemoveEmptyEntries)` as Dafny functions.
- **Dispatching** (module `Commands`). The second word picks one of ten
  verbs. Each verb checks its word count, makes at most one store call and
  writes its reply lines. The function `Decide` states what each
  sub-request asks for. The methods `Dispatch`, `Get`, `Set`, `LoadKey`
  and the rest run the switch against a store object and an output
  writer, and they are proved to do what `Decide`, `CallsOf` and `LinesOf`
  say.

The whole handler is `Server.HandleRequest`. It is a loop over the framed
sub-requests that stops the whole line at the source's early `return`. It
is proved equal to `Server.Serve`, a left fold of `Server.Step` over the
sub-requests. `Server.Ingest` is the read loop's filter.

The store is a library that is not shown here, so nothing is assumed about
it. `Store.MemoryDb` records every call in `trace`. Every reply is an
arbitrary function, an `Oracle` field, of the calls made before it and of
the call itself. The output pipe is `Output.Writer`, whose `lines` grow by
one per `WriteLine`. `File.Exists` is a parameter `fileExists`.

The model follows the code as written, including these quirks:

- The anchor is put back in front of **every** fragment, the first one
  included (Program.cs:142-145). A line that does not start with the anchor
  therefore gets one prepended. A line without the anchor is not one
  sub-request left as it is.
- `Split()` keeps empty words (Program.cs:150). Two spaces in a row make an
  empty word, and empty words count toward the argument checks
  (`Framing.DoubleSpaceEmptyWord`, `Server.DoubleSpaceBeforeVerb`).
- `loadall` accepts `"true"` and `"falase"`, not `"false"`
  (Program.cs:316). `"false"` is refused with the override error
  (`Commands.OverrideTokens`). The model keeps the spelling as written.
- The action list written for a one-word request and for an unknown verb
  has twelve lines, and the two copies are identical
  (`Commands.UsageTextsAgree`).
- With two or more words the reply path is opened without a `File.Exists`
  check (Program.cs:190). A path that does not exist makes the open throw
  before the switch, so nothing is written, the store is not called and the
  rest of the line is abandoned (`Server.MissingPathEndsLine`). Unlike the
  one-word `return`, the exception escapes the thread-pool work item, and
  that ends the whole process, so no later line is served either. The
  model stops at the end of the line.
- A sub-request always has at least one word, so the `words.Length == 0`
  return (Program.cs:156-157) can never be taken
  (`Framing.SubRequestHasPath`). That branch is not part of `Step` or
  `HandleSubRequest`.

## Model

| member | source | states |
|---|---|---|
| Text.TrimStart | Program.cs:150 | The result is a suffix of the input. Every character removed is white space. The result is empty or starts with a non-white character. |
| Text.TrimEnd | Program.cs:150 | The result is a prefix of the input. Every character removed is white space. The result is empty or ends with a non-white character. |
| Text.Trim | Program.cs:150 | `Trim()` leaves a string that is empty or starts and ends with a non-white character. It is empty exactly when the input has no non-white character. |
| Text.TrimTrailingSpace | Program.cs:247-252 | Trimming a string with one space appended gives the same result as trimming the string. |
| Text.SplitWhite | Program.cs:150 | `Split()` always yields at least one word, and no word contains white space. |
| Text.SplitWhiteJoin | Program.cs:150 | Joining the words of `Split()` with single spaces gives back the input, with every white-space character replaced by a space. Nothing is lost. |
| Text.SplitWhiteCut | Program.cs:150 | `Split()` of a white-space-free word, one white-space character and a rest is that word followed by `Split()` of the rest. |
| Text.SplitWhiteSingle | Program.cs:150 | A string without white space is a single word. |
| Text.Find | Program.cs:140 | The result is the first index at which the separator occurs, or none when it does not occur at all. |
| Text.SplitOn | Program.cs:140 | `Split(separator)` always yields at least one piece. |
| Text.SplitOnJoin | Program.cs:140 | Joining the pieces of `Split(separator)` with the separator gives back the input. |
| Text.SplitOnPiecesFree | Program.cs:140 | No piece of `Split(separator)` contains the separator. |
| Framing.NonEmpty | Program.cs:140 | `RemoveEmptyEntries` keeps only non-empty pieces, and every non-empty value of the input appears in the result. There are never more pieces than the input has. |
| Framing.NonEmptyCounts | Program.cs:140 | `RemoveEmptyEntries` keeps every non-empty piece as many times as it occurs and drops every empty one: the result has the input's multiset of pieces with the empty string removed, so its length is the input's length minus the number of empty pieces. |
| Framing.NonEmptyAppend | Program.cs:140 | `RemoveEmptyEntries` of two piece lists joined is the two results joined, so the kept pieces stay in their input order. |
| Framing.NonEmptyCons | Program.cs:140 | The first piece is kept, ahead of the rest, exactly when it is non-empty. |
| Framing.Fragments | Program.cs:140 | The values among the fragments of a line are exactly the non-empty pieces of the line split on the anchor, and there are no more fragments than pieces. |
| Framing.FragmentCount | Program.cs:140-145 | A line has as many fragments, and so as many sub-requests, as its split on the anchor has non-empty pieces. |
| Framing.Frame | Program.cs:140-145 | There is one sub-request per fragment, and each one is the anchor followed by at least one more character. |
| Framing.NonEmptyKeepsAll | Program.cs:140 | `RemoveEmptyEntries` changes nothing when every piece is non-empty. |
| Framing.FrameRequests | Program.cs:140-145 | There is one sub-request per non-empty fragment of the line split on the anchor. Sub-request i is the anchor followed by fragment i, so every sub-request starts with the anchor. The method agrees with the function `Frame`. |
| Framing.FrameRoundTrip | Program.cs:140-145 | Take a line that starts with the anchor, never has two anchors back to back, and does not end with one. Concatenating its sub-requests in order gives back the line. |
| Framing.FragmentsAnchorFree | Program.cs:140 | No fragment contains the anchor, so each sub-request holds the anchor only at its start. |
| Framing.FrameOfConcatenation | Program.cs:140-145 | Write non-empty, anchor-free requests one after another, each behind the anchor. Framing the result gives back exactly those sub-requests, in order. |
| Framing.TwoRequestsOneLine | Program.cs:140-145 | Two requests run together on one line are framed into exactly those two sub-requests. |
| Framing.Words | Program.cs:150 | `input.Trim().Split()` always yields at least one word. |
| Framing.SubRequestHasPath | Program.cs:144-157 | A framed sub-request has a first word, and that word starts with the anchor. |
| Framing.SplitDoubleSpace | Program.cs:150 | `Split()` of path, two spaces, verb, a space and key is four words, the second one empty. |
| Framing.SplitTwoWords | Program.cs:150 | `Split()` of two white-space-free words with one space between them is those two words. |
| Framing.SplitWhiteLead | Program.cs:150 | `Split()` of a string that starts with a white-space character has an empty first word, followed by the words of the rest. |
| Framing.DoubleSpaceEmptyWord | Program.cs:150 | Two spaces between the path and the verb make the empty string the second word, and the verb becomes the third word. |
| Store.Answer | Program.cs:205-338 | `Select` gets an item, `ListDir` and `ListAll` get a list of records, and `Save`, `Load`, `LoadAll` and `Purge` get a status. Each holds both ways. |
| Store.MemoryDb.constructor | Program.cs:72 | A new store has received no calls yet. |
| Store.MemoryDb.Select | Program.cs:205 | The call is appended to the store's history, and the returned item is the store's answer to it given the earlier calls. |
| Store.MemoryDb.ListDir | Program.cs:217 | The call is appended to the history, and the list is the store's answer. |
| Store.MemoryDb.ListAll | Program.cs:226 | The call is appended to the history, and the list is the store's answer. |
| Store.MemoryDb.Add | Program.cs:242-253 | The call, with a null value for a delete, is appended to the history. |
| Store.MemoryDb.RemoveAll | Program.cs:259 | The call is appended to the history. |
| Store.MemoryDb.RemoveDir | Program.cs:269 | The call is appended to the history. |
| Store.MemoryDb.Save | Program.cs:280 | The call is appended to the history, and the status is the store's answer. |
| Store.MemoryDb.Load | Program.cs:301 | The call is appended to the history, and the status is the store's answer. |
| Store.MemoryDb.LoadAll | Program.cs:323 | The call is appended to the history, and the status is the store's answer. |
| Store.MemoryDb.Purge | Program.cs:338 | The call is appended to the history, and the status is the store's answer. |
| Output.Writer.WriteLine | Program.cs:201 | The line is appended to what the output path has received. |
| Output.Writer.WriteAll | Program.cs:172-183 | The lines are appended in order. |
| Commands.BuildValue | Program.cs:247-252 | The `value +=` loop followed by `Trim()` yields words 4 onwards, joined by single spaces and trimmed. |
| Commands.LoadOverride | Program.cs:294 | `load` accepts exactly the tokens `"true"` and `"false"`, and an accepted token spells the override it gives. |
| Commands.LoadAllOverride | Program.cs:316 | `loadall` accepts exactly the tokens `"true"` and `"falase"`, and an accepted token spells the override it gives. |
| Commands.Decide | Program.cs:196-362 | The switch with its guards: a store call is made with fewer than three words only for `getall` and `delall`, and `load` calls the store only with four words or more. |
| Commands.Respond | Program.cs:205-346 | A `get` writes at most one line. A listing writes one line per record the store returned. Every other call writes exactly one line. |
| Commands.LinesOf | Program.cs:196-362 | An unknown verb writes the twelve-line action list, a refused sub-request writes exactly its error line, and every store call other than a query writes exactly one line. |
| Commands.SpacedJoin | Program.cs:247-252 | Each word followed by one space is the words joined by spaces, plus one trailing space. |
| Commands.WriteRecords | Program.cs:218-221 | One line `key value` per record, in the store's order. |
| Commands.WriteStatus | Program.cs:281-284 | Exactly one line: the success text and the store's message when the status is true, and the failure text and the message otherwise. |
| Commands.Get | Program.cs:198-209 | `get` makes exactly the store calls and writes exactly the lines that `Decide` prescribes. |
| Commands.GetDir | Program.cs:210-223 | The same, for `getdir`. |
| Commands.GetAll | Program.cs:224-232 | The same, for `getall`. |
| Commands.Set | Program.cs:233-257 | The same, for `set`. |
| Commands.DelAll | Program.cs:258-261 | The same, for `delall`. |
| Commands.DelDir | Program.cs:262-272 | The same, for `deldir`. |
| Commands.SaveKey | Program.cs:273-286 | The same, for `save`. |
| Commands.LoadKey | Program.cs:287-308 | The same, for `load`. |
| Commands.LoadEvery | Program.cs:309-330 | The same, for `loadall`. |
| Commands.PurgeKey | Program.cs:331-348 | The same, for `purge`. |
| Commands.Dispatch | Program.cs:196-363 | The whole switch appends exactly the calls `CallsOf(Decide(words))` to the store's history. It writes exactly the lines `LinesOf`, answered by the store given the history before the call. |
| Commands.UsageTextsAgree | Program.cs:350-361 | The unknown-verb action list is line for line the one-word list of Program.cs:172-183, and it has twelve lines. |
| Commands.DecideKinds | Program.cs:196-349 | A sub-request gets the action list exactly when its second word is none of the ten verbs. Only `getall` and `delall` run with fewer than three words. |
| Commands.UnknownVerb | Program.cs:349-362 | An unknown verb makes no store call and writes exactly the one-word action list. |
| Commands.EmptyVerbIsUsage | Program.cs:349-362 | An empty second word is an unknown verb. |
| Commands.ArgumentGuards | Program.cs:199-334 | Each verb whose word count is too short writes its one ERROR line, with the exact text of each guard, and makes no store call. |
| Commands.RejectedExactly | Program.cs:199-334 | A sub-request is refused exactly when its verb's word count is too short or its override token is not one its verb accepts. |
| Commands.AtMostOneCall | Program.cs:196-362 | One store call is made exactly for a known verb that passes its guards, and none otherwise. |
| Commands.RejectWritesError | Program.cs:199-334 | A refused sub-request writes one line, and that line is one of the five guard errors. |
| Commands.DecideSet | Program.cs:240-255 | `set` with three words asks to add the key with no value. With more words, it adds the key with the joined value. |
| Commands.SetWithoutValue | Program.cs:240-244 | `set key` calls `Add(key, null)` and writes `Variable (key) is deleted`. |
| Commands.SetWithValue | Program.cs:245-255 | `set key v1 v2 ...` calls `Add` with words 4 onwards joined by single spaces and trimmed, and it writes `Variable is added: key -> value`. |
| Commands.AddedLine | Program.cs:254 | The line written after adding a value names the key and the value. |
| Commands.OverrideTokens | Program.cs:294-319 | `load` runs with override true exactly on `"true"`, with false exactly on `"false"`, and refuses every other token. `loadall` does the same with `"true"` and `"falase"`, so `"false"` writes the override error and makes no call. |
| Commands.StatusReports | Program.cs:280-346 | `save`, `load`, `loadall` and `purge` write `<Op> is done: <message>` on a true status, and `ERROR: <Op> is failed: <message>` otherwise. |
| Commands.GetLines | Program.cs:205-207 | `get key` makes one `Select` call. It writes `key value` when the item has a value, and nothing otherwise. |
| Server.HandleSubRequest | Program.cs:147-370 | One turn of the `foreach` ends the line, when the path is missing, or writes one response, and makes the calls that `Step` prescribes. |
| Server.Step | Program.cs:147-370 | One sub-request only appends: at most one store call and at most one response. The line stops exactly when it had stopped already or the sub-request's path does not exist. |
| Server.Serve | Program.cs:147-370 | A line only appends to the store's history, with at most one call and at most one response per sub-request. |
| Server.HandleRequest | Program.cs:135-372 | The responses delivered, in order, and the store calls made, in order, are those of the fold `Serve` over the framed line. |
| Server.StopIsFinal | Program.cs:157-164 | Once the line has stopped, later sub-requests change nothing: no response and no store call. |
| Server.ServeNext | Program.cs:147 | Sub-requests are handled in order, one `Step` each. |
| Server.StepOneWord | Program.cs:159-186 | A one-word sub-request writes the action list to its path when the path exists, and otherwise stops the line. |
| Server.MissingPathEndsLine | Program.cs:159-191 | A sub-request whose path does not exist writes nothing and ends the whole line: with one word the handler returns, with more the open throws. The outcome is what the earlier sub-requests left, marked stopped. |
| Server.StepMissingPath | Program.cs:159-191 | A sub-request whose path does not exist ends the line and changes nothing else. |
| Server.OneWordUsage | Program.cs:159-186 | On a line that has not stopped, a one-word sub-request whose path exists gets exactly the twelve-line action list at that path and makes no store call. |
| Server.StepSendsToFirstWord | Program.cs:169-191 | A sub-request's response goes to the path that is its first word. |
| Server.ResponsesGoToAnchoredPaths | Program.cs:142-191 | When every sub-request starts with the anchor, every response goes to a path that starts with the anchor. |
| Server.LineResponsesGoToAnchoredPaths | Program.cs:140-191 | Every response of `HandleRequest` goes to a path that starts with the anchor. |
| Server.DoubleSpaceBeforeVerb | Program.cs:150-196 | `path  verb key`, with two spaces, makes the empty word the verb, so the action list is written and the verb is not run. |
| Server.Admitted | Program.cs:128-131 | No more lines are handed over than were read. |
| Server.Admit | Program.cs:128 | A line is handed over exactly when it was read and has a non-white character, so the empty-string test adds nothing to the white-space test. |
| Server.Ingest | Program.cs:116-132 | The read loop hands over exactly the admitted lines, in the order they were read. |
| Server.AdmittedExactly | Program.cs:128-131 | A string is handed over exactly when it was read, not null, and has a non-white character. Such a line is handed over unchanged. |

## Left out

- Reading the configuration, setting up the logger, and all log calls (Program.cs:44-62 and throughout) are left out. They are I/O with no effect on replies.
- Creating the FIFO by running `/usr/bin/mkfifo` (Program.cs:89-111) is left out. It is an external process.
- Opening and closing the input FIFO and the reply paths (Program.cs:118-124, 169-170, 190-191, 365-366) are left out. A reply is a `Delivery` of the lines written between open and close. An open that throws (Program.cs:190) is modelled as ending the line. The exception escapes the thread-pool work item and ends the .NET process, so no later line is served: that crash is not modelled.
- `ThreadPool.QueueUserWorkItem` (Program.cs:130) is left out. Each line is handled by one sequential `HandleRequest`. Concurrent handlers and their interleaving on the shared store are not modelled.
- `File.Exists` (Program.cs:161), and whether the open of Program.cs:190 finds the path, are the parameter `fileExists`, fixed for the whole line. Files appearing or disappearing while a line is handled are not modelled.
- `Stopwatch` timing (Program.cs:152-153, 368-369) is left out. It is wall-clock time and only logged.
- The internals of `MemoryDb` are left out, because it is a foreign library. Its replies are arbitrary functions of the call history, so no set-then-get round trip is claimed.
- Server.Ingest: the `while(true)` loop of `Main` (Program.cs:116-132) is modelled over a finite sequence of lines read so far. A null read (end of stream) is `None`.
- A null key or null status message interpolates as empty text, so the model keeps keys and messages as strings. Only a null value (Program.cs:206) is told apart, as `None`.
- The `words.Length == 0` return (Program.cs:156-157) is not modelled as a branch, because `Split()` never returns an empty array (`Framing.SubRequestHasPath`).
- The start-up of the store (Program.cs:64-83) is left out: the database-file checks and the initial `LoadAll(true)`. The model's store starts with an empty history, and the oracle's answers may reflect whatever was loaded.
