# Verified model of the GSM/PPPoS library, the captive DNS server and the selection widget

A Dafny 4.11 model of the three parts of the repository that carry real logic, with proofs of what
they are for. `dafny verify dfyconfig.toml` checks everything.

**The connection manager** (`components/pppos/libGSM.c`). A client task, the PPP status callback and
one controlling thread share a few mutex-protected globals. `ConnectionManager` models them as a state
machine with program counters: `ClientStep` is the client task (487-717), `CallbackStep` the status
callback (186-296), `InitStep` and `DisconnectStep` are `ppposInit` and `ppposDisconnect` (720-787).
A run is a schedule, that is, any sequence of actions, each one critical section, one call into the
PPP stack or one exchange with the modem; what the modem and the PPP stack answer is part of the
action. Every run also yields the log of events that an observer would see. `ConnectionSafety` has the
inductive invariant, `ConnectionTheorems` what follows for all runs, and `ConnectionRuns` what can and
cannot happen from a given point of a run on, `ConnectionWaits` where the user's calls can no longer
return, and `ConnectionLoop` how the initialization loop behaves within a run.

**The algorithms of the same file.** `InitLoop` is the initialization loop with its skip flags and
failure budget; `ResponseReader` the two forms of reading a reply; `SmsListing`, `SmsRoundTrip` and
`SmsRead` parse, print and sort the modem's SMS listing, from the bytes that the modem delivers on;
`ByteCounters` has the two traffic counters. `CStrings` has C strings in memory and `strstr`.

**The captive DNS server** (`main/captdns.c`). `DnsNames` has the name decoder and encoder and, beside
them, names as sections 3.1 and 4.1.4 of RFC 1035 define them (`Expand`, `NameEnd`, `Wire`). `DnsReply`
has the request handler, and `DnsRoundTrip` an independent parser of section 4.1 of RFC 1035 (`Parse`)
that reads the replies. `DnsLimits` tells which replies fit, and `DnsTermination` when the decoder ends.
URI records follow section 4.5 of RFC 7553.

**The selection widget** (`html/bootstrap-multiselect.js`). `Multiselect.List` has the flat list of
rows, the options they mirror, the filter pass and all operations that change a selection.

Code that changes state in place is written as methods over arrays and objects, each proved against a
function or predicate of its inputs or old state; the laws are then proved of those functions. The
connection manager is a relation between states, because what matters there is the interleaving.

## What the environment is assumed to do

- One thread calls `ppposInit` and `ppposDisconnect`, one call at a time, and the mutex exists and is
  always obtained: the code ignores the result of `xSemaphoreTake`.
- The PPP stack reports a link up only while it is opening one, between `pppapi_connect` and
  `pppapi_close`, and reports an end only of a link that is not dead, which is dead after it. Closing a
  dead link may or may not be reported, before the call returns. Error codes other than PPPERR_USER and
  PPPERR_CONNECT end the link without changing the status.
- The modem answers anything at any time.
- The widget is in multiple mode with clickable option groups. Values of options are distinct, and
  differ from those of the headers and of the select-all row; there are no dividers.

## What the proofs brought to light

Where a property one would expect does not hold of the code, the model keeps the code, a lemma shows an
input, and another one proves the condition under which the property holds.

- `ppposDisconnect` finding the status IDLE returns at once (libGSM.c:764). The header takes that for
  "already disconnected", but a client that restarts a lost session is IDLE too, and connects again
  although nobody calls `ppposInit` (`ImmediateReturnStopsNothing`). It does not, if and only if the task
  is over or ending, or awaits `ppposInit`, or serves a link that ended while it was being opened
  (`ImmediateReturnExactly`); so it does not if a disconnect has finished since the last `ppposInit`
  (`FinishedStays`). Calls that post a request always stop the client (`QuietAfterDisconnect`).
- Errors such as PPPERR_PEERDEAD end the link but leave the status alone (libGSM.c:252-293). After such an
  error `ppposInit` can return 1 for a dead link (`InitReturnsOnDeadLink`, `InitReturnsExactly`); if it
  comes while the link is being opened, `ppposInit` never returns (`InitHangs`), and everywhere else a
  waiting `ppposInit` can return (`InitWaitsForever`).
- A task that fails in its setup can end before the `ppposInit` that started it looks; the call then waits
  for a start that is over (`InitMissesTask`, `InitWaitsInVain`).
- A `ppposDisconnect` after the end of the task finds the status FIRSTINIT, posts a request that nobody
  takes, and never returns (`CallHangs`). Neither does one whose client waits for a dead link to be
  reported down (`CallHangsOnDeadLink`), or whose request was carried out before it looked; everywhere else
  a call that has posted its request can return (`CallWaitsForever`).
- The pointer `ppp` survives the task run that created it. A later run that ends before its own
  `pppapi_pppos_create` frees it again (`StaleBlockFreed`, `FreedBlockIsLive`).
- An SMS text field that ends in a comma is cut, and the fields after it move (`CommaLost`,
  `FieldsSurvive`). Fields of 31 characters do not fit either, except the time, which is last.
- A NUL in the listing ends it for all string functions: the message that contains it and all later ones
  are lost (`NulCuts`, `ListingRoundTrip`).
- If enlarging the response buffer fails after it has succeeded before, and in no other case, the caller is
  left with a buffer that `realloc` has already given back (`Collect`, `BufferLost`).
- Sorting in descending order starts its search at 0, so messages with negative times are lost
  (`NegativeTimeLost`, `SortIsStable`).
- Messages are stored by position and counted by success. That is harmless: only the last message of a
  listing can fail to parse (`CutOffIsLast`).
- The decoder gets text and end of a name right exactly if the name is not the root and has at most one
  pointer (`DecodedExactly`, `RootMisread`, `TwoHopsMisplace`), and the text re-encodes to the same bytes
  exactly if no label contains a dot or a NUL (`RoundTripIffClean`, `DotSplits`). It does not end exactly
  if its loop comes to the same position with the same amount of text twice (`SpinsExactly`): at a reserved
  length byte, a pointer to itself or two pointers to each other, for example (`ReservedNotPassed`,
  `SelfPointerSpins`, `TwoPointersSpin`).
- The encoder does not look at the room that is left. A proper query is answered exactly if request and
  records together have at most 512 bytes; otherwise the handler leaves its reply buffer
  (`AnsweredExactly`). One A question for a name of 255 bytes is enough (`LongNameOverruns`).
- The decoder looks at one byte behind the packet (`EndsBehind`), and stops moving once the text fills its
  buffer (`FullStays`).
- NS and URI answers leave the low half of the TTL to what the reply buffer held before.
- A failed `uart_write_bytes` returns -1, which counts as 2^32 - 1 bytes (`Conservation`,
  `FailedWriteCounts`). `rx` counts what is written to the modem, `tx` what is read from it.
- The widget's `selectAll` takes the text in the search box for the value of a row
  (`SearchTextSelects`, `SetAll`). Unchecking a header none of whose rows takes part leaves it out of
  step with the rule by which headers are computed otherwise (`HeaderOutOfStep`, `ChangeGroup`).

## Model

| member | source | states |
|---|---|---|
| ConnectionSafety.StepKeeps | components/pppos/libGSM.c:487-787 | Every atomic step of the client, the callback or the user, whatever the modem and the PPP stack do, keeps the invariant, and the event it emits has the past that the design requires of it; what its branches lead to is stated by the theorems about runs below. |
| ConnectionSafety.RunKeeps | components/pppos/libGSM.c:186-787 | By induction, every reachable state satisfies the invariant and every event of every run is justified by the events before it. |
| ConnectionTheorems.ConnectGated | components/pppos/libGSM.c:535-609 | In every run, each `pppapi_connect` is preceded, since the task started or the link was last closed, by the acceptance of exactly all nine init commands, each once and in table order, on the first start and on both restart paths. |
| ConnectionLoop.LoopInRuns | components/pppos/libGSM.c:544-579 | In every run, whatever the other actors do in between: while the client is in the loop, at most 20 replies have been rejected and what is pending are the commands pending at its entry without as many as were accepted; it leaves to end the task at exactly the 21st rejected reply, and to open the link after exactly the pending commands were accepted with at most 20 rejections before. |
| ConnectionLoop.LoopEntered | components/pppos/libGSM.c:535-545 | Whenever the client enters the loop, on the first start and on both restart paths, it is at the first command, with no failures and all nine commands pending. |
| ConnectionLoop.TwentyOneRejected | components/pppos/libGSM.c:565 | With the 21st rejected reply the client is on its way out, and a waiting `ppposInit` has a run to its return with 0. |
| ConnectionLoop.GivenUp | components/pppos/libGSM.c:705-717 | From there on, as after a failed setup or a request to end, no continuation connects, comes up or has `ppposInit` return 1 before a task is started. |
| ConnectionLoop.ExitReturnsZero | components/pppos/libGSM.c:705-751 | A task that is on its way out ends, after freeing the pointer if there is one, and a waiting `ppposInit` returns 0. |
| ConnectionLoop.ModemSilent | components/pppos/libGSM.c:556-565 | There is a run with a modem that never answers as expected: nothing is accepted, created or opened, the task ends and `ppposInit` returns 0. |
| ConnectionLoop.CreationFails | components/pppos/libGSM.c:589-597 | There is a run in which the control block cannot be created: nothing is opened or freed and `ppposInit` returns 0. |
| ConnectionLoop.MutexFails | components/pppos/libGSM.c:729-730 | There is a run in which the mutex cannot be created: `ppposInit` returns 0 without having started a task. |
| ConnectionTheorems.HungUpFirst | components/pppos/libGSM.c:527 | In a run of the task no command is accepted before the modem was hung up and its radio switched off in that run. |
| ConnectionTheorems.RequestFirst | components/pppos/libGSM.c:612-618 | In every run, a serving client that looks and finds a request takes it, even if the link is lost, and ends later just if the request was -1. |
| ConnectionTheorems.DisconnectHandshake | components/pppos/libGSM.c:612-673 | When a `ppposDisconnect` that posted a request returns, the client has since taken that request, called `pppapi_close`, seen DISCONNECTED, hung up with the `rfoff` of this call and set IDLE, in this order with no other action of its own in between, and has not connected since. |
| ConnectionTheorems.QuietAfterDisconnect | components/pppos/libGSM.c:651-673 | After such a return, a later connect is preceded by a new call of `ppposInit`; if the request was to end the task, also by the start of a new task. |
| ConnectionTheorems.InitObservesGatedSession | components/pppos/libGSM.c:745-754 | When `ppposInit` returns 1, the session it saw was opened after a complete in-order initialization, came up after that, and up to the return was neither closed by the client nor reported down with PPPERR_USER or PPPERR_CONNECT. |
| ConnectionTheorems.LinkUpExactly | components/pppos/libGSM.c:191-251 | In every run the link is up exactly if it has come up and nothing has ended it since: no start of the task, no closing, no report of its end, no other error. |
| ConnectionTheorems.ConnectedExactly | components/pppos/libGSM.c:252-293 | While the status is CONNECTED and the client is not closing, there is a gated session, and its link is really up if and only if no error other than PPPERR_USER and PPPERR_CONNECT was reported since it came up. |
| ConnectionTheorems.InitReturnsExactly | components/pppos/libGSM.c:745-754 | The same at the moment `ppposInit` returns 1. |
| ConnectionTheorems.InitReturnsZero | components/pppos/libGSM.c:728-751 | When `ppposInit` returns 0, every task that was started has ended. |
| ConnectionTheorems.InitReturnsWhat | components/pppos/libGSM.c:745-754 | A `ppposInit` that waits for the connection next returns 0 if and only if no task runs, 1 if and only if one runs and the status is CONNECTED, and else goes on waiting. |
| ConnectionRuns.InitReturnsOnDeadLink | components/pppos/libGSM.c:265-270 | There is a run in which `ppposInit` returns 1 for a link that is dead. |
| ConnectionWaits.InitWaitsForever | components/pppos/libGSM.c:745-752 | A waiting `ppposInit` is left waiting in all continuations if and only if the link has ended without a status change while it was being opened; then no actor can change anything any more. |
| ConnectionWaits.InitHangs | components/pppos/libGSM.c:745-752 | There is such a run. |
| ConnectionWaits.InitWaitsInVain | components/pppos/libGSM.c:736-752 | The whole wait of `ppposInit`, for the task and for the connection, can no longer end if and only if the task has ended before it was seen to run, or the link has ended while it was being opened. |
| ConnectionWaits.InitMissesTask | components/pppos/libGSM.c:737-742 | There is a run in which the task fails in its setup and ends before the call looks, and no continuation lets it return. |
| ConnectionWaits.CallWaitsForever | components/pppos/libGSM.c:775-786 | A disconnect call that has posted its request is left waiting in all continuations if and only if the task is over or ending before it took the request, or has carried it out before the call saw it taken, or waits for a dead link to be reported down. |
| ConnectionWaits.CallHangs | components/pppos/libGSM.c:758-780 | There is a run in which the call is made after the end of the task and no continuation lets it return. |
| ConnectionWaits.CallHangsOnDeadLink | components/pppos/libGSM.c:624-639 | There is one in which the client waits for a link to go down that has ended before with another error. |
| ConnectionWaits.InitCanReturn | components/pppos/libGSM.c:745-754 | From every reachable state in which `ppposInit` waits and the link has not so ended, a run leads to its return. |
| ConnectionWaits.CallCanReturn | components/pppos/libGSM.c:614-658 | From every reachable state in which a posted call waits and is not so forsaken, a run leads to its return. |
| ConnectionTheorems.UpAfterConnect | components/pppos/libGSM.c:205-207 | CONNECTED is only ever set for a link that the client opened and has not closed since. |
| ConnectionTheorems.StatusSafety | components/pppos/libGSM.c:186-251 | In any interleaving `gsm_status` changes only FIRSTINIT to IDLE, IDLE to CONNECTED or DISCONNECTED, CONNECTED to DISCONNECTED, DISCONNECTED to IDLE, and IDLE to FIRSTINIT at the end of the task; while it is CONNECTED, the control block exists and the task runs. |
| ConnectionTheorems.StepStatus | components/pppos/libGSM.c:532 | CONNECTED is set only by the callback for a link that is being opened; DISCONNECTED by the callback for a link that is not dead, or within the client's closing of a dead link; IDLE only where the client sets it, FIRSTINIT only at its end. The user's calls never change the status. |
| ConnectionTheorems.OneBlockPerRun | components/pppos/libGSM.c:586-598 | Between two creations of a control block a new task has started: a task run creates at most one, however often it re-initializes. |
| ConnectionTheorems.BlockIsFreed | components/pppos/libGSM.c:705-717 | Every control block that a task creates is freed, as a live block, between its creation and the end of that task. |
| ConnectionTheorems.OneFreePerRun | components/pppos/libGSM.c:707 | Between two frees a new task has started. |
| ConnectionTheorems.FreedBlockIsLive | components/pppos/libGSM.c:707 | The pointer that an ending task passes to `ppp_free` is that of a live block if and only if this same task run created it. |
| ConnectionRuns.StaleBlockFreed | components/pppos/libGSM.c:502-504 | There is a run whose second task fails in its setup and frees the pointer that the first one has left behind. |
| ConnectionRuns.ImmediateReturnExactly | components/pppos/libGSM.c:758-764 | After a disconnect call that found IDLE, no continuation of the run connects before `ppposInit` is called if and only if the client is stopped: the task is over or ending, or awaits `ppposInit`, or its link has ended while it was being opened. |
| ConnectionRuns.IdleExactly | components/pppos/libGSM.c:612-689 | The same at any point of any run where the user is free and the status is IDLE. |
| ConnectionRuns.FinishedStays | components/pppos/libGSM.c:653-667 | If a disconnect has finished and `ppposInit` has not been called since, which the caller knows, then after an immediate return no continuation connects before `ppposInit` is called. |
| ConnectionRuns.StaysLong | components/pppos/libGSM.c:660-667 | A stopped client with an idle status stays stopped in every continuation, up to the next `ppposInit`. |
| ConnectionRuns.ConnectsAgain | components/pppos/libGSM.c:676-689 | From every reachable idle state in which the client is not stopped, a run leads to a new connect without `ppposInit`. |
| ConnectionRuns.ImmediateReturnStopsNothing | components/pppos/libGSM.c:758-764 | There is a run in which `ppposDisconnect` returns at once and the client connects afterwards although `ppposInit` is not called. |
| ConnectionRuns.Reconnects | components/pppos/libGSM.c:544-609 | From any reachable state in which the client, not for the first time, is anywhere in the initialization loop, a run leads to a new connect without any call of the user. |
| ConnectionTheorems.AcceptedMeaning | components/pppos/libGSM.c:544-579 | What the invariant records as accepted is what the log says: since the last start or close exactly the first n commands, in order. |
| ConnectionTheorems.ShakeMeaning | components/pppos/libGSM.c:624-656 | What the invariant records of the handshake is the contiguous stretch of the client's own events in the log from taking the last posted request on. |
| ConnectionTheorems.CreatedMeaning | components/pppos/libGSM.c:589-590 | A block counts as created if and only if the log has a creation that no later start of a task follows. |
| ConnectionTheorems.QuietMeaning | components/pppos/libGSM.c:653-656 | The invariant takes the client for quiet if and only if the log has a finished disconnect that no call of `ppposInit` follows. |
| InitLoop.Initialize | components/pppos/libGSM.c:544-579 | For any skip flags and any modem: the accepted commands are the first of those that were pending, each once and in table order, and exactly their flags have been set; success takes at most N + 20 sends; giving up is at exactly the 21st failure; and the loop succeeds if and only if the modem accepts N commands before its 21st failure. The loop ends by a lexicographic measure. |
| InitLoop.EnableAll | components/pppos/libGSM.c:475-480 | All flags are cleared. |
| InitLoop.AcceptTakesFirst | components/pppos/libGSM.c:574-578 | If the flags before a position are set and its own is not, accepting its command takes exactly that command off the front of what is pending. |
| InitLoop.SuccessDecided | components/pppos/libGSM.c:556-572 | A run of the loop that ended after some replies has succeeded if and only if the replies, however many there may be, reach the needed number of acceptances before a 21st failure. |
| ByteCounters.Conservation | components/pppos/libGSM.c:300-310 | In every interleaving, resetting samples, discarded counts, the counter and what is about to be counted add up modulo 2^32 to the bytes read from the modem; for the bytes written they do if and only if the number of failed writes is a multiple of 2^32. |
| ByteCounters.StepAccounted | components/pppos/libGSM.c:630-634 | Every step changes what is accounted for as it changes what has moved, up to whole wraps of the counter. |
| ByteCounters.FailedWriteCounts | components/pppos/libGSM.c:302-306 | One failed write makes the counter show 2^32 - 1 bytes although none was written. |
| ByteCounters.SampleShows | components/pppos/libGSM.c:800-819 | In every interleaving the counters, and so every sample, show what has been counted since they were last cleared, modulo 2^32; only a sample with a reset, a reset and the start clear them. |
| ByteCounters.SampleApart | components/pppos/libGSM.c:805 | A sample without a reset can be inserted anywhere and changes nothing after it. |
| ByteCounters.Counters.WriteOut | components/pppos/libGSM.c:302 | The write of the output callback is the step `Write` of the interleaving model; its result comes back as an unsigned 32-bit number. |
| ByteCounters.Counters.CountOut | components/pppos/libGSM.c:304-308 | Counting the unsigned result is the step `CountWritten` on the signed one, a failed write included: it is added to `rx` modulo 2^32, and `tx` stays. |
| ByteCounters.Counters.ReadIn | components/pppos/libGSM.c:694 | The client's read is the step `Read` of what it delivered, nothing for an error. |
| ByteCounters.Counters.CountIn | components/pppos/libGSM.c:695-700 | Counting it is the step `CountRead`: it is added to `tx` modulo 2^32, and `rx` stays. |
| ByteCounters.Counters.GetRxTxCount | components/pppos/libGSM.c:800-810 | The step `Sample`: the values returned are those before the call; with a reset both counters are 0 after it and the values enter the sum of samples, without one they stay as they are. |
| ByteCounters.Counters.ResetRxTxCount | components/pppos/libGSM.c:813-819 | The step `Discard`: both counters are 0. |
| ByteCounters.Counters.Balanced | components/pppos/libGSM.c:300-310 | Hence, after any sequence of these sections, samples, discarded counts, the counters in memory and what is about to be counted add up modulo 2^32 to what has moved, less one for each failed write. |
| ResponseReader.WaitResponse | components/pppos/libGSM.c:366-422 | Refines the one-shot `Outcome`: if some silence after data comes within the timeout, the loop stops at the first one with the verdict on everything received up to it, the expected string before the alternative; otherwise the result is 0 after exactly timeout/10 + 1 reads. Each read takes 10 of the timeout. |
| ResponseReader.VerdictMeaning | components/pppos/libGSM.c:382-408 | Below 256 bytes the verdict is a substring test on the whole sanitized response: 1 if and only if the expected string occurs, 2 if and only if it does not and the alternative does, 0 otherwise. |
| ResponseReader.SeenPositions | components/pppos/libGSM.c:374-379 | Position by position, what is searched is the character received if it lies in 0x20 to 0x7F and a dot otherwise, for the first 256 characters; behind them what lies behind the buffer. |
| ResponseReader.PrintableVerdict | components/pppos/libGSM.c:382-408 | For a printable response below 256 bytes the verdict is a substring test on the response itself. |
| ResponseReader.PinReady | components/pppos/libGSM.c:126-134 | The reply of a modem with its PIN entered, line ends included, is recognized. |
| ResponseReader.FragmentationIndependent | components/pppos/libGSM.c:372-381 | Two deliveries of the same bytes in different fragments that are both complete within the timeout have the same outcome: below 256 bytes whatever lies behind the buffer, from there on given the same bytes behind it. |
| ResponseReader.AnyFragments | components/pppos/libGSM.c:372-408 | Any two ways of cutting the same bytes into chunks, with fewer chunks than reads within the timeout, have the same outcome, which is the verdict on exactly the bytes that the collecting form would collect; the bytes behind the buffer matter only if it is full. |
| ResponseReader.Accumulate | components/pppos/libGSM.c:374-379 | Adding a chunk to the match buffer keeps the sanitized first 256 bytes of everything received. |
| ResponseReader.Collect | components/pppos/libGSM.c:346-364 | If all the reallocations that the line needs succeed, and only then, the buffer holds exactly the concatenation of all chunks up to the first silence, followed by a terminator for which there is always room; otherwise the result is 0. The caller is left without a usable buffer if and only if a reallocation fails after one that succeeded. |
| ResponseReader.BufferLost | components/pppos/libGSM.c:351-356 | Four full reads of which the second enlargement fails leave the caller without a usable buffer. |
| ResponseReader.FullReads | components/pppos/libGSM.c:349-354 | n full reads into a buffer of 512 bytes need n/2 reallocations, for every n. |
| SmsListing.NumSms | components/pppos/libGSM.c:913-926 | The result is the number of all positions at which the marker occurs, although the scan skips ahead. |
| SmsListing.CountHit | components/pppos/libGSM.c:919-924 | Skipping the seven bytes of a hit misses no occurrence of the marker. |
| SmsListing.ScanComplete | components/pppos/libGSM.c:935-942 | The scan reaches a k-th marker if and only if there are at least k occurrences. |
| SmsListing.FindMessage | components/pppos/libGSM.c:933-942 | The scan finds the position after the k-th marker if there is one, and reports failure for every other index. |
| SmsListing.GetSmsAt | components/pppos/libGSM.c:930-1007 | Returns the index and the parsed message if there is such a marker and both lines after it are ended, and 0 otherwise. |
| SmsListing.ReadFields | components/pppos/libGSM.c:971-991 | The field loop computes the header's parse, and leaves the body alone. |
| SmsRoundTrip.ListingRoundTrip | components/pppos/libGSM.c:913-991 | For every list of plain messages printed as a listing in memory, `getSMS` recovers index, status, sender, time and body of message k if and only if its fields fit and do not end in a comma and there is no NUL up to its end; it finds nothing for other indices; `numSMS` is the number of messages if and only if there is no NUL before the last one. |
| SmsRoundTrip.MessageRoundTrip | components/pppos/libGSM.c:944-991 | A printed message in memory, whatever follows it, is recovered in full if and only if its text fields meet that condition and no part of it contains a NUL. |
| SmsRoundTrip.FieldsSurvive | components/pppos/libGSM.c:971-991 | Its header and body are parsed for what they are if and only if stat and sender have at most 30 characters, the time 31, and none ends in a comma; a comma at the end of the name costs the time. |
| SmsRoundTrip.CommaLost | components/pppos/libGSM.c:988-990 | A message with status `READ,` is not recovered. |
| SmsRoundTrip.NulCuts | components/pppos/libGSM.c:961-962 | Of two messages, the first with a NUL in its body, one is counted and none is recovered. |
| SmsRoundTrip.GetInPart | components/pppos/libGSM.c:930-962 | Of a listing that is cut off anywhere, exactly the messages whose two lines it still has are found, unchanged. |
| SmsRoundTrip.PrintedParses | components/pppos/libGSM.c:947-968 | The parse of a printed message, body included, does not depend on what follows it. |
| SmsRoundTrip.PrintedInFull | components/pppos/libGSM.c:920-990 | The form of a listing, character by character. |
| SmsRoundTrip.WalksFields | components/pppos/libGSM.c:971-991 | What the field loop stores, for any quoted values: each in turn, but a comma at the end of a value is taken for a separator and shifts the fields after it. |
| SmsRoundTrip.HeaderParses | components/pppos/libGSM.c:971-991 | The parse of a printed header is that walk over its values, with the printed index. |
| SmsRoundTrip.IndexReads | components/pppos/libGSM.c:982 | The decimal form of every index up to 2^31 - 1 is read back by `strtol` although it guesses the base. |
| SmsRoundTrip.NumbersRead | components/pppos/libGSM.c:982 | `strtol` with base 0 and a 32-bit long: every decimal number, with or without a sign, is read back up to the limits of the range and held there; white space is skipped, and hexadecimal and octal forms are read. |
| SmsRoundTrip.ListingCount | components/pppos/libGSM.c:913-926 | The number of markers in a listing is the number of messages. |
| SmsRoundTrip.ListingAfter | components/pppos/libGSM.c:933-941 | After the k-th marker stands the k-th message. |
| SmsRead.ReadSorted | components/pppos/libGSM.c:1027-1095 | The messages are all those that parse, in listing order for `sort == 0` and otherwise sorted. |
| SmsRead.SmsRead | components/pppos/libGSM.c:1010-1097 | From the modem's bytes to the sorted messages: if the modem is ready and the reallocations that its answer needs succeed, the result is the messages of the C string that the collected bytes make, in the order asked for; otherwise there are none. |
| SmsRead.ListingFetched | components/pppos/libGSM.c:1021-1041 | If the modem delivers, in any fragments, the listing of plain messages without NULs, then as many messages are read as were sent, and they are the ones sent if and only if all their fields fit and do not end in commas. |
| SmsRead.ReadMessages | components/pppos/libGSM.c:1027-1041 | The counted messages, though stored by position, are exactly those of the listing up to the first that is cut off, and none after it parses. |
| SmsRead.CutOffIsLast | components/pppos/libGSM.c:946-962 | If a message parses, so does every message before it. |
| SmsRead.SelectionSort | components/pppos/libGSM.c:1042-1090 | The output has the messages that the search can find, each once, by time and among equal times by position, and blank messages after them. |
| SmsRead.Pass | components/pppos/libGSM.c:1047-1065 | A pass picks the first of the extreme marked messages and unmarks it; it finds none if and only if none that it could find is marked. |
| SmsRead.Extreme | components/pppos/libGSM.c:1070-1075 | The extreme time among the marked messages, or the start value if none is beyond it. |
| SmsRead.PickIsExtreme | components/pppos/libGSM.c:1055-1064 | A marked message with the time found exists if and only if a message that can be found is marked, and the first one comes before all others that can. |
| SmsRead.SortIsStable | components/pppos/libGSM.c:1042-1087 | The sorted array has the same messages as the input if and only if the order is ascending or no time is negative. |
| SmsRead.SortUnique | components/pppos/libGSM.c:1042-1087 | The result is determined by the messages: two arrays that satisfy the specification of the sort are equal. |
| SmsRead.OrderMeaning | components/pppos/libGSM.c:1042-1087 | The times in the result ascend for `sort > 0` and descend for `sort < 0`; for 0 the order is that of the listing. |
| SmsRead.NegativeTimeLost | components/pppos/libGSM.c:1070-1085 | A single message with time -1, sorted in descending order, is lost. |
| DnsNames.LabelToStr | main/captdns.c:117-145 | Wherever the walk over the buffer ends without leaving it, the method writes exactly the walk's text and a NUL and returns its end, or NULL where the walk is refused. |
| DnsNames.CopyBytes | main/captdns.c:127-130 | Copies a label behind the text so far, bounded by the result buffer and refused beyond the packet. |
| DnsNames.StrToLabel | main/captdns.c:148-165 | Writes the encoding of the C string, string length plus 2 bytes, and changes nothing else of the buffer. |
| DnsNameLaws.EncodeSplits | main/captdns.c:148-165 | The encoding of any text is each of its parts between dots, empty and long ones included, with its length modulo 256 before it, and a zero at the end. |
| DnsNameLaws.PlainExample | main/captdns.c:117-165 | The name a.b, decoded and encoded. |
| DnsNameLaws.Decodes | main/captdns.c:117-145 | Wherever a name that is not the root has an expansion in the sense of RFC 1035, by pointers that each lead to before the run of labels they end, the decoder terminates with the dotted form of the expansion. |
| DnsNameLaws.EndRightIffOneHop | main/captdns.c:131-144 | The end position it returns is that of the name in the question if and only if the expansion has at most one pointer. |
| DnsNameLaws.TwoHopsMisplace | main/captdns.c:133 | For a pointer to a pointer the decoder returns a position before the name. |
| DnsNameLaws.WalkSettled | main/captdns.c:121-141 | The outcome of a walk that has ended does not depend on how long one is prepared to wait. |
| DnsNameLaws.RefusedExactly | main/captdns.c:128-140 | A label that fits the text is refused if and only if it ends beyond the packet, and a pointer if and only if it leads beyond it; otherwise the decoder goes on behind the label or at the pointer's target. |
| DnsNameLaws.EndsBehind | main/captdns.c:140-141 | A name that runs up to the end of the packet is ended by a zero byte behind the packet. |
| DnsNameLaws.FullStays | main/captdns.c:127-130 | Once the text fills its buffer, the decoder stays where it is in the label. |
| DnsNameLaws.RootMisread | main/captdns.c:121-143 | At a root name, whatever the next byte is but a pointer, the decoder never returns the empty text and the position after the name, however long it runs. |
| DnsNameLaws.DecodedExactly | main/captdns.c:117-145 | Of all names with an RFC 1035 expansion whose text fits, the decoder returns text and end of exactly those that are not the root and have at most one pointer. |
| DnsNameLaws.ReservedNotPassed | main/captdns.c:122-141 | At a length byte from 64 to 191 the decoder never produces a name: within the packet it does not end, beyond it it gives up. |
| DnsNameLaws.SelfPointerSpins | main/captdns.c:131-141 | At a pointer to itself the decoder does not end. |
| DnsTermination.SpinsExactly | main/captdns.c:121-141 | The decoder, started anywhere, does not end however long it runs if and only if its loop comes to the same position with the same amount of text twice. |
| DnsTermination.EndsInTime | main/captdns.c:121-141 | If it ends at all, it has ended after one round more than there are pairs of a position in the buffer and an amount of text. |
| DnsTermination.TwoPointersSpin | main/captdns.c:131-141 | At two pointers to each other the decoder does not end. |
| DnsNameLaws.RoundTripIffClean | main/captdns.c:148-165 | Encoding the dotted form of a non-empty list of labels of 1 to 63 bytes reproduces its wire bytes exactly if and only if no label contains a dot or a NUL. |
| DnsNameLaws.DotSplits | main/captdns.c:152-157 | A label that is a dot comes back as two empty labels. |
| DnsNameLaws.DecodeEncoded | main/captdns.c:117-165 | Decoding the encoding of a dotted string gives the string back and ends right after it. |
| DnsNameLaws.WireSize | main/captdns.c:148-165 | The wire form of a non-empty name is its dotted form plus 2 bytes. |
| DnsNameLaws.WireExpands | main/captdns.c:204 | A name written out in a message expands to itself, without pointers. |
| DnsReply.CaptdnsRecv | main/captdns.c:168-265 | For every request that the handler serves without leaving its buffers, the bytes sent are those of `Handle`; requests that are too long, too short, truncated or carry records, or have a refused name, are met with silence. |
| DnsReply.RefusedMeaning | main/captdns.c:181-184 | A request is not looked at if and only if it is shorter than 12 or longer than 512 bytes, counts any answers, name servers or additional records, or is truncated. |
| DnsReply.NotAnswered | main/captdns.c:181-193 | Such a request, and one whose first name is refused, gets no reply. |
| DnsReply.ReplyFrame | main/captdns.c:186-187 | Every reply, whatever the request, has QR set and is otherwise the request up to its length, but for the number of answers. |
| DnsReply.Question | main/captdns.c:189-259 | One round of the loop keeps the reply built: patched request, records so far, and the old contents of the buffer behind them. |
| DnsReply.Answer | main/captdns.c:200-258 | Writes the re-encoded name and the record for the type asked for right at the end of the reply, and touches nothing else. |
| DnsReply.PutA | main/captdns.c:204-222 | The A record in full, with TTL 0 and the address. |
| DnsReply.PutNs | main/captdns.c:229-239 | The NS record, whose low TTL half is what the buffer held before. |
| DnsReply.PutUri | main/captdns.c:244-256 | The URI record with priority 10, weight 1 and the portal's address, with the same defect. |
| DnsReply.CountAnswer | main/captdns.c:223 | ANCOUNT in the reply goes up by one, in place, and all else is kept. |
| DnsReply.StartReply | main/captdns.c:185-187 | The reply starts as the request, with the top bit of the flags set and the others kept. |
| DnsReply.SetN16 | main/captdns.c:95-99 | Two bytes in network order, nothing else. |
| DnsReply.SetN32 | main/captdns.c:102-108 | Four bytes in network order, nothing else. |
| DnsRoundTrip.EndToEnd | main/captdns.c:168-263 | Every proper query whose reply fits 512 bytes is answered, and an RFC 1035 parser reads from the reply the id and the questions of the query, the flags with the top bit set and the others kept, and exactly one answer for each question of type 1, 2 or 256, in order, owned by the fully expanded name and with the address, the name server or the portal as its data. |
| DnsLimits.AnsweredExactly | main/captdns.c:168-263 | A proper query is answered if and only if request and records fit 512 bytes; if they do not, the handler leaves its reply buffer, whatever the addresses and the old contents of the buffer are. |
| DnsLimits.Overruns | main/captdns.c:189-260 | The question loop, at any of its rounds, does not come to a defined end if the records still to be written do not fit. |
| DnsLimits.LongNameOverruns | main/captdns.c:204-222 | A proper query of 271 bytes with one A question for a name of 255 bytes, whose reply would take 540, is such a query. |
| DnsRoundTrip.ReplyToQuery | main/captdns.c:185-263 | That reply byte for byte: the patched request followed by the records of its answerable questions. |
| DnsRoundTrip.ServesAll | main/captdns.c:189-260 | The question loop serves all questions of a proper query and terminates. |
| DnsRoundTrip.AnswersRead | main/captdns.c:200-258 | Records written one after the other read back as the list of answers and end where the last one ends. |
| DnsRoundTrip.AnswersAreMeant | main/captdns.c:200-258 | The answers correspond one to one to the questions of type 1, 2 and 256, in order, each with owner, type, class, time to live and data as they are meant. |
| DnsRoundTrip.RecordReads | main/captdns.c:204-222 | One record written out reads back field by field as the answer to its question. |
| DnsRoundTrip.ReplyHead | main/captdns.c:186-187 | The first bytes of the reply are the request but for QR and ANCOUNT, and the questions parse as before. |
| DnsRoundTrip.QuestionsAgree | main/captdns.c:186 | Changing the header and appending records does not change how the questions parse, pointers included. |
| DnsRoundTrip.ReplyArithmetic | main/captdns.c:189-260 | For any request that is served, after any number of rounds the reply has grown by name + 10 + RDLENGTH for each answered question and by nothing else, and fits the buffer. |
| DnsRoundTrip.AnswersCounted | main/captdns.c:223-257 | ANCOUNT is the number of answered questions: it does not wrap. |
| DnsRoundTrip.ServeSettled | main/captdns.c:189-260 | The outcome of the question loop does not depend on how long one is prepared to wait. |
| Multiselect.List.Filter | html/bootstrap-multiselect.js:1110-1177 | After one pass a header is shown if and only if it matches or an item of its group does, an item if and only if it matches or its header does; other rows stay as they are. |
| Multiselect.List.ApplyFilter | html/bootstrap-multiselect.js:1107-1184 | A search leaves the selection as it is, and afterwards the select-all row and the headers tell the truth about the rows that are left. |
| Multiselect.List.Run | html/bootstrap-multiselect.js:578-1462 | Every sequence of selects, deselects, bulk operations, row and group changes, refreshes, searches and filters keeps every row's check box equal to its option's state, if no text equal to an option's value is typed, and each operation in turn changes the options exactly as it is meant to. |
| Multiselect.List.Execute | html/bootstrap-multiselect.js:578-1462 | Each single operation keeps the mirror and changes search text, filter, disabled rows and options exactly as stated for it in full. |
| Multiselect.List.TellMeaning | html/bootstrap-multiselect.js:1610-1661 | In full: the select-all row is to be checked just if there are visible enabled items and all are checked, a header just if all those of its group are. |
| Multiselect.List.Select | html/bootstrap-multiselect.js:1267-1371 | Exactly the options with the given values change, with their rows; unknown values are passed over; the select-all row and the headers follow. |
| Multiselect.List.SetAll | html/bootstrap-multiselect.js:1381-1462 | Exactly the rows that are enabled and, if only visible ones are meant, neither filtered out nor otherwise invisible change; disabled rows never do; the headers follow; the mirror survives if and only if the search text does not stand for an option that is neither reached nor selected already. |
| Multiselect.SearchTextSelects | html/bootstrap-multiselect.js:1400-1405 | A list in which selecting all breaks the mirror. |
| Multiselect.List.ChangeRow | html/bootstrap-multiselect.js:578-659 | Changing a row changes exactly its option, and the select-all row and the headers follow; changing the select-all row is the bulk operation, with the same condition for the mirror. |
| Multiselect.List.ChangeGroup | html/bootstrap-multiselect.js:771-825 | Exactly the options in the header's group that are neither hidden nor disabled follow it; the headers keep telling the truth if and only if the header was checked or its group has such a row. |
| Multiselect.HeaderOutOfStep | html/bootstrap-multiselect.js:771-825 | A list in which unchecking a header leaves it unchecked although its group counts as checked. |
| Multiselect.List.Refresh | html/bootstrap-multiselect.js:1210-1256 | From any state the rows take over the states of their options, and the select-all row and the headers follow. |
| Multiselect.List.LastInput | html/bootstrap-multiselect.js:1211-1218 | Among the inputs with an option's value, the last one, which the table keeps, is the row of the option even if the search box shows that value. |
| Multiselect.List.UpdateSelectAll | html/bootstrap-multiselect.js:1644-1661 | The select-all row is checked if and only if there are visible enabled items and all are checked; nothing else changes. |
| Multiselect.List.UpdateOptGroups | html/bootstrap-multiselect.js:1610-1639 | Each header is checked if and only if no visible enabled row of its group is unchecked; nothing else changes. |
| Multiselect.List.GetOptionByValue | html/bootstrap-multiselect.js:1696-1707 | The first option with the value, if any. |
| Multiselect.List.GetInputByValue | html/bootstrap-multiselect.js:1715-1726 | For an option's value, the row of that option. |

## Left out

- UART, GPIO, lwIP, FreeRTOS, logging and console output: they appear only as choices of the environment.
- Delays and the liveness of polling loops: a poll can miss a short-lived value, and `_disconnect` retries until the modem answers.
- More than one controlling thread, a mutex that is not obtained, and `ppposDisconnect` before the first `ppposInit`, which would use a mutex that does not exist.
- `_disconnect` is one step of the protocol; the commands it sends are not modelled. Nor are `delayMs` and `timeoutMs`, which the code changes for the registration command.
- ConnectionManager is not in imperative form: the interleaving of three actors is a function of the schedule, and local variables are arguments of the program counters.
- Calendar arithmetic: `sscanf`, `mktime` and the time zone stand as an abstract function `clock` from the time text to a 32-bit number.
- Sending and deleting messages, switching the radio, `sms_ready`, and the other programs under `main/`.
- Failures of memory allocation other than of `realloc` in the collector and of the task's setup.
- ResponseReader.Collect: models the terminator as written behind the data collected, where the code writes a null pointer into the caller's array of pointers; a buffer that `realloc` has given back is only marked as such, by `intact`, and its later use or release is not modelled.
- ResponseReader.WaitResponse: a response of 256 bytes or more leaves the buffer without a terminator; the bytes behind it, up to the next NUL, are a parameter.
- SmsRead.ReadMessages: models `messages + i * sizeof(SMS_Msg)` as element i; read literally, the pointer arithmetic scales twice.
- SmsListing.GetSmsAt: index 0 of a listing without markers is excluded, and so it is for SmsListing.FindMessage: no caller asks for it, and the code would then search from a null pointer.
- DnsNames.LabelToStr: excludes input on which the code leaves its buffers or does not end, since there is then no result to state; so does DnsReply.CaptdnsRecv. When the decoder does not end is proved (DnsTermination.SpinsExactly), and when a proper query leaves the reply buffer (DnsLimits.AnsweredExactly).
- DnsNames.StrToLabel: requires the room that the code takes for granted; its `maxLen` is not used.
- DnsNameLaws.RootMisread: excludes a following byte from 192 on, which is no type in use; the decoder would follow it as a pointer.
- DnsRoundTrip.EndToEnd: the TTL of NS and URI answers is whatever the reply buffer held, since the code writes only half of it.
- The widget's document structure, styles, keyboard, bindings, button text, callbacks, range selection with shift and single-selection mode; dividers and options with equal values. Whether a row matches a search text is a parameter, as is whether it is displayed.
