# Verification of Deon's core

Deon is a reactor HTTP server in C++ with one event loop per thread and a double-buffered
asynchronous logger. This project models the parts of it that are protocols, in-place algorithms
or state machines, and proves what they keep. `dafny verify dfyconfig.toml` checks all of it.

## What is modelled

**The logger** (`LogProtocol`, `AsyncLogging`, `LogStream`, `Decimal`). `LogProtocol` is a system of
atomic steps: any number of producers in `append`, a caller of `stop`, and the writer thread, which
enters its loop, perhaps sleeps, swaps the queue out, cuts an overlong batch, writes one buffer at a
time and recycles two. A buffer there is the list of the records in it, and a record carries the
position at which the mutex let it in. `AsyncLogging` is the same protocol as classes: heap-allocated
buffers move between the fields that the mutex guards and the locals of the writer, the two sides have
footprints that never meet, and `Writer.ThreadFunc`, with any behaviour of the other threads between
its steps, is shown to be a run of the protocol. That what is accepted gets out at all is a statement about
infinite traces in which the writer goes on. `LogStream` has the fixed buffer, the digit loop with
its symmetric table and truncated division, the reversal in place, and the stream's `<<` operators.

**The event loop** (`LoopProtocol`, `EventLoop`). Threads push closures under a mutex and then write to
an eventfd; the loop polls, runs callbacks, swaps the pending functors out and runs them, and both
callbacks and functors may push more or call `quit`. The eventfd is an edge that every write sets and
a poll that reports it clears. Safety is an invariant of every finite run, liveness a statement about
infinite traces in which a thread that can go on does go on at some time; the ten-second poll timeout
is never relied on. `EventLoop` is the class, again shown to be a run of the protocol.

**HTTP** (`HttpHeader`, `HttpRefusal`, `HttpResume`, `HttpLine`, `HttpPipeline`, `Sockets`, `HttpPage`,
`HttpStages`, `HttpIndices`, `Http`, `HttpService`). The seven-state header automaton has a grammar,
proved sound and complete, what it refuses is characterised as exactly, and it is resumed correctly
under a condition that is proved exact. The request line is parsed with `find` and `substr` as in the
source, with an exact condition for a printed line to be read back. `HttpStages` says on values,
exactly, what one callback does in every state of the parser and whatever the socket does, and that a
request may come in pieces. `HttpPage` is the error page. `Http` is the connection: the string versions
of `readn` and `writen`, the index loop of the header parser (a refinement of the automaton from every
resume state), the stages of `handleRead`, `handleWrite`, and the re-registration at the end of every
event. `HttpService` has whole conversations with it. What `read` and `write` will return are scripts
(`Sockets`), and the content of each response is a parameter.

**Timers and connections** (`TimerClock`, `Poller`). The clock is wall time in milliseconds modulo
10 000 s. `Poller` has the two descriptor maps, the timer queue with lazily deleted nodes, the weak
pointer from a connection to its timer, and the close that the destruction of a timer triggers.

**Threads** (`LoopPool`, `CountDownLatch`, `LoopStart`). Round-robin assignment, the latch, and the
publication of a new thread's loop.

## Where the code does not do what its documentation or a caller would expect

What is said here of a named member is what that member proves about the code as it is.

- The documentation says that the timers deal with requests that time out. Expiry itself is right
  (`Poller.Poller.HandleExpired`), except that a timer that is set less than its timeout before the clock
  wraps never expires at all (`TimerClock.FiresEver`, `TimerClock.NeverFires`). That nothing in
  `EventLoop::loop` (deon/net/EventLoop.cpp:54-74) starts the sweep is read off the source, not proved.
- A header that arrives in two pieces is only read correctly when the cut is before the header or inside its
  first key, and that key does not begin with a colon (`HttpResume.ResumeExactly`); a cut inside a value gives
  a header with an empty name (`HttpResume.CutInValueLosesTheKey`).
- A file in a subdirectory cannot be requested, because the version is read behind the first slash
  inside the URI (`HttpLine.SubdirectoryIsRefused`); a HEAD or POST whose URI contains `GET` is
  taken for a GET (`HttpLine.MethodFound`). `HttpLine.LineRoundTrip` is the exact condition.
- Of several requests that come at once only the first is answered; the others stay in the input buffer,
  complete, until new bytes arrive (`HttpService.ServeBurst`, and `HttpService.TwoAtOnce` for a new connection
  and two requests). A callback answers at most one request for each time it drains the socket
  (`HttpStages.OnePerDrain`).
- A request that is read together with the end of the client's stream is not answered
  (`HttpService.ServeNoneAtEnd`).
- A connection that once waits for EPOLLOUT never waits for input again, even when it has nothing left to
  send (`HttpService.ServeWithPartialWrite`).
- The status line of an error page has no space behind the code (`HttpPage.SpaceBehindCode`).
- The logger keeps its bounds for texts shorter than 2^31 characters only: the guard of `append` compares the
  room with the length cast to `int` (`LogStream.GuardIsExact`, `LogStream.LongTextPassesGuard`). Http.cpp:64
  logs the whole input buffer, which grows for as long as no line end comes.
- `stop` does not drain the logger: accepted messages may stay in memory for good
  (`LogProtocol.StopLeavesMessages`).
- A batch of more than 25 log buffers loses its third and later buffers, whole records and nothing else
  (`LogProtocol.OnlyTruncateLoses`), and such a batch can come about (`LogProtocol.OverloadIsReachable`).
- A call of `quit` that comes before `loop` is lost (`LoopProtocol.QuitBeforeLoopIsLost`); the loop stops
  exactly if it is asked to after its start (`LoopProtocol.StopsExactlyIfAsked`).
- A second `start` of the thread pool makes loops that are never given a connection
  (`LoopPool.EventLoopThreadPool.GetNextLoop`).
- When the kernel refuses to change the events of a connection that goes on, the maps and the timers no
  longer agree (`Poller.Poller.HandleRegister`).

One proved statement is hypothetical: if a loop could end before `startLoop` has returned its address, the
caller would sleep for good or get a null pointer (`LoopStart.EarlyEndHangs`,
`LoopStart.EarlyEndIsReached`). Nobody in the source has the address by then, so no run of the source does
this; it is what the order of publication and return rests on.

## Model

| member | source | states |
|---|---|---|
| `LogProtocol.StepKeepsInv` | deon/base/AsyncLogging.cpp:26-127 | Every step of a producer, of `stop` or of the writer that is possible in a consistent state passes the source's asserts (spares empty, batch empty or not, a buffer left for each missing spare) and leads to a consistent state: `nextBuffer_` is null exactly when the queue is not empty, every buffer is under its capacity, and every accepted record is in one place. |
| `LogProtocol.ReachedInv` | deon/base/AsyncLogging.cpp:48-130 | The invariant holds in every state that any interleaving of the threads leads to. |
| `LogProtocol.ReachStep` | deon/base/AsyncLogging.cpp:66-123 | In every reachable state, every possible step passes its asserts, also after an overlong batch has been cut. |
| `LogProtocol.StreamConserved` | deon/base/AsyncLogging.cpp:26-127 | Conservation over every interleaving: file, unwritten rest of the batch, queue and current buffer, joined as bytes, are the accepted messages in mutex order without the lost ones; each message is whole, none twice, none out of order. |
| `LogProtocol.FileIsPrefixOfLog` | deon/base/AsyncLogging.cpp:64-130 | If no batch of the run exceeded 25 buffers, the file is a prefix of everything that was accepted, also after `stop`. |
| `LogProtocol.PassWritesWhatItCollected` | deon/base/AsyncLogging.cpp:96-127 | Whenever the writer holds no batch, the file is what had been accepted when the last batch was taken, minus the lost messages. |
| `LogProtocol.OnlyTruncateLoses` | deon/base/AsyncLogging.cpp:90-94 | No step loses a message, except the cut of a batch of more than 25 buffers, which loses exactly the records of its third and later buffers. |
| `LogProtocol.OverloadIsReachable` | deon/base/AsyncLogging.cpp:26-94 | A run in which the writer is kept from the mutex while 26 buffers fill and the cut then loses exactly the third to the last of the 26 accepted messages. |
| `LogProtocol.NothingLostWithoutOverload` | deon/base/AsyncLogging.cpp:90-94 | A run in which no batch exceeds 25 buffers loses nothing. |
| `LogProtocol.FileOnlyGrows` | deon/base/AsyncLogging.cpp:96-100 | What is on file stays there, and the accepted stream is only extended. |
| `LogProtocol.AcceptedGetsOut` | deon/base/AsyncLogging.cpp:64-127 | In a fair trace every accepted record is at some time in the file or, by an overload, given up, unless the writer leaves its loop. |
| `LogProtocol.WriterStepLowersRank` | deon/base/AsyncLogging.cpp:64-127 | Every step of the writer brings a record that is not out nearer to it: a rank of its place in the loop and the buffers still to be written falls. |
| `LogProtocol.TakenIsOut` | deon/base/AsyncLogging.cpp:96-127 | A record that a batch took is in the file or lost once the writer holds no batch. |
| `LogProtocol.FinishedIfStopped` | deon/base/AsyncLogging.cpp:64-130 | The writer does not leave its loop unless somebody stops the logger. |
| `LogProtocol.StopLeavesMessages` | deon/base/AsyncLogging.h:31-36 | A run in which a message is accepted, the logger is stopped, and the writer leaves with nothing written. |
| `LogProtocol.FinishedIsForGood` | deon/base/AsyncLogging.cpp:129-130 | Nothing is written after the writer has left. |
| `LogProtocol.AppendAddsNewest` | deon/base/AsyncLogging.cpp:26-46 | An accepted message becomes the newest of those not yet taken, rotation or not; one too long for an empty buffer changes nothing about the stream. |
| `LogProtocol.AppendRotatesExactly` | deon/base/AsyncLogging.cpp:26-46 | A text that leaves one of the 4 000 000 characters of the current buffer free goes there and nothing else changes; any other sends exactly the current buffer to the queue, uses up the next buffer, and goes into an empty one if it fits. |
| `LogProtocol.OverloadNeedsText` | deon/base/AsyncLogging.cpp:26-94 | In every run, before a batch that will be cut is taken, at least fifty million characters have been offered since the batch before it. |
| `LogProtocol.StepPays` | deon/base/AsyncLogging.cpp:26-86 | Every step keeps: twice what has been offered since the last batch is at least a full buffer for each queued one and what is in the current one. |
| `LogProtocol.CollectTakesRecent` | deon/base/AsyncLogging.cpp:70-86 | The swap moves everything not yet taken, in order, behind what was taken before, and leaves nothing. |
| `LogProtocol.TruncateCutsTail` | deon/base/AsyncLogging.cpp:90-94 | The cut splits the batch's records into those that stay and those whose ids become lost, with the boundary behind the second buffer. |
| `LogProtocol.CutIsExact` | deon/base/AsyncLogging.cpp:90-94 | Adding the ids of a tail to the lost ones removes exactly that tail from the stream, and only ids of accepted messages. |
| `LogProtocol.WriteKeepsTaken` | deon/base/AsyncLogging.cpp:96-100 | Writing a buffer moves its records from the batch to the end of the file without changing their order. |
| `AsyncLogging.AsyncLogging.constructor` | deon/base/AsyncLogging.cpp:7-23 | Two fresh empty buffers, nothing queued, every object new, `running_` down. |
| `AsyncLogging.AsyncLogging.SetRunning` | deon/base/AsyncLogging.h:23-28 | Only `running_` changes. |
| `AsyncLogging.AsyncLogging.Append` | deon/base/AsyncLogging.cpp:26-46 | The heap version of `append` does the protocol's append step, about which `AppendRotatesExactly` says when it rotates, and the logger only ever gains fresh objects. |
| `AsyncLogging.AsyncLogging.Rotate` | deon/base/AsyncLogging.cpp:35-41 | The full buffer joins the queue; the current buffer is then the former next buffer or a fresh one, and no two fields share a buffer. |
| `AsyncLogging.AsyncLogging.FillCurrent` | deon/base/AsyncLogging.cpp:31-42 | The text is copied into the current buffer if it fits, and only that buffer is written. |
| `AsyncLogging.AsyncLogging.TakeQueue` | deon/base/AsyncLogging.cpp:78-81 | The queue and the current buffer leave the logger with their contents; what leaves and what stays have no object in common. |
| `AsyncLogging.AsyncLogging.RefillNext` | deon/base/AsyncLogging.cpp:82-85 | A missing next buffer is replaced by an outside empty one that no other field holds. |
| `AsyncLogging.AsyncLogging.Stop` | deon/base/AsyncLogging.h:31-36 | Only `running_` changes. |
| `AsyncLogging.Writer.constructor` | deon/base/AsyncLogging.cpp:53-62 | Two fresh empty spares, no batch, an empty file. |
| `AsyncLogging.Writer.BuffersAreDistinct` | deon/base/AsyncLogging.cpp:66-123 | Whenever both sides are in order, no two of the places current, next, queue, the two spares and the batch hold the same buffer or share storage. |
| `AsyncLogging.Writer.EnterLoop` | deon/base/AsyncLogging.cpp:64-68 | The three asserts at the head of the loop, on the real objects: both spares exist and are empty, the batch is empty. |
| `AsyncLogging.Writer.Collect` | deon/base/AsyncLogging.cpp:78-85 | The swap on the heap is the protocol's collect step; buffers change sides, none is created or shared. |
| `AsyncLogging.Writer.Truncate` | deon/base/AsyncLogging.cpp:88-94 | The assert that the batch is not empty, and the protocol's cut. |
| `AsyncLogging.Writer.WriteOne` | deon/base/AsyncLogging.cpp:97-100 | Without a lock, the bytes appended to the file are those of the batch's next buffer. |
| `AsyncLogging.Writer.RefillSpare1` | deon/base/AsyncLogging.cpp:109-115 | The last buffer of the batch becomes the first spare, emptied; the assert before it holds. |
| `AsyncLogging.Writer.RefillSpare2` | deon/base/AsyncLogging.cpp:117-123 | The same for the second spare. |
| `AsyncLogging.Writer.Recycle` | deon/base/AsyncLogging.cpp:102-125 | Both spares exist and are empty again, and the batch is gone, without a new buffer. |
| `AsyncLogging.Writer.Others` | deon/base/AsyncLogging.cpp:26-46 | Producers and `stop` acting between two steps of the writer extend the run by exactly their steps and touch no object of the writer. |
| `AsyncLogging.Writer.FetchBatch` | deon/base/AsyncLogging.cpp:64-86 | From the head of the loop to the end of the critical section, with the others acting before the test too, is a run of the protocol; the loop is left exactly if the test finds `running_` down. |
| `AsyncLogging.Writer.CollectBatch` | deon/base/AsyncLogging.cpp:70-86 | The writer sleeps exactly if the queue is empty, lets the others in only while it sleeps, and then takes everything. |
| `AsyncLogging.Writer.WriteBatch` | deon/base/AsyncLogging.cpp:88-100 | Cutting and writing the batch, with producers appending between any two writes, is a run of the protocol that writes all of the batch. |
| `AsyncLogging.Writer.ThreadFunc` | deon/base/AsyncLogging.cpp:48-130 | Any number of iterations, under any behaviour of the other threads, is a run of the protocol with that many passes, or fewer if `running_` is down, so all the theorems about runs hold of the heap version. |
| `AsyncLogging.Writer.FileIsPrefix` | deon/base/AsyncLogging.cpp:96-100 | The text in the file of the heap version is a prefix of everything logged unless a batch was overlong. |
| `AsyncLogging.Start` | deon/base/AsyncLogging.h:23-28 | Construction and `start` give the state at the beginning of the empty run. |
| `Decimal.RoundTrip` | deon/base/LogStream.cpp:7-29 | The text of any integer is canonical (no leading zero, minus only for negatives) and reads back as that integer. |
| `Decimal.CanonicalIsUnique` | deon/base/LogStream.cpp:7-29 | A canonical text is the text of the value it reads as, so formatting and reading are inverse in both directions. |
| `Decimal.TextFits` | deon/base/LogStream.cpp:34-42 | Every signed or unsigned 64-bit value has between 1 and 20 characters, which the 32-character guard covers with the NUL. |
| `LogStream.OneDigit` | deon/base/LogStream.cpp:4-17 | With C++'s truncated division, the symmetric table gives the right digit for remainders of both signs, and the quotient loses exactly the last digit of the magnitude. |
| `LogStream.WriteDigits` | deon/base/LogStream.cpp:13-18 | The loop leaves the decimal digits of the magnitude, last first, and writes nowhere else; this includes the most negative value, which is never negated. |
| `LogStream.TextReversed` | deon/base/LogStream.cpp:20-26 | Backward digits with the sign at the end, turned round, are the canonical text. |
| `LogStream.Convert` | deon/base/LogStream.cpp:7-29 | For every 64-bit value the characters at `buf` are its canonical text, followed by NUL, the result is its length, and the rest of the storage is unchanged. |
| `LogStream.GuardIsExact` | deon/base/LogStream.h:25-25 | What passes the guard of `append` has room if and only if the length is below 2^31 or the length cast to `int` is not below the room. |
| `LogStream.LongTextPassesGuard` | deon/base/LogStream.h:25-25 | A text of 2^31 characters passes the guard of an empty stream. |
| `LogStream.FixedBuffer.Append` | deon/base/LogStream.h:23-30 | A text for which the guard is sound is appended whole or, when it would not leave a character free, not at all. |
| `LogStream.FixedBuffer.Add` | deon/base/LogStream.h:37-37 | The content grows by the characters the cursor passes over. |
| `LogStream.FixedBuffer.Reset` | deon/base/LogStream.h:39-39 | The content is empty and the storage is kept. |
| `LogStream.Stream.FormatInteger` | deon/base/LogStream.cpp:34-42 | The content grows by the canonical text of the value if 32 characters are free and is unchanged otherwise; the cursor stays in bounds. |
| `LogStream.Stream.AppendText` | deon/base/LogStream.h:99-105 | A string for which the guard is sound is appended whole or dropped. |
| `LogStream.Stream.AppendChars` | deon/base/LogStream.h:85-92 | A C string for which the guard is sound is appended whole or dropped; a null pointer reads `(null)`. |
| `LogStream.Stream.FormatReal` | deon/base/LogStream.cpp:92-110 | What `snprintf` makes of a floating-point number in 32 characters is appended if 32 characters are free; the NUL behind it stays in bounds. |
| `LogStream.Stream.AppendBool` | deon/base/LogStream.h:54-58 | A truth value is appended as one digit or dropped. |
| `LogStream.Stream.Write` | deon/base/LogStream.h:54-105 | A chain of `<<` of any length, of strings shorter than 2^31, keeps the buffer in bounds and has the effect of its items one after the other. |
| `LogStream.StreamKeepsWholeItems` | deon/base/LogStream.h:23-39 | Whatever is offered, in strings shorter than 2^31, the content stays under the buffer size and is the earlier content followed by whole items, in order. |
| `LogStream.StreamKeepsWhatFits` | deon/base/LogStream.h:23-39 | A chain that fits with 32 characters to spare loses nothing. |
| `LogStream.PutExactly` | deon/base/LogStream.h:23-30 | A string is taken exactly if it leaves one of 4000 characters free, a number exactly if 32 are free. |
| `LoopProtocol.StepKeepsInv` | deon/net/EventLoop.cpp:54-162 | Every step of the loop thread or another thread keeps: executed, batch and pending are the pushes in mutex order; work or a request to quit is never left without a signal owed while the loop can block. |
| `LoopProtocol.ReachedInv` | deon/net/EventLoop.cpp:54-162 | This holds in every state of every run from the construction of the loop. |
| `LoopProtocol.FunctorsRunInOrder` | deon/net/EventLoop.cpp:97-108 | What has been executed is an initial segment of the pushes in mutex order: each at most once, none out of order, also when functors push. |
| `LoopProtocol.NoLostWakeup` | deon/net/EventLoop.cpp:60-72 | In a reachable state with the loop in poll and a functor pending or a quit requested, the edge is set or another thread is still on its way to set it. |
| `LoopProtocol.SwapTakesAllPushedBefore` | deon/net/EventLoop.cpp:148-162 | After the swap, the executed functors and the batch are all the pushes so far: a pass runs just what was pushed before its swap. |
| `LoopProtocol.QuitBeforeLoopIsLost` | deon/net/EventLoop.cpp:58-63 | A run in which `quit` has returned and the loop nevertheless polls with the flag down. |
| `LoopProtocol.OnlyStartClearsQuit` | deon/net/EventLoop.cpp:59-59 | Exactly the start of `loop` takes the flag down. |
| `LoopProtocol.WhoOwesWakeup` | deon/net/EventLoop.cpp:97-108 | A push on the loop thread owes a wakeup exactly while pending functors are being run; a push or quit of another thread always does. |
| `LoopProtocol.OnlyReportClearsEdge` | deon/net/EventLoop.cpp:63-63 | Exactly the poll that reports the edge takes it down. |
| `LoopProtocol.ReadyLoopCanStep` | deon/net/EventLoop.cpp:54-74 | The loop thread always has a next step, except after its end or in a poll with no edge. |
| `LoopProtocol.NextLoopStep` | deon/net/EventLoop.cpp:60-72 | In a fair trace a loop that is not blocked, or is in poll with a signal owed, makes its next step. |
| `LoopProtocol.DebtIsPaidByEdge` | deon/net/EventLoop.cpp:123-131 | When a thread stops owing its wakeup and no loop step came in between, the edge is set. |
| `LoopProtocol.LoopStepLowersRunRank` | deon/net/EventLoop.cpp:60-72 | Every loop step brings a pushed functor nearer: a rank of loop position, queue index and calls left falls until the functor has run. |
| `LoopProtocol.PushedFunctorRuns` | deon/net/EventLoop.cpp:97-108 | In a fair trace every functor that was pushed is executed, unless the loop stops; functors and callbacks may push any number of others. |
| `LoopProtocol.LoopStepLowersQuitRank` | deon/net/EventLoop.cpp:60-83 | Once the flag is up and the loop started, every loop step brings it nearer to its end. |
| `LoopProtocol.QuitStopsLoop` | deon/net/EventLoop.cpp:76-83 | In a fair trace a loop that is told to quit after its start stops, without the poll timeout. |
| `LoopProtocol.LoopGoesOn` | deon/net/EventLoop.cpp:54-83 | A loop that nobody asks to quit after its start goes on, whatever was asked before. |
| `LoopProtocol.StopsExactlyIfAsked` | deon/net/EventLoop.cpp:54-83 | In a fair trace the loop stops if and only if somebody, on the loop thread or another, asks it to quit after its start. |
| `EventLoop.EventLoop.Push` | deon/net/EventLoop.cpp:97-102 | The functor becomes the last pending one and gets the next ticket. |
| `EventLoop.EventLoop.Other` | deon/net/EventLoop.cpp:76-108 | One push, quit or wakeup of another thread is one step of the protocol, and a thread cannot push again before it has made its wakeup. |
| `EventLoop.EventLoop.Others` | deon/net/EventLoop.cpp:76-108 | Any sequence of pushes, quits and wakeups by other threads extends the run by exactly their steps and leaves the loop thread's part of the state alone. |
| `EventLoop.EventLoop.LoopThreadCall` | deon/net/EventLoop.cpp:76-108 | A call on the loop thread is made and noted: a queued functor gets the next ticket, a quit raises the flag; both are runs of the protocol. |
| `EventLoop.EventLoop.QueueOnLoop` | deon/net/EventLoop.cpp:97-108 | On the loop thread a push is followed by a wakeup while pending functors run, with the others acting in between. |
| `EventLoop.EventLoop.QuitOnLoop` | deon/net/EventLoop.cpp:76-83 | On the loop thread `quit` raises the flag and needs no wakeup. |
| `EventLoop.EventLoop.RunCallback` | deon/net/EventLoop.cpp:66-69 | A callback makes exactly its calls, in order, with other threads before the first and after each, and changes neither batch nor execution history. |
| `EventLoop.EventLoop.Swap` | deon/net/EventLoop.cpp:152-155 | What was pending is the batch, and nothing is pending. |
| `EventLoop.EventLoop.SwapOut` | deon/net/EventLoop.cpp:151-155 | Everything pending, including what arrives before the mutex is taken, becomes the batch. |
| `EventLoop.EventLoop.RunBatch` | deon/net/EventLoop.cpp:157-161 | The code of each functor of the batch runs, once and in order, and nothing else does; the tickets recorded as executed are those of these functors. |
| `EventLoop.EventLoop.DoPendingFunctors` | deon/net/EventLoop.cpp:148-162 | What was pending at the call is an initial part of what the pass runs; the calls made are the code of the functors of the batch, in order, and their tickets are what the pass adds to the execution history. |
| `EventLoop.EventLoop.PollAndHandle` | deon/net/EventLoop.cpp:62-70 | A poll ending for any reason, which clears the edge exactly if it reports it, followed by exactly the calls of all callbacks in order, is a run of the protocol. |
| `EventLoop.EventLoop.TestQuit` | deon/net/EventLoop.cpp:60-60 | The loop ends exactly at a test that finds the flag up; one that is up before the test is found. |
| `EventLoop.EventLoop.Loop` | deon/net/EventLoop.cpp:54-74 | Any number of passes, under any behaviour of the other threads and the polls, is a run of the protocol with that many passes, or fewer if the flag is up; the calls made on the loop thread are, pass by pass, those of the callbacks and then the code of the functors that ran, and the functors that ran are those behind the executed tickets, in ticket order. |
| `HttpHeader.RunConcat` | deon/net/Http.cpp:375-473 | The automaton on a concatenation is the automaton on the parts one after the other. |
| `HttpHeader.CallLeavesSuffix` | deon/net/Http.cpp:466-472 | From every resume state, the remaining buffer on success or a request for more is the end of the input. |
| `HttpHeader.BlockIsRead` | deon/net/Http.cpp:375-473 | Completeness: every text of the grammar, whatever follows, succeeds in one call, with the last-wins fold of its lines and the buffer at the first byte behind the terminator. |
| `HttpHeader.BlockSound` | deon/net/Http.cpp:375-473 | Soundness: a successful call has read a text of the grammar, and its headers and remainder are those of that text. |
| `HttpHeader.ParserAcceptsGrammar` | deon/net/Http.cpp:375-473 | A call from the start succeeds if and only if the buffer begins with a header block of the grammar. |
| `HttpRefusal.ParserRefusesExactly` | deon/net/Http.cpp:375-473 | A call from the start is an error if and only if the buffer has, behind leading line breaks and good lines, a line without a space behind its colon, without a value, or with a carriage return not followed by a line feed; on anything else that does not begin with a block it asks for more. |
| `HttpRefusal.BadLineIsRefused` | deon/net/Http.cpp:395-441 | Each of these is an error whatever follows it. |
| `HttpRefusal.RefusedSound` | deon/net/Http.cpp:395-441 | Whatever is an error has one of these in it. |
| `HttpHeader.ReadLaterLines` | deon/net/HttpRequest.h:54-57 | Any number of lines are stored left to right, the last value of a key winning. |
| `HttpHeader.FoldMeans` | deon/net/HttpRequest.h:54-57 | What is stored for a key is the value of the last line with that key. |
| `HttpResume.ResumeExactly` | deon/net/Http.cpp:377-472 | After a first call that asked for more, a second call agrees with one call on everything, for every continuation, if and only if the cut was in `H_START` or inside the first key and that key does not begin with a colon. |
| `HttpResume.BlockInPieces` | deon/net/Http.cpp:375-473 | However a header block is cut, if every cut is in a resumable state, feeding the pieces ends in exactly the state of one call on all of it, and leaves what that one call leaves. |
| `HttpResume.ResumableReturns` | deon/net/Http.cpp:378-405 | In such a state, reading the kept text again leads to exactly the state of the first call. |
| `HttpResume.NotResumableFails` | deon/net/Http.cpp:406-472 | In any other state there is a continuation on which the second call differs visibly. |
| `HttpResume.CutInValueLosesTheKey` | deon/net/Http.cpp:417-441 | `H: a` and then `b` with the line end: one call finds the header `H`, two calls find a header with an empty name. |
| `HttpLine.FindFirst` | deon/net/Http.cpp:280-297 | `find` misses no earlier occurrence. |
| `HttpLine.LineRoundTrip` | deon/net/Http.cpp:278-373 | A request line printed as in section 3.1.1 of RFC 7230 is read back as it was meant if and only if its URI is not empty, has no space or question mark, hides no method looked for earlier, and has no slash other than one followed by the version itself. |
| `HttpLine.MethodFound` | deon/net/Http.cpp:295-318 | The method of a printed line is read correctly if and only if no method that is looked for earlier occurs in the URI. |
| `HttpLine.NameNotThere` | deon/net/Http.cpp:295-297 | Another method's name occurs in a printed line if and only if it occurs in the URI. |
| `HttpLine.SpaceFound` | deon/net/Http.cpp:330-339 | What is cut out for the URI ends at the URI's first space. |
| `HttpLine.UriFound` | deon/net/Http.cpp:330-349 | The URI is read back if and only if it is not empty and has neither space nor question mark. |
| `HttpLine.VersionFound` | deon/net/Http.cpp:351-369 | The version is read back if and only if the first slash inside the URI, if any, is followed by it. |
| `HttpLine.LineMeans` | deon/net/Http.cpp:278-373 | Of a printed line with any URI the path up to the first space or question mark is taken for the URI, and the index page if that is empty; method and version are as printed. |
| `HttpLine.QueryIsDropped` | deon/net/Http.cpp:339-349 | A path with a query is read as the path, an empty path as the index page. |
| `HttpLine.MethodMeans` | deon/net/Http.cpp:295-318 | The method of any line is the first of GET, POST and HEAD that is somewhere in it, at its first place. |
| `HttpLine.LineWithoutSlash` | deon/net/Http.cpp:319-326 | A line with a method and no slash asks for the index page in version 1.1. |
| `HttpLine.LineWithoutMethod` | deon/net/Http.cpp:314-318 | A line without a method is refused. |
| `HttpLine.LineCutShort` | deon/net/Http.cpp:330-356 | A line with a slash is refused if no space follows it, or no second slash. |
| `HttpLine.VersionMeans` | deon/net/Http.cpp:357-369 | Exactly the texts 1.0 and 1.1 are known versions. |
| `HttpLine.SubdirectoryIsRefused` | deon/net/Http.cpp:351-369 | `GET /a/b.html HTTP/1.1` is an error. |
| `HttpPipeline.CrlfEndsLine` | deon/net/Http.cpp:280-293 | The first CRLF of a stream that begins with a printed line is the end of that line. |
| `HttpPipeline.MessageIsParsed` | deon/net/Http.cpp:82-118 | A printed request, whatever follows it, gives back its line and its headers and leaves what follows. |
| `HttpPipeline.OneIsLineAndBlock` | deon/net/Http.cpp:82-118 | Soundness: what is parsed as one request is a line up to the first CRLF that the line parser accepts, a header block of the grammar, and the untouched rest. |
| `HttpPipeline.ParserAcceptsRequests` | deon/net/Http.cpp:82-118 | A buffer is parsed as a request if and only if it begins with a good line and a header block. |
| `HttpPipeline.CutWaits` | deon/net/Http.cpp:280-405 | A printed request may be cut anywhere up to the end of its first key, if that does not begin with a colon: the connection waits and can go on. |
| `HttpPipeline.PipelineRoundTrip` | deon/net/Http.cpp:260-373 | Any number of requests printed one behind the other and parsed with a fresh state each come back with the same methods, URIs, versions and header maps, and trailing bytes are untouched. |
| `HttpPipeline.LineInPieces` | deon/net/Http.cpp:280-293 | However the stream is cut, feeding the chunks until the request-line parser stops asking gives the result and the total leftover of one call on all of it. |
| `HttpPipeline.MoreBehindLine` | deon/net/Http.cpp:280-293 | Bytes behind a complete line change nothing but the leftover. |
| `Sockets.DrainConsumes` | deon/net/Util.cpp:118-147 | Reading that brings bytes uses up what the socket will deliver, so the recursion of `handleRead` ends. |
| `Sockets.DrainMeans` | deon/net/Util.cpp:118-147 | A drain takes the bytes of all results in front of the first that is neither data nor an interrupt, which says how it ends. |
| `Sockets.SendAll` | deon/net/Util.cpp:175-207 | A socket whose next write takes all it is offered leaves nothing buffered. |
| `Sockets.SendMeans` | deon/net/Util.cpp:175-207 | A hard error breaks the connection if and only if it comes before any other refusal and before the counts in front of it are enough; the lesser of their sum and what there is to send has been sent. |
| `Sockets.SendShort` | deon/net/Util.cpp:175-207 | When the counts in front of the first refusal are not enough, what they sum up to is sent, and what is left of the script is behind the refusal. |
| `Sockets.SendEnough` | deon/net/Util.cpp:175-207 | When they are, everything is sent with as few outcomes as are enough, and the rest of the script is left. |
| `Http.Http.constructor` | deon/net/Http.cpp:34-55 | A new connection is clean, waits for input with ET and ONESHOT, has nothing on either stream, and will be answered as the arguments say. |
| `Http.Http.Readn` | deon/net/Util.cpp:118-147 | Everything up to the first dry, ended or broken read is appended to the buffer, interrupted reads are repeated, and the result tells which of the three it was. |
| `Http.Http.Writen` | deon/net/Util.cpp:175-207 | What goes on the wire is exactly what the outcomes of `write` allow, with interrupted writes repeated; it leaves the buffer, except after a hard error, when the buffer is not trimmed. |
| `Http.Http.ParseRequestLine` | deon/net/Http.cpp:278-294 | The line is cut off the buffer before it is judged; without a line end nothing changes; a refused line leaves in the fields what had been read of it. |
| `Http.Http.ParseLine` | deon/net/Http.cpp:295-373 | The step-by-step parser computes what the parsing function says about which the round trip is proved. |
| `HttpIndices.ReadStep` | deon/net/Http.cpp:380-465 | One turn of the index loop moves the five indices so that they again describe one step of the automaton. |
| `Http.Http.OneChar` | deon/net/Http.cpp:382-464 | The switch does for one character what the automaton does, and keeps the indices in order and in bounds. |
| `Http.Http.ParseRequestHeader` | deon/net/Http.cpp:375-473 | From each of the seven resume states and for any buffer, the index loop does what the automaton does; all slices are ordered and in bounds, and on error the buffer is unchanged. |
| `HttpHeader.CallSuffix` | deon/net/Http.cpp:466-472 | The input buffer stays a suffix of the bytes received. |
| `Http.Http.InitParse` | deon/net/Http.cpp:260-265 | The parser is as after construction; the input buffer is kept. |
| `Http.Http.HandleError` | deon/net/Http.cpp:205-225 | The page for this code and message is on the wire, as the last thing there, behind a prefix of the responses. |
| `HttpPage.LengthIsRight` | deon/net/Http.cpp:205-224 | The number in the page's header reads as the number of characters behind the blank line. |
| `HttpPage.SpaceBehindCode` | deon/net/Http.cpp:214-214 | There is a space behind the status code, as section 3.1.2 of RFC 7230 has it, if and only if the message brings one along. |
| `Http.Http.Refuse` | deon/net/Http.cpp:65-70 | The connection has failed and the page for 400 is on the wire. |
| `Http.Http.AnalysisRequest` | deon/net/Http.cpp:475-549 | A GET or HEAD is recorded as served with exactly the fields and headers parsed, its response appended to the stream, and `keepAlive_` set if asked for; any other method is refused without output. |
| `Http.Http.Respond` | deon/net/Http.cpp:491-546 | The next response, or part of one, joins the stream of responses behind all earlier ones; with a part, the page for its code goes on the wire. |
| `Http.Http.HandleWrite` | deon/net/Http.cpp:189-203 | On a healthy connection the output is offered once, with the effect of `writen`, and what is left is waited for; after a failure nothing changes, so the untrimmed buffer is never sent again. |
| `Http.Http.LineStage` | deon/net/Http.cpp:82-101 | Go on, wait or fail, exactly as the line is complete and good, incomplete, or bad; waiting changes nothing, failing sends the page for 400. |
| `Http.Http.HeaderStage` | deon/net/Http.cpp:103-128 | Go on, wait or fail, exactly as the header block is finished, unfinished, or bad, with the automaton's state, headers and buffer; failing sends the page for 400; only a POST has its length checked. |
| `Http.Http.LengthStage` | deon/net/Http.cpp:130-150 | A POST fails exactly without a length, with a page that says so, and waits exactly while the buffer is shorter than it. |
| `Http.Http.AnalysisStage` | deon/net/Http.cpp:152-165 | A GET or HEAD is answered with the next response, or with part of one and a page, and may raise the keep-alive flag; anything else fails without a page and leaves the flag. |
| `Http.Http.AnswerRequest` | deon/net/Http.cpp:152-165 | The same as one effect on the whole connection, keep-alive flag and timeout included. |
| `Http.Http.ParseAndServe` | deon/net/Http.cpp:82-165 | In every state of the parser, exactly: waiting in the same or a later state with nothing served or sent, failing with the page that belongs to the failure, or answering one request with its response behind the output and the rest of the buffer left. |
| `Http.Http.ServeRest` | deon/net/Http.cpp:103-165 | The same for the stages behind the request line. |
| `Http.Http.CheckAndServe` | deon/net/Http.cpp:130-165 | The same for the length check and the answer. |
| `HttpStages.PhaseGrows` | deon/net/Http.cpp:280-473 | A parser that stands where reading all of a text at once would go on still does when more bytes arrive. |
| `HttpStages.AdvanceParsed` | deon/net/Http.cpp:82-128 | A request that is complete is asked for with the fields and headers of one reading from the beginning, however many pieces it came in. |
| `HttpStages.PostMeans` | deon/net/Http.cpp:119-165 | A POST is bad without a length, waited for while there is less behind it than its length says, and otherwise gets through the checks but is not served. |
| `HttpStages.AdvanceWaits` | deon/net/Http.cpp:82-128 | A request that is incomplete, and may be cut there, is waited for, and the parser stands where one reading of all of it would go on. |
| `Http.Http.ReadAndServe` | deon/net/Http.cpp:59-166 | Exactly: old and new bytes together decide what is served; a read that brings nothing changes nothing, one that fails sends a page, one that ends the stream serves nothing. |
| `Http.Http.EndRead` | deon/net/Http.cpp:168-186 | Exactly: the output is offered to the socket once; the callback goes round again on a healthy connection with unread input and a finished request, whose parser is then clean. |
| `Http.Http.ReadRound` | deon/net/Http.cpp:59-186 | One time round is reading, the stages and the offer of the output, and goes round again exactly when a request has been answered and there is more in the buffer. |
| `HttpStages.CallbackHandles` | deon/net/Http.cpp:57-187 | What the callback comes to, through all its rounds: a failed read and a bad request send a page, the end of the stream ends the connection without an answer, nothing read changes nothing, an incomplete request waits, and a good one is answered and is the only one that is if nothing more can be read. |
| `HttpStages.OnePerDrain` | deon/net/Http.cpp:57-187 | For any script of the socket, a callback answers at most one request for each time it drains the socket of something, and what was served before stays. |
| `HttpStages.DrainsServe` | deon/net/Http.cpp:57-187 | Of requests that are all in the buffer, the callback answers exactly as many as there are drains that bring something, the first ones in order; with as many drains as requests, all of them. |
| `HttpStages.HasInputMeans` | deon/net/Channel.cpp:33-36 | The read callback is called on EPOLLIN, EPOLLPRI and EPOLLRDHUP. |
| `HttpStages.AgainHasRead` | deon/net/Http.cpp:178-184 | The callback goes round again only when it has read something, so its recursion ends. |
| `HttpStages.CallsMean` | deon/net/Channel.cpp:33-40 | What the callbacks of an event come to: each exactly on its events, and nothing without one. |
| `Http.Http.HandleRead` | deon/net/Http.cpp:57-187 | For everything the socket may do, through all rounds, the callback's effect on parser, requests served, output, wire, registration and scripts is exactly the one about which `CallbackHandles` and `OnePerDrain` are proved. |
| `Http.Http.HandleRegister` | deon/net/Http.cpp:232-258 | The connection is closed exactly if it failed or ended; otherwise it waits for EPOLLOUT if it did before, for input if not, with 300 000 ms if its keep-alive flag is up and 2 000 ms if not. |
| `Http.Http.HandleEvents` | deon/net/Channel.cpp:23-42 | Whatever the events and the socket do, a connection that stays open with output left is registered for EPOLLOUT, and once it is, it never again waits for input; its timeout is 300 000 ms exactly if its keep-alive flag is up, which is never taken down; each event has exactly the effect of its callbacks, and a failed or ended stream closes the connection. |
| `Http.Http.Callbacks` | deon/net/Channel.cpp:33-40 | The read callback comes before the write callback, each exactly on its events. |
| `Http.Http.Serve` | deon/net/Http.cpp:57-258 | Over any number of event batches the wire only grows and carries a prefix of the responses in request order and behind it nothing or, as the last thing, an error page; while the connection is open, wire and output buffer together are all responses. |
| `HttpService.ServeEach` | deon/net/Http.cpp:57-265 | End to end: a client that sends any list of GET and HEAD requests, each printed as RFC 7230 has it, in any number of pieces cut where the parser can go on, and each when the answer before has been taken, has every request served with the method, URI, version and headers it meant, gets every answer completely and in order, and the connection is ready for the next, for 300 000 ms exactly if one of the requests asked for that. |
| `HttpService.PieceComes` | deon/net/Http.cpp:57-187 | A piece that leaves the request incomplete, cut where the parser can go on, changes nothing but how much has been read. |
| `HttpService.LastPieceComes` | deon/net/Http.cpp:57-187 | The last piece has the request served as it was meant, the answer offered once, and what is behind the request left in the buffer. |
| `HttpService.ServeOne` | deon/net/Http.cpp:57-265 | One request in any number of pieces is served, its answer sent, and the connection ready again; it is kept for 300 000 ms exactly if this or an earlier request asked for that, in the last of its `Connection` lines, and for 2 000 ms otherwise. |
| `HttpService.ServeBurst` | deon/net/Http.cpp:57-187 | Of any list of requests that come at once exactly the first is served; the text of all others stays in the buffer over any number of events that bring nothing. |
| `HttpService.BurstOnNewConnection` | deon/net/Http.cpp:34-187 | The same from the constructor on: of any list of requests sent at once over a new connection exactly the first is answered, and its answer is all there is on the wire. |
| `HttpService.TwoAtOnce` | deon/net/Http.cpp:34-187 | The instance for two GETs for one file. |
| `HttpService.ServeNoneAtEnd` | deon/net/Http.cpp:71-75 | Requests that come together with the end of the stream are not served, and nothing is sent. |
| `HttpService.WriteOut` | deon/net/Http.cpp:189-203 | An output taken in pieces over any number of events is on the wire as far as the pieces add up, in order; when they add up to all of it, every response is there whole; the connection closes exactly if a write fails. |
| `HttpService.ServeUntilReset` | deon/net/Http.cpp:189-203 | When the peer resets the connection before the answer has been taken, what was taken is on the wire and the connection is closed. |
| `HttpService.ServeWithPartialWrite` | deon/net/Http.cpp:232-258 | For any request whose answer the socket takes in two parts, the connection ends up with nothing to send and registered for EPOLLOUT only. |
| `TimerClock.ReadingIsMillis` | deon/net/Timer.cpp:18-29 | The reading is real time in milliseconds modulo ten million. |
| `TimerClock.ClockMeans` | deon/net/Timer.cpp:18-29 | The clock starts anew every ten thousand seconds, counts a thousand for every second in between, and is seconds times a thousand plus milliseconds before the first wrap. |
| `TimerClock.NeverEarly` | deon/net/Timer.cpp:18-37 | A timer that has fired was set at least its timeout ago, also across the wrap. |
| `TimerClock.FiresOnTime` | deon/net/Timer.cpp:25-37 | Within one clock period a timer has fired exactly when its timeout has passed. |
| `TimerClock.FiresAtDeadline` | deon/net/Timer.cpp:25-37 | A deadline before the wrap is met the moment it is due. |
| `TimerClock.FiresEver` | deon/net/Timer.cpp:18-37 | A timer fires at some time if and only if its deadline lies before the wrap. |
| `TimerClock.NeverFires` | deon/net/Timer.cpp:18-37 | Two seconds that are set one second before the wrap never expire. |
| `Poller.EarliestExists` | deon/net/Timer.h:26-43 | A queue that is not empty has a top under `TimerCmp`. |
| `Poller.TimerNode.constructor` | deon/net/Timer.cpp:5-23 | A timer holds its connection and the deadline of its timeout. |
| `Poller.Poller.OneTimerEach` | deon/net/EpollPoller.cpp:49-78 | In every consistent state an open connection has exactly one timer that holds it, the one it points to; a closed one has none and has been closed once. |
| `Poller.Poller.AddTimer` | deon/net/EpollPoller.cpp:110-117 | A connection without a timer gets a fresh one with the right deadline, and everything agrees. |
| `Poller.Poller.AddChannel` | deon/net/EpollPoller.cpp:49-59 | A connection on an unused descriptor is open with a timer afterwards, and everything agrees, if and only if the kernel accepts it; no other connection changes. |
| `Poller.Poller.DeleteChannel` | deon/net/EpollPoller.cpp:70-78 | Both asserts hold and exactly this connection is closed. |
| `Poller.Poller.DeleteTimer` | deon/net/Http.cpp:267-276 | No queued timer holds the connection any more, and no other timer is touched. |
| `Poller.Poller.HandleRegister` | deon/net/Http.cpp:232-258 | After an event the connection has a new timer with a new deadline or is closed once; everything agrees afterwards if and only if the kernel accepted the change or the connection was closed. |
| `Poller.Poller.Destroy` | deon/net/Timer.cpp:12-16 | Destroying a timer closes exactly the connection it still holds. |
| `Poller.Poller.ExpireTop` | deon/net/Timer.cpp:53-60 | A turn of the sweep removes a timer with the least deadline if that has passed, and closes the connection it holds, if any. |
| `Poller.Poller.HandleExpired` | deon/net/Timer.cpp:51-61 | With a clock read anew in each turn and not wrapping meanwhile, the sweep ends, leaves exactly the timers not expired at the last reading, and closes exactly the open connections whose timers are. |
| `Poller.Poller.SweepIsNeverEarly` | deon/net/Timer.cpp:18-61 | A sweep closes no connection before the timeout it was last registered with has passed in real time. |
| `Poller.Poller.Accept` | deon/net/EpollPoller.cpp:49-59 | The new descriptor is open with its deadline and no other changes. |
| `Poller.Poller.Event` | deon/net/Http.cpp:232-258 | The descriptor gets a new deadline or is closed; stale timers stay queued without effect. |
| `Poller.Poller.Sweep` | deon/net/Timer.cpp:51-61 | Exactly the open descriptors whose deadline has passed at the last reading are closed, whatever stale timers the queue has. |
| `Poller.Poller.Serve` | deon/net/EpollPoller.cpp:49-117 | Over any run of accepts, events and sweeps, maps, timers and connections stay in agreement, no connection is closed twice, and the open descriptors with their deadlines are what the history says: set by accept and by each event that goes on, removed by an event that does not and by a sweep past the deadline. |
| `LoopPool.RoundGoesOnceToEach` | deon/net/EventLoopThreadPool.cpp:26-37 | Within n consecutive calls each loop is chosen at most once, and within all n exactly once. |
| `LoopPool.Fair` | deon/net/EventLoopThreadPool.cpp:26-37 | In any window of calls the numbers of connections of two loops differ by at most one. |
| `LoopPool.EventLoopThreadPool.constructor` | deon/net/EventLoopThreadPool.cpp:3-9 | No loops yet, and the base loop is known. |
| `LoopPool.EventLoopThreadPool.Start` | deon/net/EventLoopThreadPool.cpp:15-24 | One more loop for each thread behind those there are, in the order they were started. |
| `LoopPool.EventLoopThreadPool.GetNextLoop` | deon/net/EventLoopThreadPool.cpp:26-37 | With n threads the k-th call after the start returns loop k mod n, or the base loop if there are no loops; loops of a second start are never returned. |
| `CountDownLatch.RunKeepsInv` | deon/base/CountDownLatch.cpp:9-22 | Over any interleaving, with spurious wakeups: a thread is asleep only while the count is up, and through only once it is down. |
| `CountDownLatch.WaitIsExact` | deon/base/CountDownLatch.cpp:9-22 | Nobody returns from `wait` before n count-downs, and nobody is asleep after them. |
| `CountDownLatch.TestMeans` | deon/base/CountDownLatch.cpp:9-14 | A thread that tests gets through if and only if the count is down. |
| `CountDownLatch.EverybodyGetsThrough` | deon/base/CountDownLatch.cpp:9-22 | Once the count-downs have been made, every thread is through or its own next step gets it through. |
| `LoopStart.RunKeepsInv` | deon/net/EventLoopThread.cpp:23-46 | Every interleaving of `startLoop` and `threadFunc` keeps the handshake's invariant. |
| `LoopStart.StartReturnsLoop` | deon/net/EventLoopThread.cpp:23-46 | `startLoop` leaves its wait only after the publication; as long as no loop ends before its address is out, it does not sleep once the loop is there and does not return null. |
| `LoopStart.StarterReturns` | deon/net/EventLoopThread.cpp:23-41 | Once the loop is there, at most two steps of the starter alone bring it to its return with the address. |
| `LoopStart.EarlyEndHangs` | deon/net/EventLoopThread.cpp:29-45 | If the loop has ended before the starter's next test, the starter never gets out of its wait. |
| `LoopStart.EarlyEndIsReached` | deon/net/EventLoopThread.cpp:32-45 | Such a state, and one with a null return, would be reached if a loop could end before its address is out; no caller in the source can bring that about. |

## Left out

- Header cuts behind the first key: the code does not resume them, which is proved, so nothing more is claimed of them.
- `stop` draining the log: the writer leaves its loop without a last collect, which is proved.
- The raw-pointer `readn` and `writen`, `writenwc`, `s2ws`, `ws2s` and the socket setup in deon/net/Util.cpp.
- Http.Http.AnalysisRequest: `stat`, `open`, `mmap`, the MIME table and the `hello` special case, which overwrites pending output, are not modelled; what each request is answered is a parameter.
- Http.Http.Respond: the same.
- Http.Http.HandleError: all of the page is taken to reach the socket; the raw-pointer `writen` behind it is not modelled.
- Http.Http.LengthStage: the exceptions of `stoi` are not modelled; it is a parameter. The body of a POST is never consumed, and a POST is refused in the end.
- Http.Http.HandleRegister: the connection with its streams (`Http`) and its lifecycle with timers (`Poller`) are two models of the two halves of `handleRegister`.
- Poller.Poller.Accept: `epoll_ctl` is taken to succeed; what a refusal does is stated by `AddChannel` and `HandleRegister`, after which the agreement is gone.
- Poller.Poller.Event: the same.
- Poller.Poller.ExpireTop: the priority queue is modelled by its contract, a least element comes first, and not as a heap in an array; shared-pointer counts are replaced by the explicit destruction of a node that leaves the queue.
- Poller.Poller.Serve: runs in which `epoll_ctl` refuses are left out, because the agreement does not survive them; expiry may happen between any two events although the loop never starts it.
- AsyncLogging.AsyncLogging.constructor: the assert on the length of the file name is not modelled.
- AsyncLogging.AsyncLogging.Stop: the notify can only end a sleep, which may end at any time in the model; the join is not modelled.
- AsyncLogging.Start: starting the thread and waiting for its latch are not part of it; the latch is `CountDownLatch`.
- AsyncLogging.Writer.ThreadFunc: a number of passes is a parameter, since a method has to end; the theorems about the protocol have no such bound.
- EventLoop.EventLoop.Loop: the same, and a callback makes a finite list of calls that is given in advance.
- `runInLoop` on the loop thread calls its argument directly, which is part of the callback that called it; from another thread it is `queueInLoop`.
- The wakeup channel's `handleRead` and its registration: the wakeup rests on the edge alone.
- The eventfd's counter, and a write to it that fails.
- LogProtocol.AppendAddsNewest: a negative `len` is not modelled, and an address is not told from its text.
- `FileUtil` and `LogFile`: the log file is a text that is appended to; flushing and failing writes are not modelled.
- LogStream.Stream.FormatReal: what `snprintf` makes of a number is a parameter.
- LogStream.FixedBuffer.Add: the source does not check that the cursor stays inside the storage; the model asks its callers to, and the one there is does.
- LogStream.FixedBuffer.Append: the copy of a text that passes the guard without having room is not defined and not modelled; `GuardIsExact` says which texts those are.
- Integer widths other than those of the 64-bit formatter and the guard of `append`.
- LoopPool.EventLoopThreadPool.constructor: a negative number of threads is not modelled.
- HttpService.ServeEach: a request is not followed through a cut behind its first key, where the parser does not go on, nor an answer through a partial write, after which the connection waits for no further request; both are proved.
- The accept loop of `Server`, the options of Deon.cpp, timestamps, pthread wrappers and thread-local ids.
- Wall-clock bounds and real scheduling: liveness is stated for weakly fair traces.
