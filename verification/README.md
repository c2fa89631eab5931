# Verified models of the HR portal's concurrent core and of the toolchain code it ships with

The portal bundles the Go toolchain it is built with (`local_go`). This project models the parts of
the repository whose correctness is not evident from reading one function, and proves what they
promise, for all inputs, all runs and all interleavings. `dafny verify dfyconfig.toml` checks
everything.

| file | models |
|---|---|
| `Context.dfy`, `ContextSafety.dfy`, `ContextProgress.dfy`, `ContextRelease.dfy`, `ContextCalls.dfy` | the cancellation tree of package context, as a transition system whose steps are single lock, unlock, load, store and poll actions; what callers get is stated over the calls of a schedule |
| `Pipe.dfy`, `PipeCalls.dfy` | io.Pipe: a mutex, two unbuffered channels and a done channel, as a transition system; what callers get is stated over the calls of a schedule |
| `Io.dfy`, `TextLines.dfy`, `Scanner.dfy`, `BufReader.dfy`, `BufWriter.dfy` | buffered input and output; `Io.dfy` has a reader that cuts its data anywhere and may stall, and a writer that may take any prefix and fail; `TextLines.dfy` says what the lines of an input are |
| `Buffer.dfy` | bytes.Buffer: a queue in a slice that is resliced, slid down or reallocated |
| `Runes.dfy`, `Bytes.dfy` | Index, Count, Split, Join and Replace on byte slices |
| `Utf8.dfy`, `Html.dfy` | EncodeRune; in-place decoding of character references |
| `Handles.dfy` | the table of JavaScript values that Go code refers to, and the encoding of references as NaNs |
| `Format.dfy` | integer formatting from right to left |
| `ExitFilter.dfy` | the filter that holds back a trailing exit code |
| `Image.dfy` | chroma-subsampled image planes |
| `Flag.dfy` | command-line parsing |
| `Embed.dfy` | the sorted index of embedded files |
| `Jobs.dfy` | the portal's own idempotent job runner |
| `Base.dfy`, `Concatenation.dfy` | shared types, and sequences in parts |

Objects that the sources update in place are classes here, with the same fields; their methods are
proved against functions of the abstract contents (the unread stream, the bytes accepted, the queue),
and the theorems are about those functions or about drivers that run the methods on any input.
The concurrent sources (context.go, pipe.go, jobs.go) are transition systems: a state is reachable
if some schedule of steps leads to it, so a statement about reachable states is a statement about
every interleaving. The proof for the tree is by rely and guarantee: what each program counter of
each goroutine knows is stable under the steps of all others.

Readers and writers obey the contracts of package io: a count lies between 0 and the length, and a
short write comes with an error. Beyond that they are arbitrary. Tables of HTML entities are a
parameter; what is assumed of them (`Html.TablesOk`) is what `html/entity_test.go` checks, together
with the entries amp;, lt; and gt; (and, for `Html.NamedConforms`, that names have the form of the
standard's table, `Html.NamesOk`). The setters of flags, the failures of jobs, readings of the
clock and the capacity that an allocation is rounded up to are arbitrary too.

## Where the code differs from what is promised

The models follow the code. In these places a documented or natural promise is false; an input shows
it, and the condition under which it holds is proved in both directions:

- A numeric character reference is accumulated in an int32 that wraps around, so `&#x100000041;`
  decodes to `A`; a single decimal digit needs its semicolon; and `&#x;` becomes U+FFFD instead of
  staying as it is (`Html.NumericConforms`, with inputs in `Html.OverflowExample` and
  `Html.DigitExamples`).
- Chroma planes are computed with division that truncates towards zero. An image with a negative
  lower bound whose upper bound is 0 or just below has pixels without a chroma sample
  (`Image.PlanesContainPixels`, with an input in `Image.MisalignedExample`).
- A stored -0 is loaded as 0 (`Handles.LoadReturnsStored`, with an input in
  `Handles.NegativeZeroIsLost`).
- `ScanLines` is documented to take off `\r?\n`, but also takes a final carriage return off a last line
  without newline, which `Reader.ReadLine` does not (`TextLines.LinesAreStripped`, with an input in
  `TextLines.FinalCarriageReturn`).
- `UnreadByte` and `UnreadRune` of bytes.Buffer return nil but put nothing back after a `Grow` that
  moved the contents (`Buffer.UnreadAfterGrow` and `Buffer.UnreadRuneAfterGrow`, with an input in
  `Buffer.GrowForgetsRead`).
- `UnreadByte` of bufio.Reader is documented to unread the last byte after a `ReadLine`. If `ReadLine`
  has put a carriage return back, it overwrites the byte in front of it with a second one
  (`BufReader.UnreadLine`, with an input in `BufReader.CarriageReturnIsDoubled`).
- The exit-code filter drops what its writer does not take, so that forwarded and held bytes fall short
  of the input if and only if the writer has refused some (`ExitFilter.ExitCodeFilter.Write` and
  `ExitFilter.Filter`, with an input in `ExitFilter.ByteIsLost`). An exit code beyond an int is an error.
- `UnreadByte` of bytes.Buffer is documented to return an error if the last read did. Behind a `ReadBytes`
  that has found no delimiter it returns nil; if nothing was left to read, it may put back a byte that an
  earlier call has read
  (`Buffer.UnreadAfterRead`, with an input in `Buffer.ReadBytesIsUnread`).
- `ReadBytes`, and a loop over `ReadLine`, go on for ever with a reader whose own error is
  bufio.ErrBufferFull, unless the delimiter comes (`BufReader.FragmentTurns` and `BufReader.LineTurns`, with
  an input in `BufReader.EndlessReads`). A reader that stalls may end them with ErrNoProgress.
- `NewYCbCr` panics for a small image at the largest coordinates, where rounding up a bound wraps around
  (`Image.NewYCbCr`, with an input in `Image.LargestPixel`).
- The length of the result of `Replace` can wrap around an int; the text is returned if and only if its
  length is an int (`Bytes.Replace`, with an input in `Bytes.OverflowingReplace`).

## Model

| member | source | states |
|---|---|---|
| Context.FindValue | local_go/src/context/context.go:761-792 | the loop over a variable answers what the chain of contexts answers, ending at the root |
| Context.ValueIsInnermost | local_go/src/context/context.go:761-792 | on every path outwards, Value is answered by the first context that has an answer |
| Context.CancelOfIsOlder | local_go/src/context/context.go:283-297 | the cancelCtx found through Value(&cancelCtxKey) is the context itself or one it wraps, and is a cancelCtx |
| Context.CancelOfByKind | local_go/src/context/context.go:283-307 | WithValue contexts are looked through, a context that WithCancel made is its own answer, and nothing is found through WithoutCancel or at the root |
| Context.UserValueByKind | local_go/src/context/context.go:761-792 | a key is answered by the first WithValue from the inside outwards that has it, and by nil if there is none |
| ContextSafety.StepKeepsInv | local_go/src/context/context.go:462-566 | every atomic action of every goroutine (lock, field write, channel poll, unlock) keeps the invariant of the tree: who holds which mutex, what a running cancel still has to sweep, what a registration has promised |
| ContextSafety.RunKeepsInv | local_go/src/context/context.go:462-566 | so does every interleaving of any length |
| ContextSafety.ReachableInv | local_go/src/context/context.go:462-566 | the invariant holds in every state that can be reached from no contexts at all |
| ContextSafety.EnclosingComplete | local_go/src/context/context.go:462-465 | the context that a usable context propagates from has itself been completely constructed |
| ContextSafety.SweptBelow | local_go/src/context/context.go:553-560 | once cancel has swept a context, err, cause and a closed done channel have reached every context below it, at any depth |
| ContextSafety.NoLostCancellation | local_go/src/context/context.go:462-492 | whenever the mutex of a context is free: if it is cancelled, every context below it whose constructor has returned is; if not, every such uncancelled child is in its children set |
| ContextSafety.CancelFuncReturns | local_go/src/context/context.go:536-566 | when a CancelFunc returns, its context and all contexts made below it so far are cancelled, also if other goroutines were cancelling parts of the tree meanwhile |
| ContextSafety.CancelFuncUnlinks | local_go/src/context/context.go:389-403 | a CancelFunc that swept its context has taken it out of its parent's children when it returns, unless the parent is cancelled itself; a swept context keeps no children |
| ContextSafety.CancellationIsFinal | local_go/src/context/context.go:546-560 | no step unsets or replaces err, cause, a done channel that was handed out, or its being closed |
| ContextSafety.CauseNeverChanges | local_go/src/context/context.go:546-560 | over every run err and cause, once set, stay what they are, and a closed done channel stays closed |
| ContextSafety.CauseComesWithErr | local_go/src/context/context.go:536-552 | with the mutex free, err, cause and the closed channel are there together or not at all |
| ContextSafety.CauseHasProvenance | local_go/src/context/context.go:245-297 | in every run, the err and the cause of a context are those that one call was given which cancelled it, the cause being the err if none was given, or else those of its parent; so one call that cancelled it or an ancestor was given both |
| ContextSafety.ParentFirst | local_go/src/context/context.go:245-253 | a context that no call has cancelled directly by the time its parent is swept reports the parent's cause from then on, in every further run |
| ContextSafety.NeverPanics | local_go/src/context/context.go:536-552 | with the standard contexts cancel never sees a nil err, never closes a channel twice, and propagateCancel never needs the watcher goroutine |
| ContextCalls.TreeIsMade | local_go/src/context/context.go:235-290 | every call that makes a context makes one of its kind below the context it was given, and nothing else does |
| ContextCalls.CreateReturns | local_go/src/context/context.go:268-290 | when withCancel returns there is a complete context below parent, whatever other goroutines do |
| ContextCalls.CancelReturns | local_go/src/context/context.go:536-566 | after a call that cancels a context has returned, everything below it is cancelled, in every run, also what was made meanwhile |
| ContextCalls.CancelCompletes | local_go/src/context/context.go:536-566 | any usable context can be cancelled by any idle goroutine, and the call can be run to its end |
| ContextCalls.OnlyCallSetsCause | local_go/src/context/context.go:239-281 | if no other call cancels a context or an ancestor, it has exactly the err and the cause of the call that does |
| ContextRelease.CancelledAreLetGo | local_go/src/context/context.go:389-403 | if all calls are to remove their context, then whenever no call is under way a cancelled context has no children, and the children of any other are exactly the uncancelled contexts made from it |
| ContextProgress.StepsOrWaits | local_go/src/context/context.go:553-556 | a goroutine under way can move, or waits for the mutex of a context younger than all whose mutexes it holds |
| ContextProgress.NoDeadlock | local_go/src/context/context.go:553-556 | locking a child while holding its parent never deadlocks: in every reachable state with a call under way some call can move |
| ContextProgress.StepDecreases | local_go/src/context/context.go:536-566 | every step of a call under way lowers a measure, whichever goroutine takes it |
| ContextProgress.RunIsBounded | local_go/src/context/context.go:536-566 | calls under way take no more steps than the measure says, under every schedule |
| ContextProgress.Completes | local_go/src/context/context.go:536-566 | from every state that satisfies the invariant all calls can be run to their end |
| ContextProgress.QuietTreeIsConsistent | local_go/src/context/context.go:462-492 | with no call under way, everything below a cancelled context is cancelled, without exception |
| Pipe.StepKeepsInv | local_go/src/io/pipe.go:50-105 | every step of every goroutine, and every meeting on a channel, keeps the mutex, the pairing of readers and writers, the progress of the write in hand and the meaning of the stored errors |
| Pipe.RunKeepsInv | local_go/src/io/pipe.go:50-105 | so does every interleaving, and stored errors are never replaced |
| Pipe.ConcatAllChunks | local_go/src/io/pipe.go:86-93 | joining the chunks of all writes gives the consumed prefixes one after the other |
| Pipe.DeliveredInOrder | local_go/src/io/pipe.go:50-96 | in every interleaving the bytes handed to reads, in rendezvous order, are the consumed prefixes of the writes in the order of acquiring wrMu: nothing lost, doubled or interleaved |
| Pipe.WriteCountIsExact | local_go/src/io/pipe.go:76-96 | a write returns exactly the number of its bytes that reads took, also with an error; a nil error means all of them, in at least one read |
| Pipe.AckReachesPartner | local_go/src/io/pipe.go:52-56 | the count a reader sends reaches the write whose bytes it copied, and never more than that write has left |
| Pipe.FailureMeaning | local_go/src/io/pipe.go:108-123 | as long as its own side is open, a failing call reports the error the other side was closed with, and no call fails on an open pipe |
| Pipe.CloseErrorIsKept | local_go/src/io/pipe.go:16-33 | the first error each side is closed with is kept for good |
| Pipe.BlockedOnlyForPartner | local_go/src/io/pipe.go:50-96 | when nothing can move, the pipe is open and there are only waiting readers, or only a waiting writer with others behind it |
| Pipe.StepDecreases | local_go/src/io/pipe.go:50-105 | every step of a call under way, meetings included, lowers the work that is left |
| Pipe.RunIsBounded | local_go/src/io/pipe.go:50-105 | calls under way take no more steps than the work that is left, under every schedule |
| Pipe.ClosedPipeDrains | local_go/src/io/pipe.go:50-105 | once the pipe is closed every schedule of the calls under way is bounded, and where none of them can go on all have returned |
| PipeCalls.MeetFills | local_go/src/io/pipe.go:57-61 | a meeting hands over as much as the reader has room for |
| PipeCalls.ReadReturns | local_go/src/io/pipe.go:50-66 | a read that returns has got all it had asked for, or all that the write in hand had left behind earlier reads |
| PipeCalls.WritesAreCalls | local_go/src/io/pipe.go:76-96 | the data of every write on record is what some call of Write was given |
| PipeCalls.WriteTakesFewReads | local_go/src/io/pipe.go:85-95 | as long as no read asks for nothing, no read gets nothing of a write that is not empty, and a write of n bytes takes at most n reads, and one if it is empty |
| PipeCalls.CloseErrorWasGiven | local_go/src/io/pipe.go:68-105 | the error a side is closed with was given to a call that closed it; nil leaves EOF on the write side and ErrClosedPipe on the read side |
| PipeCalls.CloseReturns | local_go/src/io/pipe.go:68-105 | when a closing call has returned, the pipe is closed and that side has its error |
| PipeCalls.NothingAfterClose | local_go/src/io/pipe.go:50-123 | calls that begin on a closed pipe transfer nothing and fail with a count of 0, with ErrClosedPipe if their own side had been closed |
| PipeCalls.CallsReturnOnce | local_go/src/io/pipe.go:50-105 | every call to Read and to Write is under way or has returned, exactly once |
| TextLines.LinesAreTheTexts | local_go/src/bufio/scan.go:349-369 | Lines, the reference for scanning, is the only way to cut an input after each newline, each part then taken without its newline and one carriage return |
| TextLines.LinesExist | local_go/src/bufio/scan.go:349-369 | every input can be cut that way |
| TextLines.LinesAppend | local_go/src/bufio/scan.go:349-369 | cutting an input behind a newline cuts none of its lines |
| TextLines.TextsAgree | local_go/src/bufio/scan.go:342-369 | the text of one line is the line without its end-of-line marker if and only if the line does not end in a carriage return |
| TextLines.LinesAreStripped | local_go/src/bufio/scan.go:342-369 | the tokens are the lines without their markers, as documented, if and only if the last byte of the input is not a carriage return |
| TextLines.FinalCarriageReturn | local_go/src/bufio/scan.go:342-369 | the input A, carriage return is scanned as A |
| Scanner.TokenIsFirstLine | local_go/src/bufio/scan.go:342-369 | what ScanLines finds in a buffered part is the first line of the whole input, whatever follows the buffer |
| Scanner.LimitIsMax | local_go/src/bufio/scan.go:188-206 | doubling a buffer ends at the larger of its size and maxTokenSize, or beyond half of the largest int |
| Scanner.Scanner.Buffer | local_go/src/bufio/scan.go:272-278 | sets the initial buffer and the limit; panics exactly after a Scan |
| Scanner.Scanner.SetErr | local_go/src/bufio/scan.go:257-261 | keeps the first error other than EOF |
| Scanner.AllReadable | local_go/src/bufio/scan.go:139-240 | the lines in front of the first that does not fit are all lines if all fit |
| Scanner.Scanner.MakeRoom | local_go/src/bufio/scan.go:182-206 | moving or growing the buffer keeps the unread input; it fails exactly for a line that cannot fit |
| Scanner.Scanner.ReadOnce | local_go/src/bufio/scan.go:219-231 | one read appends what it delivers to the buffered input |
| Scanner.Scanner.ReadMore | local_go/src/bufio/scan.go:217-238 | any cutting by the reader appends to the buffered input; after 100 empty reads in a row the next one is reported as ErrNoProgress |
| Scanner.Scanner.Advance | local_go/src/bufio/scan.go:243-253 | moves forward within the buffered data or records an error |
| Scanner.TokenEntails | local_go/src/bufio/scan.go:146-181 | a token found in the buffered data is the text of the first line of the whole input, and that line fits |
| Scanner.Scanner.Split | local_go/src/bufio/scan.go:146-181 | a token is the text of the first unread line, and leaves the rest unread |
| Scanner.Scanner.Scan | local_go/src/bufio/scan.go:139-240 | true exactly if a line is left that fits: then the token is its text and the rest stays unread; else at the end, or at a line that does not fit with ErrTooLong; a stalling reader ends the input where it stalls |
| Scanner.ReadLines | local_go/src/bufio/scan.go:139-240 | for every reader, cutting and initial buffer: the tokens are the lines in front of the first that does not fit, and the scan reaches the end if and only if all lines fit, counting a last line without newline as fitting a full buffer exactly if the reader reports its end with the last byte; if the reader stalls, the tokens are the lines of what it delivered; Err tells the three apart, and is nil for a reader that ends with io.EOF |
| BufReader.Reader.Slide | local_go/src/bufio/bufio.go:97-102 | moving the buffered data to the front keeps the stream |
| BufReader.Reader.Fill | local_go/src/bufio/bufio.go:96-124 | adds behind the buffered data what the reader delivers, keeping the stream |
| BufReader.Reader.ReadSlice | local_go/src/bufio/bufio.go:347-386 | the stream through the delimiter if it fits the buffer; otherwise a full buffer or what is left, with the error that says which; the scan resumes where the last one stopped |
| BufReader.Reader.CollectFragments | local_go/src/bufio/bufio.go:446-470 | full buffers and the last fragment make up the stream through the first delimiter; the loop ends if there is a delimiter or the reader's own error is not bufio.ErrBufferFull |
| BufReader.JoinFragments | local_go/src/bufio/bufio.go:477-491 | the copy of the fragments is their concatenation |
| BufReader.Reader.ReadBytes | local_go/src/bufio/bufio.go:477-508 | exactly the stream through the first delimiter and no error, or all of it and the reader's error, for every buffer size and every cutting by the reader; if the reader stalls for 100 reads, possibly what has arrived so far and ErrNoProgress, with the rest still unread; UnreadByte would put back the last byte returned |
| BufReader.FragmentTurns | local_go/src/bufio/bufio.go:446-470 | after k turns, for any k beyond the length of the stream, the loop has ended if there is a delimiter or the reader's own error is not bufio.ErrBufferFull; otherwise, unless the reader stalls, it has not ended for any k |
| BufReader.LineTurns | local_go/src/bufio/bufio.go:404-440 | the same for a client's loop that goes on while ReadLine sets isPrefix |
| BufReader.EndlessReads | local_go/src/bufio/bufio.go:404-470 | the stream a from a reader that ends with bufio.ErrBufferFull: neither loop has ended after k turns, for any k |
| BufReader.Reader.ReadByte | local_go/src/bufio/bufio.go:263-275 | the next byte of the stream, or the reader's error at its end, or ErrNoProgress with nothing taken |
| BufReader.Reader.UnreadByte | local_go/src/bufio/bufio.go:282-299 | puts the byte kept in lastByte in front of the stream, even after the buffer was refilled; refused exactly without such a byte or without a place for it |
| BufReader.Reader.ReadLine | local_go/src/bufio/bufio.go:404-440 | for every reader: a whole line without its terminator, or a piece of one that never ends in a carriage return which may belong to the terminator, and is a full buffer but for that byte unless the reader itself ends with bufio.ErrBufferFull; keeps for UnreadByte the last byte taken off the stream, or the carriage return that was put back |
| BufReader.ReadWholeLine | local_go/src/bufio/bufio.go:404-440 | joining the pieces of ReadLine gives exactly one line of the stream without its terminator, for every buffer size; with a reader that stalls it may be the beginning of a line |
| BufReader.UnreadLine | local_go/src/bufio/bufio.go:398-440 | UnreadByte after ReadLine restores the last byte taken off the stream if and only if no carriage return was put back, or the byte in front of it is one as well |
| BufReader.TextOfPrefix | local_go/src/bufio/bufio.go:404-440 | a piece put before the rest of its line only changes the text of the line by the piece |
| BufReader.FragmentTaken | local_go/src/bufio/bufio.go:446-470 | taking fragments without the delimiter leaves the first delimiter of the stream where it was |
| BufReader.CarriageReturnIsDoubled | local_go/src/bufio/bufio.go:404-440 | with a buffer of 16 bytes, 15 bytes a, a carriage return and b: ReadLine and UnreadByte leave two carriage returns and b |
| BufWriter.Writer.Flush | local_go/src/bufio/bufio.go:632-653 | after a flush without error everything accepted has been taken by the underlying writer; a partial write keeps taken ++ buffered == accepted |
| BufWriter.Writer.Write | local_go/src/bufio/bufio.go:673-695 | accepts exactly the prefix it reports; all of it without an error; nothing and no change of state once an error is set; what fits the buffer is accepted and not passed on yet |
| BufWriter.Writer.WriteByte | local_go/src/bufio/bufio.go:698-708 | accepts the byte if and only if it reports no error |
| BufWriter.Writer.WriteString | local_go/src/bufio/bufio.go:744-775 | like Write, also when long strings go straight to a StringWriter |
| BufWriter.Apply | local_go/src/bufio/bufio.go:632-775 | any call accepts the prefix it reports, in full without an error, and nothing once an error is set |
| BufWriter.WriteAll | local_go/src/bufio/bufio.go:632-775 | over any run of Write, WriteByte, WriteString and Flush: what the underlying writer has taken, followed by what is buffered, is what the calls reported; calls after an error report nothing; with no error from the final Flush all input has been taken, otherwise a prefix of it, and the error is what the underlying writer has returned last |
| BufWriter.ReportedPrefix | local_go/src/bufio/bufio.go:632-775 | what is reported as written is a prefix of what was to be written |
| Utf8.EncodeDecode | local_go/src/unicode/utf8/utf8.go:342-370 | what EncodeRune emits is the shortest-form encoding of section 3 of RFC 3629: it decodes to the rune, or to U+FFFD for a value that is no scalar value |
| Utf8.DecodeNextInverts | local_go/src/unicode/utf8/utf8.go:151-206 | DecodeRune reads the scalar value whose encoding the bytes begin with; if there is none, U+FFFD of size 1 |
| Utf8.ScalarValues | local_go/src/unicode/utf8/utf8.go:31-36 | the scalar values are the code points but for the surrogates |
| Utf8.EncodedLength | local_go/src/unicode/utf8/utf8.go:342-370 | one to four bytes, by section 3 of RFC 3629 |
| Utf8.EncodedExamples | local_go/src/unicode/utf8/utf8.go:342-370 | the encodings of characters in section 7 of RFC 3629 |
| Html.ReferenceFits | local_go/src/html/escape.go:57-164 | every reference is non-empty and its expansion no longer than itself, so writing never overtakes reading |
| Html.WrapStep | local_go/src/html/escape.go:82-105 | wrapping an int32 at every digit is wrapping the whole number once |
| Html.ReadDigits | local_go/src/html/escape.go:82-105 | the longest run of digits, its value as an int32, and the semicolon skipped if there is one |
| Html.UnescapeNumeric | local_go/src/html/escape.go:69-120 | replaces a numeric reference in place and touches nothing else |
| Html.LongestPrefix | local_go/src/html/escape.go:149-159 | an entity without semicolon, and no longer prefix is one |
| Html.FindPrefix | local_go/src/html/escape.go:149-159 | the longest proper prefix of a name, of at most six bytes, that is an entity without semicolon |
| Html.UnescapeNamed | local_go/src/html/escape.go:123-164 | replaces a named reference in place: by the table, by the table of pairs, by a prefix, or not at all |
| Html.UnescapeEntity | local_go/src/html/escape.go:57-164 | replaces the reference at src in place: the bytes from dst are its expansion, all bytes behind it are unchanged |
| Html.UnescapedPlain | local_go/src/html/escape.go:187-214 | text without ampersand is left as it is |
| Html.DecodedNext | local_go/src/html/escape.go:195-212 | one turn of the loop extends the decoded text by the text up to the next ampersand and the expansion there |
| Html.UnescapeString | local_go/src/html/escape.go:187-214 | the in-place loop with its two cursors computes the reference-by-reference decoding of the string |
| Html.EscapedReference | local_go/src/html/escape.go:166-180 | each of the five escapes is read back as its character, whatever follows |
| Html.RoundTrip | local_go/src/html/escape.go:166-187 | UnescapeString(EscapeString(s)) == s for every byte string and every table that meets the assumptions |
| Html.EscapedIsSafe | local_go/src/html/escape.go:166-180 | escaped text has none of the four characters but ampersands, and text is unchanged exactly if it has none of the five |
| Html.NamedConforms | local_go/src/html/escape.go:123-164 | a named reference is decoded as section 13.2.5.73 of the WHATWG HTML Standard says: the longest run of characters that is an entity is replaced by its meaning, and without one the text stays; for tables whose names have the form of the standard's, with at most six bytes if they lack the semicolon |
| Html.FixupConforms | local_go/src/html/escape.go:17-54 | the replacement table and the checks behind it are those of section 13.2.5.80 |
| Html.DigitTable | local_go/src/html/escape.go:86-100 | the value of every digit of the two bases |
| Html.NumericConforms | local_go/src/html/escape.go:69-120 | a numeric reference is decoded as section 13.2.5.80 of the WHATWG HTML Standard and its predecessors say if and only if it is not one decimal digit without semicolon, not &#x; and its number does not exceed U+10FFFF with an int32 wrap that is visible |
| Html.ValueConforms | local_go/src/html/escape.go:82-118 | the wrap-around of the int32 changes the character exactly for numbers above U+10FFFF whose wrapped value is a visible character |
| Html.OverflowExample | local_go/src/html/escape.go:82-105 | &#x100000041; decodes to A |
| Html.DigitExamples | local_go/src/html/escape.go:69-110 | "&#7 " is left alone from its ampersand on, and &#x; becomes U+FFFD |
| Handles.BoxIsNaN | local_go/misc/wasm/wasm_exec.js:139-187 | every boxed value is a NaN whose low bits are the type flag |
| Handles.Go.StoreValue | local_go/misc/wasm/wasm_exec.js:139-187 | takes an id from the pool or a new one for an unknown value, counts the reference and writes its box |
| Handles.Go.LoadValue | local_go/misc/wasm/wasm_exec.js:126-137 | a number as it is, undefined for zero, or the value of the id |
| Handles.Go.FinalizeRef | local_go/misc/wasm/wasm_exec.js:299-310 | drops one reference; the last one frees the id |
| Handles.HeldAppend | local_go/misc/wasm/wasm_exec.js:167-167 | a new reference adds one to the count of its id only |
| Handles.HeldWithout | local_go/misc/wasm/wasm_exec.js:302-302 | a dropped reference takes one from the count of its id only |
| Handles.StoreOk | local_go/misc/wasm/wasm_exec.js:139-187 | storing keeps the table invariant and makes the new reference refer to the value |
| Handles.FinalizeOk | local_go/misc/wasm/wasm_exec.js:299-310 | finalizing an outstanding reference keeps the invariant and every other outstanding reference |
| Handles.RunOk | local_go/misc/wasm/wasm_exec.js:126-310 | so does every run that finalizes each outstanding reference at most once |
| Handles.InitialOk | local_go/misc/wasm/wasm_exec.js:471-489 | the initial tables satisfy the invariant |
| Handles.TableInvariant | local_go/misc/wasm/wasm_exec.js:471-489 | over every such run ids and live values are inverse to each other, pooled ids are distinct and not live, and each dynamic count is the number of outstanding references |
| Handles.LoadReturnsStored | local_go/misc/wasm/wasm_exec.js:126-187 | loading any outstanding reference returns the stored value, NaN, 0 and undefined included; the one exception is -0, which comes back as 0 |
| Handles.NegativeZeroIsLost | local_go/misc/wasm/wasm_exec.js:126-187 | -0 stored first thing is loaded as 0 |
| Handles.BitsDecideEquality | local_go/misc/wasm/wasm_exec.js:157-167 | two outstanding references have equal bits exactly if they were stored for the same value, zeros counting as one |
| Handles.NumbersAreThemselves | local_go/misc/wasm/wasm_exec.js:126-151 | a number other than 0 and NaN is stored as itself and takes no place in the tables |
| Handles.Infinities | local_go/misc/wasm/wasm_exec.js:126-137 | the infinities are loaded as numbers |
| Handles.PredefinedWords | local_go/src/syscall/js/js.go:64-97 | the words that package syscall/js has for the predefined values mean them and are what is stored for them, after any run |
| Handles.FlagIsType | local_go/misc/wasm/wasm_exec.js:170-187 | the type flag of an outstanding boxed reference is 1 for an object, 2 for a string, 3 for a symbol, 4 for a function and 0 otherwise |
| Format.DigitsValue | local_go/src/fmt/format.go:242-272 | the digits of a number read back as the number, in every base |
| Format.ZerosValue | local_go/src/fmt/format.go:275-278 | leading zeros do not change the value |
| Format.DigitsLength | local_go/src/fmt/format.go:242-274 | a number below 2^k has at most k digits |
| Format.TextFits | local_go/src/fmt/format.go:203-214 | every text fits the buffer: 68 bytes, or 3+wid+prec if that is larger |
| Format.BoundIsAttained | local_go/src/fmt/format.go:203-214 | precision 65 with sign and base prefix fills all 68 bytes |
| Format.PutDigits | local_go/src/fmt/format.go:242-274 | the right-to-left digit loops leave the digits of the number at the end of the buffer |
| Format.PutZeros | local_go/src/fmt/format.go:275-278 | zeros are added up to the precision, as far as the buffer goes |
| Format.PutText | local_go/src/fmt/format.go:239-316 | digits, zeros, base prefix, 0o and sign are written right to left without leaving the buffer, and read from left to right as the text |
| Format.Fmt.WritePadding | local_go/src/fmt/format.go:66-90 | appends zeros only with the zero flag and without minus, otherwise spaces |
| Format.Fmt.Pad | local_go/src/fmt/format.go:93-108 | pads left or right to the width, with zeros or spaces as the flags are |
| Format.Fmt.FmtInteger | local_go/src/fmt/format.go:197-324 | appends the padded text of the signed or unsigned number, or only spaces for value and precision 0; flags are as before |
| Format.BodyValue | local_go/src/fmt/format.go:223-278 | digits with zeros still have the value, and at least as many digits as the precision, or the width under the zero flag, asks for |
| Format.PrefixParses | local_go/src/fmt/format.go:281-305 | base prefixes can be told from the digits |
| Format.FormatParses | local_go/src/fmt/format.go:197-324 | the text of every integer, base, sign, flags, width and precision parses back to the integer |
| Format.TextShape | local_go/src/fmt/format.go:216-318 | a formatted integer is the sign that the flags ask for, the prefix that they ask for, zeros and the numeral; the zeros fill up to the precision or, without one, to the width together with the sign |
| Format.FilledWidth | local_go/src/fmt/format.go:92-118 | padding adds the padding character only, on the right with the flag minus and else on the left, up to the width |
| Format.PaddedWidth | local_go/src/fmt/format.go:93-108 | the padded text is as wide as asked for or as the text, with spaces on one side only |
| ExitFilter.MatchesMayBecomeFull | local_go/misc/go_android_exec/main.go:203-272 | what is held is exactly what more input may turn into the exit string and a number |
| ExitFilter.NumberReadsDecimal | local_go/misc/go_android_exec/main.go:203-272 | the exit code is read as a decimal number |
| ExitFilter.HoldUnique | local_go/misc/go_android_exec/main.go:228-238 | where the held part begins is determined: the leftmost place from where the rest may be the exit string, or the exit string and digits |
| ExitFilter.MatchesPrefix | local_go/misc/go_android_exec/main.go:228-238 | every beginning of a match is a match, so it is held as it arrives |
| ExitFilter.HoldExtends | local_go/misc/go_android_exec/main.go:241-263 | holding chunk by chunk holds the same bytes as holding the whole input |
| ExitFilter.HoldFull | local_go/misc/go_android_exec/main.go:222-263 | of D followed by the exit string and digits, exactly D is passed on |
| ExitFilter.HeldIsEnding | local_go/misc/go_android_exec/main.go:265-289 | a full match that is held is the end of the input |
| ExitFilter.ExitCodeFilter.Forward | local_go/misc/go_android_exec/main.go:246-261 | what the writer does not take is lost, and takes an error of the writer |
| ExitFilter.ExitCodeFilter.Write | local_go/misc/go_android_exec/main.go:241-263 | whatever the cutting: what is forwarded, followed by what is held, is the whole input if and only if the writer has refused no byte; it always reports all of data |
| ExitFilter.ByteIsLost | local_go/misc/go_android_exec/main.go:241-263 | a writer that refuses its first byte: of the input x nothing is forwarded and nothing held |
| ExitFilter.ExitCodeFilter.Finish | local_go/misc/go_android_exec/main.go:265-289 | the number held, if it is an int; otherwise an error, and the held bytes are forwarded; then everything has been forwarded if and only if the writer has refused no byte |
| ExitFilter.Filter | local_go/misc/go_android_exec/main.go:241-289 | for every cutting of the input: the exit code at its end and everything before it forwarded, or an error and everything forwarded; in both cases if and only if the writer has refused no byte |
| Bytes.IndexOfLeftmost | local_go/src/bytes/bytes.go:1250-1252 | the reference: the leftmost match, or -1 if there is none |
| Bytes.SkipIsSafe | local_go/src/bytes/bytes.go:1279-1286 | skipping to the next occurrence of the first byte skips no match |
| Bytes.SearchShort | local_go/src/bytes/bytes.go:1270-1310 | the loop that gives up after too many false starts and falls back to another search finds the leftmost match, for every cutover |
| Bytes.SearchLong | local_go/src/bytes/bytes.go:1311-1335 | so does the loop for long separators |
| Bytes.Index | local_go/src/bytes/bytes.go:1250-1335 | all branches return the leftmost match or -1 |
| Bytes.Count | local_go/src/bytes/bytes.go:56-73 | one less than the number of pieces that cutting at all matches gives; one more than the runes for an empty separator |
| Runes.Explode | local_go/src/bytes/bytes.go:33-52 | the runes of s, at most n pieces |
| Runes.ExplodedRunes | local_go/src/bytes/bytes.go:33-52 | without a smaller limit there are as many pieces as runes, and each is one rune of s or one invalid byte |
| Bytes.SplitLoop | local_go/src/bytes/bytes.go:337-351 | the loop cuts at the leftmost match each time and leaves the rest as the last piece |
| Bytes.GenSplit | local_go/src/bytes/bytes.go:324-352 | nothing for n == 0; otherwise a cut at the leftmost separators, everywhere for n < 0 and into at most n pieces for n > 0, whose join is s and whose last piece has no separator unless n pieces were made; with the given part of the separator at the end of each piece; an empty separator cuts behind each rune |
| Bytes.CutIsUnique | local_go/src/bytes/bytes.go:324-352 | there is one way only to cut at the leftmost separators |
| Bytes.PiecesAreCut | local_go/src/bytes/bytes.go:324-352 | the pieces between the first n separators are such a cut |
| Bytes.RunePiecesAreCut | local_go/src/bytes/bytes.go:1118-1152 | the empty separator occurs at the beginning and behind each rune |
| Bytes.ReplacementIsJoined | local_go/src/bytes/bytes.go:1118-1152 | replacing the first n matches, or all, is cutting at them and joining with new, also for an empty old |
| Bytes.EnoughCuts | local_go/src/bytes/bytes.go:331-336 | the cap on n changes nothing |
| Bytes.PiecesAreFree | local_go/src/bytes/bytes.go:324-352 | k cuts give k+1 pieces; none but the last contains the separator, and after Count cuts the last does not either |
| Bytes.JoinSplit | local_go/src/bytes/bytes.go:324-534 | Join(SplitN(s, sep, n), sep) == s for every number of cuts |
| Bytes.JoinSplitAfter | local_go/src/bytes/bytes.go:372-374 | the pieces of SplitAfterN joined without separator are s |
| Bytes.JoinExploded | local_go/src/bytes/bytes.go:33-52 | the same for the pieces of an empty separator |
| Bytes.JoinedLength | local_go/src/bytes/bytes.go:512-526 | the length computed beforehand is that of the result |
| Bytes.CopyAll | local_go/src/bytes/bytes.go:528-533 | the copies fill the buffer exactly |
| Bytes.Join | local_go/src/bytes/bytes.go:504-534 | the joined pieces; None, for the panic, exactly if the length check says so |
| Bytes.ReplaceLoop | local_go/src/bytes/bytes.go:1133-1151 | the loop fills its buffer with the replaced text, as far as it fits |
| Bytes.InsertLoop | local_go/src/bytes/bytes.go:1133-1151 | so it does for an empty old |
| Bytes.ReplacementLength | local_go/src/bytes/bytes.go:1131-1133 | the length computed beforehand is that of the text |
| Bytes.Replace | local_go/src/bytes/bytes.go:1118-1152 | the text is the join with new of the pieces that cutting at the first n matches, or at all, gives, also for an empty old; returns that text if and only if its length is an int, panics exactly if its length wraps around to a negative one, and otherwise returns a part of it |
| Bytes.OverflowingReplace | local_go/src/bytes/bytes.go:1118-1152 | 2^33 equal bytes, each to be replaced by 2^31 bytes: the text has 2^64 bytes, and an empty slice is returned |
| Bytes.InsertIsSplitJoin | local_go/src/bytes/bytes.go:1118-1152 | for an empty old the result is new, the runes joined with new, and new again if there are more replacements than runes |
| Bytes.AfterLength | local_go/src/bytes/bytes.go:1131-1133 | each insertion adds |new| |
| Bytes.ReplaceIsSplitJoin | local_go/src/bytes/bytes.go:1118-1152 | Replace with k replacements is Join(SplitN(s, old, k+1), new) |
| Bytes.ReplacedLength | local_go/src/bytes/bytes.go:1131-1133 | each replacement changes the length by |new| - |old| |
| Image.Mul3Exact | local_go/src/image/geom.go:287-304 | the exact product or -1; -1 exactly for a negative factor, a product beyond an int, or two first factors beyond 64 bits |
| Image.Add2Exact | local_go/src/image/geom.go:308-317 | the exact sum, or -1 for a negative argument or one beyond an int |
| Image.IntersectIsIntersection | local_go/src/image/geom.go:154-175 | a point is in the intersection exactly if it is in both rectangles; without such a point it is the zero rectangle |
| Image.NewYCbCr | local_go/src/image/ycbcr.go:175-200 | panics exactly if a size, computed in int arithmetic, is negative or the planes do not fit an int; a rectangle that is not empty gets its three adjoining planes if and only if their exact sizes fit and neither a difference nor a rounded-up bound wraps around |
| Image.SizeWraps | local_go/src/image/ycbcr.go:147-171 | the sizes of a rectangle that is not empty are exact, or one of them is negative |
| Image.LargestPixel | local_go/src/image/ycbcr.go:147-185 | the 4:2:0 image of the one pixel at the largest coordinates panics, although its planes have three bytes |
| Image.PlaneLength | local_go/src/image/ycbcr.go:177-183 | what the overflow guard decides |
| Image.Columns | local_go/src/image/ycbcr.go:147-172 | chroma columns (or rows) of a range contain every sample exactly if the upper bound is not lost to truncation |
| Image.Uniform | local_go/src/image/ycbcr.go:101-172 | all six ratios are division by two divisors, in the offset and in the sizes alike |
| Image.PlanesContainPixels | local_go/src/image/ycbcr.go:95-200 | the planes contain the luma and chroma sample of every pixel if and only if both upper bounds are Aligned; with a non-negative Min they are |
| Image.MisalignedExample | local_go/src/image/ycbcr.go:101-200 | a 4:2:0 image of (-2,-2)-(0,0) has no chroma sample for its pixel (-1,-1) |
| Image.FreshApart | local_go/src/image/ycbcr.go:95-118 | every pixel has its own luma sample, the pixels of one cell share their chroma samples and no others do, and no sample is of two kinds |
| Image.SubImagesApart | local_go/src/image/ycbcr.go:95-141 | the same in any nesting of sub-images |
| Image.Adjacent | local_go/src/image/ycbcr.go:95-99 | the samples of a row are adjacent and YStride apart from those of the next row, and the first pixel comes first |
| Image.PlaneProportions | local_go/src/image/ycbcr.go:45-54 | for rectangles of whole cells the planes are in the proportions of the type's documentation |
| Image.SubImageShares | local_go/src/image/ycbcr.go:120-141 | a subimage has the sample of its parent at every point of the intersection |
| Image.SubImageInPlanes | local_go/src/image/ycbcr.go:120-141 | and the sample lies in the planes of the subimage if it does in those of the parent |
| Image.SubImagesShare | local_go/src/image/ycbcr.go:120-141 | any nesting of SubImage has the original sample at every point of all rectangles |
| Image.SubImagesBounds | local_go/src/image/ycbcr.go:120-141 | and contains no other points |
| Image.YCbCrAt | local_go/src/image/ycbcr.go:80-91 | the three samples at the offsets, or zero outside of the image |
| Image.FreshWellFormed | local_go/src/image/ycbcr.go:95-200 | a new image with aligned upper bounds has the samples of all its pixels within its planes and buffer |
| Image.SubImagesWellFormed | local_go/src/image/ycbcr.go:120-141 | so has any nesting of sub-images of an image that has |
| Image.NestedAt | local_go/src/image/ycbcr.go:80-141 | reading a pixel through any nesting of sub-images gives the original samples inside of all rectangles, and zeros outside |
| Buffer.Buffer.Reset | local_go/src/bytes/buffer.go:106-110 | empty, in the same array |
| Buffer.Buffer.Truncate | local_go/src/bytes/buffer.go:91-101 | the first n unread bytes; panics exactly if there are not n |
| Buffer.Buffer.TryGrowByReslice | local_go/src/bytes/buffer.go:115-121 | room behind the contents, exactly if the array has it |
| Buffer.Buffer.NewBuffer | local_go/src/bytes/buffer.go:472-472 | a buffer whose contents are the given slice |
| Buffer.Buffer.GrowBy | local_go/src/bytes/buffer.go:126-157 | reslicing, sliding down, or reallocating: n bytes of room behind the unchanged contents; no byte of the array changes if there is room; fails exactly beyond the largest int |
| Buffer.Buffer.GrowSlice | local_go/src/bytes/buffer.go:229-253 | a larger array with the contents at its front |
| Buffer.Buffer.Grow | local_go/src/bytes/buffer.go:164-170 | keeps the contents and leaves n bytes of room; no byte of the array changes if there is room already |
| Buffer.Buffer.MakeRoom | local_go/src/bytes/buffer.go:175-180 | room for what is to be written, without touching the array if it has it |
| Buffer.Buffer.Write | local_go/src/bytes/buffer.go:175-182 | appends; in the same array if there is room |
| Buffer.Buffer.Read | local_go/src/bytes/buffer.go:318-334 | drops a prefix and returns it; io.EOF exactly on an empty buffer and a non-empty request |
| Buffer.Buffer.Next | local_go/src/bytes/buffer.go:340-352 | drops a prefix and returns it |
| Buffer.Buffer.ReadByte | local_go/src/bytes/buffer.go:356-366 | drops the first byte |
| Buffer.Buffer.ReadRune | local_go/src/bytes/buffer.go:373-390 | drops the first rune, or one byte as U+FFFD |
| Buffer.Buffer.UnreadByte | local_go/src/bytes/buffer.go:413-422 | puts back one byte after a read, unless off is 0 |
| Buffer.Buffer.UnreadRune | local_go/src/bytes/buffer.go:396-404 | puts back the rune of an immediately preceding ReadRune |
| Buffer.Buffer.ReadSlice | local_go/src/bytes/buffer.go:430-452 | the contents through the first delimiter, or all of them and io.EOF; remembered as a read in any case |
| Buffer.Apply | local_go/src/bytes/buffer.go:91-452 | any of ten calls moves the queue as it says, in what it returns, what it leaves and what can be undone; refused exactly where the source panics |
| Buffer.Transfer | local_go/src/bytes/buffer.go:91-452 | any run of Write, Read, Next, ReadByte, ReadRune, ReadBytes, Truncate, UnreadByte, UnreadRune and Grow, from any state of the buffer, is a run of the queue; it ends early only at a panic |
| Buffer.MoveConserves | local_go/src/bytes/buffer.go:91-452 | read and not put back ++ contents stays the same, is extended by a write, or is cut at its end by Truncate |
| Buffer.RunConserves | local_go/src/bytes/buffer.go:91-452 | over every run without Truncate, what was read and not put back, followed by the contents, is that of the start followed by what was written |
| Buffer.RunReads | local_go/src/bytes/buffer.go:318-452 | if nothing is put back, what was read is what the calls returned, in order |
| Buffer.UndoesRead | local_go/src/bytes/buffer.go:318-422 | right behind any read that returned bytes, UnreadByte puts the last of them back, and UnreadRune the whole rune of a ReadRune |
| Buffer.UnreadAfterRead | local_go/src/bytes/buffer.go:406-452 | UnreadByte returns an error behind exactly the reads that returned an error or no bytes, if and only if the read is not a ReadBytes without a delimiter in the contents: then it returns nil, and on an empty buffer puts back a byte of an earlier read if the array has one |
| Buffer.ReadBytesIsUnread | local_go/src/bytes/buffer.go:406-452 | a buffer of a slice holding a: after ReadByte and a ReadBytes that returns io.EOF, UnreadByte returns nil and puts the a back |
| Buffer.WriteReserved | local_go/src/bytes/buffer.go:159-182 | after Grow(n) any sequence of writes of n bytes in all stays in the same array |
| Buffer.RereadByte | local_go/src/bytes/buffer.go:356-422 | UnreadByte exactly undoes an immediately preceding successful ReadByte |
| Buffer.RereadRune | local_go/src/bytes/buffer.go:373-404 | UnreadRune exactly undoes an immediately preceding successful ReadRune |
| Buffer.UnreadAfterGrow | local_go/src/bytes/buffer.go:164-422 | with a Grow(n) in between, UnreadByte undoes ReadByte if and only if the byte was not the last one and n bytes fit behind the contents; otherwise the byte stays lost |
| Buffer.UnreadRuneAfterGrow | local_go/src/bytes/buffer.go:164-404 | the same for UnreadRune and ReadRune |
| Buffer.GrowForgetsRead | local_go/src/bytes/buffer.go:164-422 | a buffer of a slice holding ab: after ReadByte, Grow(1) and UnreadByte, which returns nil, it holds b |
| Flag.FlagSet.Var | local_go/src/flag/flag.go:1010-1037 | defines a name that has no leading dash and no equals sign, is new and was not set before; panics exactly otherwise, without effect |
| Flag.FlagSet.Set | local_go/src/flag/flag.go:492-530 | sets a defined flag, or remembers the undefined name |
| Flag.FlagSet.CutEquals | local_go/src/flag/flag.go:1099-1106 | cuts at the first equals sign after the first byte |
| Flag.FlagSet.ReadFlag | local_go/src/flag/flag.go:1075-1106 | the flag that begins the arguments, the end of the flags, or a syntax error on an argument that is no rendering of any flag |
| Flag.FlagSet.ParseOne | local_go/src/flag/flag.go:1075-1147 | takes exactly the rendering of one setting off the arguments and applies it; or stops at the end of the flags; or names the reason why the arguments cannot go on |
| Flag.FlagSet.Parse | local_go/src/flag/flag.go:1153-1177 | terminates; the arguments are a rendering of settings of defined flags, applied in order, and a rest that begins with the end of the flags or explains the error; also after an error, the variables and the arguments left are stated |
| Flag.ErrorUnique | local_go/src/flag/flag.go:1075-1147 | arguments explain one error at most, at one setting |
| Flag.ParseRefused | local_go/src/flag/flag.go:1153-1177 | rendering accepted settings and then arguments that explain an error makes Parse apply the settings and stop with exactly that error, handled as the flag set says |
| Flag.ArgUnique | local_go/src/flag/flag.go:1079-1106 | an argument can be read as a flag in one way only |
| Flag.FirstUnique | local_go/src/flag/flag.go:1075-1147 | arguments begin with one setting at most |
| Flag.ReadingsAgree | local_go/src/flag/flag.go:1153-1177 | two readings of the same arguments agree as far as both go |
| Flag.StartsWithSetting | local_go/src/flag/flag.go:1075-1147 | arguments that begin with an accepted setting are neither the end of the flags nor an error |
| Flag.ErrorBeforeEnd | local_go/src/flag/flag.go:1075-1147 | the end of the flags is never an error |
| Flag.FormsOfSettings | local_go/src/flag/flag.go:47-57 | the forms -name, --name, -name=value, --name=value and with the value in the next argument, and the value each of them sets |
| Flag.FormsThatFit | local_go/src/flag/flag.go:1118-1141 | a boolean flag stands alone or has =value, any other flag takes =value or the next argument |
| Flag.ParseRendered | local_go/src/flag/flag.go:1153-1177 | rendering accepted settings in any mix of forms, then "--" or a non-flag and a rest, makes Parse apply them in order, mark them as set and leave the rest |
| Flag.JoinedIsEquivalent | local_go/src/flag/flag.go:1118-1141 | the two-argument form and the short boolean form mean the same as -name=value |
| Embed.LessIsTotal | local_go/src/embed/embed.go:250-262 | string comparison is a strict total order |
| Embed.LessIsLexicographic | local_go/src/embed/embed.go:252-260 | the order of the list is the lexicographic one on bytes |
| Embed.SortSearch | local_go/src/embed/embed.go:420-435 | ends where the condition turns true |
| Embed.SplitRejoins | local_go/src/embed/embed.go:189-196 | a valid path is put together again from its directory and element, with or without the final slash of a directory, and the element is not empty and has no slash |
| Embed.OneLastElement | local_go/src/embed/embed.go:186-196 | there is one way only to take the last element off a path |
| Embed.SplitIsDir | local_go/src/embed/embed.go:186-196 | the directory that split returns is that in which the path stands |
| Embed.ElementsOkMeans | local_go/src/io/fs/fs.go:53-78 | a path is valid exactly if none of its elements is empty, "." or ".." |
| Embed.ValidStringMeans | local_go/src/io/fs/fs.go:53-56 | a string is valid exactly if it is the encoding of some scalar values |
| Embed.DistinctIsStrict | local_go/src/embed/embed.go:157-183 | distinct valid paths sorted by directory and element are strictly sorted |
| Embed.OnlyPlace | local_go/src/embed/embed.go:255-262 | in a sorted list the search for a key ends at the entry that has it |
| Embed.Lookup | local_go/src/embed/embed.go:242-265 | finds a valid path if and only if it is in the list, as a file or a directory; the root always |
| Embed.ReadDir | local_go/src/embed/embed.go:271-287 | returns one slice of the list: of the files with valid paths exactly those that stand in the directory and not further below |
| Jobs.Service.constructor | backend/internal/jobs/jobs.go:42-78 | starts from the two seeded successes and nothing active |
| Jobs.Service.BeginJob | backend/internal/jobs/jobs.go:117-147 | the first critical section decides by the first recent success, then by the active keys, and marks only what it starts |
| Jobs.Service.FinishJob | backend/internal/jobs/jobs.go:184-187 | the second one unmarks the key and puts the execution first in the history |
| Jobs.ActiveKept | backend/internal/jobs/jobs.go:131-185 | every step keeps: active is exactly the set of keys in progress, each in one goroutine |
| Jobs.TimesKept | backend/internal/jobs/jobs.go:121-186 | every step keeps: what is in progress started five minutes or more after each success of its key |
| Jobs.StepKeepsInv | backend/internal/jobs/jobs.go:117-190 | every step of every goroutine keeps both |
| Jobs.RunKeepsInv | backend/internal/jobs/jobs.go:117-190 | so does every interleaving with a monotone clock |
| Jobs.Deduplicated | backend/internal/jobs/jobs.go:117-190 | in every interleaving at most one execution of a key is in progress, active is exactly the set of keys in progress, and two successes of a key complete at least five minutes apart |
| Jobs.StartsUnlessDuplicate | backend/internal/jobs/jobs.go:117-147 | a job is started if and only if no success of its key completed less than five minutes ago and none of its key is in progress; otherwise nothing changes |
| Jobs.RecordsTheCall | backend/internal/jobs/jobs.go:149-190 | what is put in front of the history is the record of the call: its name and key, its times and items, and SUCCESS or FAILED |
| Jobs.RecentIsSkipped | backend/internal/jobs/jobs.go:120-129 | a call within five minutes of a success of its key returns that success as SKIPPED and changes nothing |
| Jobs.HistoryOnlyGrows | backend/internal/jobs/jobs.go:184-187 | history only gets longer, by one entry for each execution run to its end |

## Left out

- Pipe and Context: a read of a field and the unlock right after it are one step, since nothing in between is visible to other goroutines; in Jobs a whole critical section is one step, with its readings of the clock anywhere within it; memory is sequentially consistent.
- Context: afterFuncCtx, timerCtx and custom Context implementations, and with them the watcher goroutine and stopCtx; a timer is a direct cancellation with an arbitrary error and cause, and timerCtx's own bookkeeping of its timer is not modelled.
- Context: deadlines, String methods and the panics on nil parents and keys.
- ContextProgress.Completes: a schedule that ends all calls exists and every schedule is bounded; that the Go scheduler picks such a schedule is not modelled.
- Scanner: custom split functions (final tokens, empty tokens, errors, negative advances), ScanBytes, ScanRunes and ScanWords.
- BufReader: Peek, Discard, Read, ReadRune, UnreadRune and WriteTo; the views into the buffer that ReadSlice and ReadLine return are values here, so their invalidation by the next read is not modelled.
- BufReader: ReadString, which has the body of ReadBytes up to the conversion.
- BufWriter: ReadFrom, WriteRune, AvailableBuffer and Reset.
- Buffer: ReadFrom, WriteTo, WriteRune and the exposure of the array by Bytes and AvailableBuffer; an allocation never fails for lack of memory.
- Bytes: Fields, Repeat, and the assembly searches, which are replaced by their contract; MaxLen, MaxBruteForce and the cutover of the search are parameters.
- Bytes.Replace: an allocation never fails for lack of memory.
- Html: EscapeString is the byte-wise replacement that the strings.Replacer performs; the replacer itself and the entity tables are not modelled; the attribute flag is the constant false of the source.
- Handles: strings, symbols and functions are opaque identities; more than 2^32 - 1 live references are not modelled.
- Format: bases 2, 8, 10 and 16 only, as in the source; fmtUnicode, fmtFloat, strings and the other verbs of package fmt; width is counted in ASCII characters.
- ExitFilter: the regular expression package is replaced by the meaning of this one pattern; the call of adb is left out.
- Image: NYCbCrA, colour conversion and Opaque.
- Flag: the parsing of values, usage messages and flag groups; a Value is a function on the variables behind all flags.
- Embed: openFile and openDir, hashes and modes; a nil list behaves like an empty one.
- Embed.Lookup: the list is strictly sorted by directory and element; that the compiler emits such a list is not part of this model.
- Jobs: HTTP handlers, roles, identifiers, summaries and the database handle; the err of a job, always nil in the source, is arbitrary here.
- The SQL-backed handlers, payroll arithmetic and the frontend: request plumbing whose meaning lies in the database or the browser.
