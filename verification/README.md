# Verified models of Biscuit's allocation analyser and of its Go library

The repository is Biscuit, a kernel in Go, with the allocation analyser that bounds its live heap and the Go
library it is built with. The modules here model the parts with the most intricate behaviour and prove what those
parts are for, with the Dafny verifier (`dafny verify dfyconfig.toml`).

| file | models |
|---|---|
| `Digraphs.dfy`, `StrongComponents.dfy` | the search for mutually recursive functions in a call graph (Gabow's path-based algorithm on two stacks) |
| `Dominance.dfy`, `NaturalLoops.dfy` | natural loops of a control-flow graph, merged by header, and their nesting tree |
| `Contexts.dfy`, `ContextCauses.dfy`, `ContextReleases.dfy` | cancellation of context trees by any number of goroutines, as a transition system with locks and call stacks; why a context is canceled, and what that gives back |
| `Pipes.dfy` | the synchronous pipe with any number of readers, writers and closers, as a transition system |
| `Integers.dfy`, `Floats.dfy`, `Sqrt.dfy`, `Rounding.dfy`, `Remainders.dfy` | float64 on bit patterns: square root, rounding, frexp, ldexp, mod and remainder |
| `Utf8.dfy`, `RuneReader.dfy` | UTF-8 by specification, and the byte-at-a-time rune reader of package fmt |
| `EncodedWords.dfy`, `HeaderWords.dfy` | RFC 2047 Q encoding with word splitting, and the header decoder; both by what is written |
| `HtmlEscape.dfy`, `HtmlReferences.dfy`, `Numerals.dfy` | escaping, and unescaping in place; what references stand for as they are written |
| `ByteSearch.dfy`, `Splitting.dfy` | substring search with all its fallbacks; split, join, count and replace |
| `ByteSource.dfy`, `LineScanner.dfy`, `BufferedReader.dfy`, `BufferedWriter.dfy` | the buffers of package bufio over a reader and a writer that deliver, accept and fail as they like |
| `Buffers.dfy`, `Options.dfy` | shared helpers |

How things are modelled:

- A `panic` that the code believes impossible is an `assert false` in its branch, so it is proved unreachable.
- Graph nodes are numbers, a graph is a map from nodes to their successors; dominance is given by its definition on
  walks, as an argument that agrees with it, because the analyser takes it from a foreign package.
- A finite float64 is an integer number of units of 2^-1074 (`Floats.Val`), so exactness and rounding are statements
  about integers. Wrap-around of `uint64`, `uint32`, `int32` and of the exponents held in an `int` is written out; an
  `int` has 64 bits, as on the machine Biscuit runs on.
- Bytes are numbers below 256. The bufio models read from a `Source` that hands out a fixed byte sequence in pieces
  of any size, with empty reads, failures, and the end told with or after the last bytes; `given` records what it
  handed out. `text` is the stream as the buffered reader hands it out, the same until a byte is put back wrongly.
- Concurrency: a state holds the shared variables and a call stack or a program counter per thread; a run is any
  sequence of steps of any of the threads.

Where the code falls short of what its comments, its standard or its users expect, the exact condition is a theorem
and the input a lemma or a method:

- `Ldexp` is to return frac times 2 to the power of exp (src/math/ldexp.go:8). It adds the exponents in a 64-bit
  `int`. The result is the product rounded if and only if that sum does not wrap around and the product is not
  strictly between a half and one of 2^-1074, where it returns zero: `Remainders.LdexpNearest`, with
  `Remainders.WrapsToInfinity`, `Remainders.WrapsToNothing` and `Remainders.ThreeQuarters`.
- The remainder of section 5.3.1 of IEEE 754-2008 has the sign of x when it is zero. `Remainder` returns +0 for every
  negative x of the same magnitude as y, and only then does the sign differ: `Remainders.Remainder`, with
  `Remainders.MinusOne`.
- `ScanLines` is to take as the end of a line a newline, which must be there, and a carriage return before it, which
  need not (src/bufio/scan.go:336-337). It also drops a carriage return at the end of the input that no newline
  follows. Its lines are the promised ones if and only if the input does not end in a carriage return:
  `LineScanner.LinesAsPromised`, with `LineScanner.ReturnLost`. `ReadLine` keeps that carriage return.
- A scan that met a token too large for the buffer is to have stopped for good (src/bufio/scan.go:24-25). The next
  `Scan` returns true, with what is held of that token; after any other end it keeps returning false:
  `LineScanner.Scanner.ScanAgain`, with `LineScanner.TokenAfterTooLong`. Over a reader that neither fails nor stalls
  scanning ends so if and only if the input holds as many bytes without a newline as the buffer can ever have, and
  one more after them where the end is told together with the last bytes: `LineScanner.Scanner.ScanAll`.
- `UnreadByte` is to put back the byte last read, after `ReadLine` too (src/bufio/bufio.go:250, 366-368). After
  `Discard`, and after `ReadLine` has kept a carriage return back, it puts another byte in the place of the last one
  consumed. The stream survives a run of calls if and only if every byte put back equals the last one consumed:
  `BufferedReader.Reader.Run`, with `BufferedReader.UnreadAfterDiscard` and `BufferedReader.UnreadAfterReadLine`. The
  contracts of `BufferedReader.Reader.Discard` and `BufferedReader.Reader.ReadLine` say when they leave it so.
- After a byte was read `UnreadByte` is still refused once `Peek` has asked the reader for more, though `Peek` is not
  to advance the reader (src/bufio/bufio.go:122-125). It is refused if and only if nothing was read since a byte was
  put back, or `Peek` has asked since something was last consumed and bytes are held: `BufferedReader.Reader.Run`,
  with `BufferedReader.UnreadAfterPeek`. Right after a call that read something it succeeds:
  `BufferedReader.ReadThenUnread`.
- A `Read` from a pipe is to return the error that the write end was closed with (src/io/pipe.go:123-124, 162-164). It
  does if and only if no `CloseRead` had stored an error when it looked, and else returns `ErrClosedPipe`; the same
  holds of `Write` with the ends exchanged: `Pipes.FailureCauses`, with `Pipes.ClosedAtBothEnds`.
- `Read` is to return a count of zero with EOF (src/bufio/bufio.go:189). One at least as large as the buffer passes on
  a count and an EOF that came together; any other returns bytes without an error: `BufferedReader.Reader.Read`, with
  `BufferedReader.EofWithBytes`.
- `DecodeHeader` gives back what `Encode` was given if it was encoded or holds no encoded-word, and not if it is
  printable text that holds one: `EncodedWords.RoundTripExactly`, with `EncodedWords.WordAsText`.
- `DecodeHeader` is to return an error if and only if the charset reader does (src/mime/encodedword.go:237-238). It
  also does without a reader, if and only if the header holds a word in a charset that is not built in:
  `EncodedWords.FailsExactly` and `EncodedWords.ForeignFails`, with `EncodedWords.NoReaderFails`.
- A numeric character reference is to stand for the rune that the HTML standard, which the code cites, gives to its
  number (src/html/escape.go:59). It does unless the number is at least 2^32 and has the low 32 bits of
  another rune, or there is one decimal digit and no semicolon, or an x and a semicolon with no digit between:
  `HtmlEscape.NumericExactly`, with `HtmlEscape.WrappedReference` and `HtmlEscape.DigitsMisread`.

## Model

| member | source | states |
|---|---|---|
| StrongComponents.Analyser.MarkStrong | biscuit/maxlive/alloctool.go:1182-1213 | for every finite call graph and root the components added are exactly the strongly connected components of at least two functions reachable from the root, each once; the functions marked are exactly those reachable from the root that can call themselves again through another function, so one that only calls itself is not marked; no panic can fire |
| StrongComponents.Analyser.MarkStrong1 | biscuit/maxlive/alloctool.go:1215-1258 | one visit keeps the whole invariant of the two stacks, numbers and components, and leaves the stacks below it alone; "visit twice" and "double add" cannot happen |
| StrongComponents.Analyser.ScanEdges | biscuit/maxlive/alloctool.go:1226-1236 | after the loop every edge of the function has been followed and the invariant holds |
| StrongComponents.Analyser.ScanEdge | biscuit/maxlive/alloctool.go:1227-1235 | one edge: to a new function, to one on the stacks, or to a finished one |
| StrongComponents.Analyser.DropStarts | biscuit/maxlive/alloctool.go:1232-1234 | popping P drops exactly the segment starts numbered after the target of the edge |
| StrongComponents.Analyser.PopComponent | biscuit/maxlive/alloctool.go:1239-1249 | popping S takes off exactly the functions from the given one to the top |
| StrongComponents.Analyser.Finish | biscuit/maxlive/alloctool.go:1238-1257 | when the function is the last start its segment is closed, and the invariant holds for the caller |
| StrongComponents.Analyser.MarkNoMemo | biscuit/maxlive/alloctool.go:1198-1202 | exactly the members of the components found are added to those not memoised |
| StrongComponents.VisitReaches | biscuit/maxlive/alloctool.go:1215-1225 | pushing a new function keeps: every live function reaches all live ones numbered from its segment on |
| StrongComponents.MergeReaches | biscuit/maxlive/alloctool.go:1231-1235 | so does merging the segments that an edge back along the path closes into a cycle |
| StrongComponents.SegmentClosed | biscuit/maxlive/alloctool.go:1238-1249 | edges of the last segment lead into it or into finished components |
| StrongComponents.SegmentIsComponent | biscuit/maxlive/alloctool.go:1238-1249 | hence the last segment is a maximal set of mutually reachable functions |
| StrongComponents.AddComponent | biscuit/maxlive/alloctool.go:1250-1255 | recording it, if it has at least two members, keeps the list exact and without repeats |
| StrongComponents.CloseInv | biscuit/maxlive/alloctool.go:1238-1257 | closing a segment keeps the whole invariant |
| StrongComponents.SearchComplete | biscuit/maxlive/alloctool.go:1182-1197 | when the stacks are empty again all components reachable from the root have been recorded |
| StrongComponents.MarkedAreRecursive | biscuit/maxlive/alloctool.go:1198-1202 | being in a recorded component is the same as lying on a cycle of at least two functions reachable from the root |
| Dominance.DominatorsChain | biscuit/maxlive/alloctool.go:2964-3037 | two dominators of a reachable block: one dominates the other |
| Dominance.DominatesAntisym | biscuit/maxlive/alloctool.go:2964-3037 | two reachable blocks that dominate each other are the same |
| Dominance.InnerHeadInside | biscuit/maxlive/alloctool.go:2990-3010 | when two loops share a block, the dominated header lies in the loop of the other |
| Dominance.LoopsNest | biscuit/maxlive/alloctool.go:2990-3010 | and then its whole loop does, without the outer header |
| NaturalLoops.BlockPath1 | biscuit/maxlive/alloctool.go:202-216 | the search with a shared visited map: a hit is a path outside what was visited, a miss leaves a set closed under successors |
| NaturalLoops.PathExact | biscuit/maxlive/alloctool.go:202-216 | hence it finds the target if and only if there is a path that avoids what was visited before |
| NaturalLoops.OutsideIsWithout | biscuit/maxlive/alloctool.go:3050-3062 | with only the header visited this is a path that avoids the header |
| NaturalLoops.NLoop | biscuit/maxlive/alloctool.go:3050-3062 | the blocks collected for a back edge are exactly those of its natural loop |
| NaturalLoops.CollectLoops | biscuit/maxlive/alloctool.go:2954-2963 | every loop collected is that of a back edge, and every back edge has its loop |
| NaturalLoops.MergeLoops | biscuit/maxlive/alloctool.go:2964-2989 | merging by header leaves distinct headers and loses and invents no block |
| NaturalLoops.MergedExact | biscuit/maxlive/alloctool.go:2964-2989 | then a loop is exactly the union of the natural loops of its header |
| NaturalLoops.LoopsApart | biscuit/maxlive/alloctool.go:2990-3010 | any two merged loops are disjoint or one is strictly inside the other |
| NaturalLoops.OverlapSize | biscuit/maxlive/alloctool.go:2990-3010 | so the overlap is empty or as large as the smaller loop, and "partial still" cannot fire |
| NaturalLoops.SortLoops | biscuit/maxlive/alloctool.go:3011-3014 | the same loops, by size |
| NaturalLoops.FindParents | biscuit/maxlive/alloctool.go:3015-3037 | each loop gets the first later loop that contains it, or none |
| NaturalLoops.ParentSmallest | biscuit/maxlive/alloctool.go:3015-3037 | that parent is the smallest loop around it |
| NaturalLoops.EnclosingAbove | biscuit/maxlive/alloctool.go:3015-3047 | every loop around it is an ancestor |
| NaturalLoops.BuildTree | biscuit/maxlive/alloctool.go:3038-3047 | children lists and top-level list hold exactly the loops with that parent, in order |
| NaturalLoops.IterIsBelow | biscuit/maxlive/alloctool.go:2871-2877 | iterating over a loop visits exactly it and its descendants |
| NaturalLoops.IterOnce | biscuit/maxlive/alloctool.go:2871-2877 | each of them once |
| NaturalLoops.VisitedOnce | biscuit/maxlive/alloctool.go:2820-2824 | iterating over the function visits every loop exactly once |
| NaturalLoops.BelowFirst | biscuit/maxlive/alloctool.go:2870-2877 | and a loop before all its ancestors |
| NaturalLoops.FuncLoops | biscuit/maxlive/alloctool.go:2954-3048 | the whole pipeline: distinct headers, exact loops, disjoint or nested, parent is the smallest enclosing loop, inner loops visited before outer ones, each once |
| Contexts.Owner | src/context/context.go:272-285 | the nearest cancelable context from the given one upwards, with only value contexts in between; none exactly when they lead to a context that is never canceled |
| Contexts.FrameStepGood | src/context/context.go:242-298 | every step of cancel, timed cancel, registration and removal, in any interleaving, keeps the tree invariant |
| Contexts.NextInv | src/context/context.go:230-438 | every step of any thread keeps the invariant of nodes, locks, stacks and registrations, and undoes no cancellation |
| Contexts.TraceInv | src/context/context.go:230-438 | so it holds in every state of every run |
| Contexts.CancelReaches | src/context/context.go:242-267 | once a cancel of c has returned, every cancelable context derived from c that was returned to its user is canceled, through value contexts too |
| Contexts.CanceledForGood | src/context/context.go:347-372 | an error once set never changes and a closed done channel stays closed |
| ContextCauses.CauseNext | src/context/context.go:242-438 | every step of any thread keeps: an error set, or carried by a cancel in progress, is one that this context or one it was derived from was asked to cancel with |
| ContextCauses.CanceledForCause | src/context/context.go:225-434 | in every run a context has an error only if it, or a context it was derived from, was asked to cancel with that same error by its cancel function, its timer or a deadline already passed; and only contexts with a deadline get DeadlineExceeded |
| ContextReleases.ReleaseNext | src/context/context.go:242-438 | every step keeps: a canceled context is listed by a live one, or has a timer, only while a call is about to change that; and a context is linked before anyone may cancel it |
| ContextReleases.CancelReleases | src/context/context.go:228-229 | when no call is in progress a canceled context has no children and no timer, and no context lists it |
| ContextReleases.DeadlineArmed | src/context/context.go:398-405 | a context whose WithDeadline returned before the deadline has its timer running until it is canceled |
| ContextReleases.DoneGiven | src/context/context.go:325-333 | a context whose Done has returned has its channel, closed, when the lock is free, exactly if it is canceled |
| Contexts.DoneIffCanceled | src/context/context.go:325-372 | whenever the lock is free, done is closed if and only if the error is set |
| Contexts.NeverClosedTwice | src/context/context.go:347-372 | a thread about to close a done channel finds it open |
| Contexts.HeldRunDown | src/context/context.go:347-372 | the locks on a thread's stack belong to a chain of strict descendants |
| Contexts.WaitsDown | src/context/context.go:242-298 | a thread that holds locks waits only for a strict descendant of each |
| Contexts.NoDeadlock | src/context/context.go:242-438 | in every reachable state with a call in progress some thread can move |
| Pipes.StreamNext | src/io/pipe.go:43-97 | every step keeps: bytes delivered are the accepted bytes and what is in flight; reader and writer of a handshake belong together |
| Pipes.CallNext | src/io/pipe.go:43-97 | every step keeps: a call works on the argument it was given, and one started on a closed pipe never gets past its first check |
| Pipes.PieceNext | src/io/pipe.go:50-56 | every step keeps: what a Read received fills its buffer or empties the slice it met, a Write that succeeded met a Read, and a failing call returns the count it reached |
| Pipes.ErrorNext | src/io/pipe.go:60-114 | every step keeps: what is stored was given to a close, and an error returned is ErrClosedPipe or comes from there |
| Pipes.TraceInv | src/io/pipe.go:43-114 | all four hold in every state of every run |
| Pipes.BytesInOrder | src/io/pipe.go:43-97 | bytes delivered to reads, in handshake order, are the first n bytes of each write, in lock order, and what a write has handed over but not been told about |
| Pipes.PiecesFit | src/io/pipe.go:50-56 | a Read receives no more than its buffer holds, and less only if it empties the slice that the Write had left |
| Pipes.NilMeansMet | src/io/pipe.go:84-97 | a Write that returned nil has met a Read, even with nothing to write |
| Pipes.LateGetsNothing | src/io/pipe.go:44-48 | no call that was started on a closed pipe has handed anything over |
| Pipes.LateFails | src/io/pipe.go:44-80 | and when such a call returns it fails with a count of zero |
| Pipes.NilMeansAll | src/io/pipe.go:77-97 | a write counts at most its bytes and returns the count it reached, and a nil error means all of them |
| Pipes.AckPair | src/io/pipe.go:43-58 | an acknowledging reader and a waiting writer are each other's partner, and the bytes are the front of the writer's slice |
| Pipes.AckReachesWriter | src/io/pipe.go:43-97 | each acknowledgement goes to the writer whose slice was read |
| Pipes.AckNeverStuck | src/io/pipe.go:43-97 | a reader that acknowledges always finds its writer receiving, also after a close |
| Pipes.FailureCauses | src/io/pipe.go:60-114 | a Read that found its own end closed when it looked returns ErrClosedPipe, any other failing Read an error that CloseWrite was given, EOF for nil; the same for Write with the ends exchanged and ErrClosedPipe for nil; with the count of what was passed on |
| Pipes.ClosedAtBothEnds | src/io/pipe.go:60-66 | a run in which CloseWrite was given an error and a later Read returns ErrClosedPipe |
| Pipes.CloseReleasesAll | src/io/pipe.go:68-114 | after a close, every call in progress can take its next step at once, by itself or by its acknowledgement; a write that waits for the lock waits for such a call |
| Sqrt.DigitStep | src/math/sqrt.go:124-137 | one digit keeps the invariant of root, remainder and weight, and nothing overflows 64 bits |
| Sqrt.Digits | src/math/sqrt.go:121-137 | the loop computes the floor of the scaled root, and its remainder is zero if and only if the root is exact |
| Sqrt.RoundedRoot | src/math/sqrt.go:138-142 | the final rounding picks the nearest integer; the discarded bit is never an exact tie |
| Sqrt.NormalizeSubnormal | src/math/sqrt.go:110-116 | shifting a subnormal up makes it normal by a counted power of two |
| Sqrt.Normalize | src/math/sqrt.go:107-119 | significand and exponent give the argument back exactly |
| Sqrt.NearestPattern | src/math/sqrt.go:138-143 | the number put together from them is the nearest to the true root |
| Sqrt.EncodeRoot | src/math/sqrt.go:121-143 | with the halved exponent, for odd and even exponents, and in range |
| Sqrt.SqrtBits | src/math/sqrt.go:99-144 | for every float64: the special cases, and for every positive finite argument, subnormals included, the double nearest to the root |
| Rounding.BigRounds | src/math/floor.go:87-90 | adding below the point and clearing gives the integer part, one more if the addition carries, also into the exponent |
| Rounding.HalfCarries | src/math/floor.go:64-131 | the constants added carry just when the slow definitions round up |
| Rounding.ParityBit | src/math/floor.go:101-131 | the bit that decides ties is the parity of the integer part, for [1,2) the lowest bit of the bias |
| Rounding.Round | src/math/floor.go:64-93 | for every float64 the value of the slow definition, half away from zero, with the sign kept |
| Rounding.RoundToEven | src/math/floor.go:101-131 | for every float64 the value of the slow definition, half to even, with the sign kept |
| Remainders.Normalize | src/math/bits.go:56-62 | a normal number and the power of two that gives the argument back |
| Remainders.Frexp | src/math/frexp.go:18-33 | a fraction in [1/2, 1) of the same sign and the exponent, from -1073 to 1024, that gives the argument back exactly |
| Remainders.Ldexp | src/math/ldexp.go:16-45 | for every 64-bit exponent: an infinity exactly on overflow, zero exactly below 2^-1074, else the nearest number, ties to even, if and only if the sum of the exponents does not wrap around; and which wrong end is returned when it does |
| Remainders.FrexpLdexp | src/math/ldexp.go:7-45 | Ldexp gives back every number that Frexp took apart, bit for bit |
| Remainders.LdexpNearest | src/math/ldexp.go:7-45 | the result is the product rounded if and only if the sum of the exponents fits an int and the product is not strictly between a half and one times 2^-1074 |
| Remainders.WrapsToInfinity | src/math/ldexp.go:24-36 | a quarter times 2 to the least int gives an infinity |
| Remainders.WrapsToNothing | src/math/ldexp.go:24-30 | two times 2 to the greatest int gives zero |
| Remainders.ThreeQuarters | src/math/ldexp.go:28-30 | three quarters of 2^-1074 is such a value |
| Remainders.Sterbenz | src/math/mod.go:39-45 | the difference of two numbers within a factor of two is a number, so the subtraction is exact |
| Remainders.PowerFits | src/math/mod.go:39-45 | comparing fractions and exponents finds the largest power-of-two multiple of the divisor that fits |
| Remainders.ModStep | src/math/mod.go:39-45 | the multiple subtracted in a round is at most the rest and more than half of it |
| Remainders.ModLoop | src/math/mod.go:39-45 | the loop ends with the exact remainder of the magnitudes |
| Remainders.Mod | src/math/mod.go:23-50 | the special cases, and x - trunc(x/y)*y exactly, with the sign of x |
| Remainders.RestBelowTwice | src/math/remainder.go:62-64 | the first reduction leaves a rest below twice the divisor and loses an even multiple |
| Remainders.ReduceTiny | src/math/remainder.go:65-71 | tiny divisors: the nearest multiple, ties to even, by doubling the rest |
| Remainders.ReduceLarge | src/math/remainder.go:72-80 | other divisors: the same by halving the divisor |
| Remainders.Remainder | src/math/remainder.go:39-85 | the special cases, and x - q*y exactly with q the integer nearest to x/y, ties to even; a zero has the sign of x if and only if x is not negative with the magnitude of y |
| Remainders.MinusOne | src/math/remainder.go:59-61 | the remainder of -1 by 1 is +0 |
| Utf8.FullRuneDecides | src/unicode/utf8/utf8.go:102-195 | what follows a full rune does not change how it is decoded |
| Utf8.EncodeDecodes | src/unicode/utf8/utf8.go:339-366 | decoding undoes encoding for every rune, whatever follows |
| Utf8.EncodeIs | src/unicode/utf8/utf8.go:339-366 | EncodeRune writes the shortest encoding of a rune, by the bits of each byte, and for anything else that of U+FFFD |
| Utf8.DecodeExactly | src/unicode/utf8/utf8.go:141-189 | decoding gives the rune whose encoding the string starts with and its width; if it starts with the encoding of none, U+FFFD of width 1 |
| Utf8.NotFullBegins | src/unicode/utf8/utf8.go:100-120 | bytes that are no full rune yet are the beginning of the encoding of one |
| RuneReader.ReadRune.ReadByte | src/fmt/scan.go:314-326 | the next byte, pending ones first; every pending byte but the last is a continuation byte |
| RuneReader.ReadRune.Gather | src/fmt/scan.go:348-358 | the bytes gathered decode like the whole rest of the input, and leave nothing pending when more than one was needed |
| RuneReader.ReadRune.Keep | src/fmt/scan.go:360-363 | the bytes left over are put back in front of the input |
| RuneReader.ReadRune.Decode | src/fmt/scan.go:337-363 | the first rune and width of what is left, and that rest |
| RuneReader.ReadRune.Next | src/fmt/scan.go:330-367 | each call returns the next rune of the input as decoded at once, a peeked one first |
| RuneReader.ReadRune.UnreadRune | src/fmt/scan.go:369-376 | puts the last rune back once, and is an error otherwise |
| RuneReader.ReadRune.ReadAll | src/fmt/scan.go:314-367 | reading byte by byte to the end gives the runes of decoding the whole input at once |
| EncodedWords.WriteQString | src/mime/encodedword.go:142-155 | the loop writes the Q encoding byte by byte |
| EncodedWords.QDecode | src/mime/encodedword.go:372-398 | the decoding loop, its malformed inputs included, fills its buffer with the decoded bytes |
| EncodedWords.QRoundTrip | src/mime/encodedword.go:142-155 | decoding undoes encoding for every byte string, and encoded text holds no question mark |
| HeaderWords.QByteIs | src/mime/encodedword.go:142-155 | the space is written as an underscore, visible ASCII but "=", "?" and "_" as itself, any other byte as "=" and its two upper case digits |
| HeaderWords.QReads | src/mime/encodedword.go:372-398 | text in which each byte is written in one of its ways, digits of either case included, is decoded to those bytes |
| HeaderWords.QSpelled | src/mime/encodedword.go:372-398 | and no other text is decoded |
| HeaderWords.QPrintable | src/mime/encodedword.go:142-155 | encoded text is printable ASCII |
| EncodedWords.EncodeWord | src/mime/encodedword.go:53-139 | with UTF-8 the loop writes the words of the pieces it cuts; with another charset one word |
| EncodedWords.WordsFit | src/mime/encodedword.go:68-75 | every word for UTF-8 is at most 75 bytes long |
| HeaderWords.PiecesFilled | src/mime/encodedword.go:119-138 | no word but the last has room for the character after it in 75 bytes |
| EncodedWords.CharactersWhole | src/mime/encodedword.go:119-138 | each word decodes on its own to whole characters, together those of the text |
| EncodedWords.PiecesConcat | src/mime/encodedword.go:119-138 | the pieces put together are the text |
| EncodedWords.DecodeHeader | src/mime/encodedword.go:239-312 | the loop computes the decoding of the header, or fails exactly when a charset conversion does |
| EncodedWords.Codec.ConvertText | src/mime/encodedword.go:325-354 | the loops compute the conversion from UTF-8, ISO-8859-1 and US-ASCII; other charsets go to the reader or fail |
| HeaderWords.LatinRunes | src/mime/encodedword.go:329-332 | the runes of text in ISO-8859-1 are its bytes |
| HeaderWords.AsciiRunes | src/mime/encodedword.go:333-340 | the runes of text in US-ASCII are its bytes, or U+FFFD above 0x7F |
| HeaderWords.BuiltInConverts | src/mime/encodedword.go:325-340 | the conversion from each of the three built-in charsets, by the runes of its result |
| HeaderWords.FoldsAnyCase | src/mime/encodedword.go:327-333 | a charset name in ASCII is known whatever the case of its letters |
| EncodedWords.ConvertedSize | src/mime/encodedword.go:329-340 | a built-in conversion is no longer than its input unless it holds a byte above ASCII |
| EncodedWords.SkipPlain | src/mime/encodedword.go:241-250 | text before the first "=?" is copied |
| EncodedWords.WordFound | src/mime/encodedword.go:254-283 | the decoder finds a word, its charset, encoding and text just as they were written |
| HeaderWords.WordIsFound | src/mime/encodedword.go:254-283 | after text without "=?" a word is found and taken apart as it was written, question marks in its text included |
| HeaderWords.FoundIsWord | src/mime/encodedword.go:254-283 | what is found is such a word after such text |
| HeaderWords.NoWord | src/mime/encodedword.go:254-312 | a header without any is decoded to itself |
| HeaderWords.FirstWord | src/mime/encodedword.go:284-305 | decoding up to the first word: its meaning after the text before it, which is dropped only if it is blank and follows a word; a word whose text is malformed is copied from its "=?" on |
| HeaderWords.BetweenWords | src/mime/encodedword.go:292-305 | two words with text between them decode to the meaning of both, and that text between them unless it is all blank |
| HeaderWords.LettersKnown | src/mime/encodedword.go:314-323 | b and q of either case say how the text is encoded, and nothing else does |
| EncodedWords.WordRoundTrip | src/mime/encodedword.go:53-66 | decoding what encodeWord wrote gives the text, or its conversion from another charset |
| EncodedWords.NeedsEncoding | src/mime/encodedword.go:43-50 | the loop over characters is true just when some byte is not printable ASCII or a tab |
| HeaderWords.NeedsIs | src/mime/encodedword.go:43-50 | text is encoded exactly when some byte of it is neither a tab nor between the space and the tilde |
| EncodedWords.Encode | src/mime/encodedword.go:36-41 | plain text is returned as it is, other text encoded |
| EncodedWords.RoundTripExactly | src/mime/encodedword.go:36-41 | DecodeHeader gives back what Encode was given if the text needed encoding or holds no encoded-word already; and only then, unless it holds a word in a foreign charset and the client supplies a charset reader |
| EncodedWords.FailsExactly | src/mime/encodedword.go:237-312 | decoding a header fails if and only if one of the words found in it is in a charset that is not built in and the client's reader refuses it or is missing |
| EncodedWords.ForeignFails | src/mime/encodedword.go:341-344 | without a charset reader decoding fails if and only if the header holds a word in a foreign charset |
| EncodedWords.NoReaderFails | src/mime/encodedword.go:341-344 | an empty word in the charset x: an error though there is no reader to give one |
| EncodedWords.ReaderRewrites | src/mime/encodedword.go:341-352 | with a charset reader such a text may come back after all |
| EncodedWords.WordAsText | src/mime/encodedword.go:36-50 | a printable text that is not given back |
| HtmlEscape.ScanNumber | src/html/escape.go:82-105 | the digit loop: the number that the digits write, modulo 2^32, and past a semicolon |
| HtmlEscape.ScanName | src/html/escape.go:126-137 | the loop ends after the longest run of letters and digits, and past a semicolon |
| HtmlEscape.FindLongestName | src/html/escape.go:150-158 | the longest shorter name of at most six bytes in the table |
| HtmlEscape.UnescapeEntity | src/html/escape.go:56-164 | writes what the reference at src stands for at dst, moves both cursors, dst at most src, and leaves what is before dst and after src alone |
| HtmlEscape.UnescapeNumeric | src/html/escape.go:69-117 | the same for numeric references, with every early end and replacement |
| HtmlEscape.NumericExactly | src/html/escape.go:69-120 | a numeric reference is read as the rune of the number written, or copied when it has no digit, if and only if it has none of the three faults: a number that wraps to another rune, one decimal digit without a semicolon, or an x and a semicolon without a digit |
| HtmlEscape.WrapExactly | src/html/escape.go:82-118 | the number read in 32 bits gives another rune if and only if it is at least 2^32 and its low 32 bits are those of a rune other than U+FFFD |
| HtmlEscape.WrappedReference | src/html/escape.go:97-99 | the number 4294967361 is read as an A |
| HtmlEscape.DigitsMisread | src/html/escape.go:107-118 | an x and a semicolon without a digit are read as U+FFFD; a single 9 before a space is copied |
| HtmlEscape.UnescapeNamed | src/html/escape.go:122-163 | the same for named ones: one rune, two runes, a prefix, or a copy |
| HtmlReferences.NumberMeans | src/html/escape.go:69-120 | a reference by number, in decimal or hexadecimal digits of either case, unescapes to the rune that the standard gives to the number, if that does not wrap to the number of another |
| HtmlReferences.RuneAsGiven | src/html/escape.go:16-53 | the replacements are those of the standard: the Windows-1252 runes, and U+FFFD for what is no rune |
| HtmlReferences.NumeralReads | src/html/escape.go:82-105 | the digits of every number are read as that number |
| HtmlReferences.NameMeans | src/html/escape.go:139-148 | a name with its semicolon that the table has unescapes to its one rune or its two runes in order, and unescaping goes on after it |
| HtmlReferences.OpenNameMeans | src/html/escape.go:126-148 | so does a name in the table without a semicolon, if no letter or digit follows |
| HtmlReferences.LongestNameMeans | src/html/escape.go:149-158 | otherwise the longest name of two to six bytes in front that stands for one rune is taken, and unescaping goes on after it |
| HtmlReferences.UnknownName | src/html/escape.go:161-163 | a name that is in no table, nor any name in front of it, is copied |
| HtmlReferences.LoneAmpersand | src/html/escape.go:139-141 | an ampersand before anything else is copied |
| HtmlEscape.ReferenceFits | src/html/entity_test.go:12-29 | if no table entry takes more bytes than its reference, nothing unescaped does |
| HtmlEscape.UnescapeString | src/html/escape.go:187-213 | the loop in place computes the unescaping of the input |
| HtmlEscape.EntityNext | src/html/escape.go:195-210 | each round of the loop keeps dst at most src, the unread part of the buffer equal to the input, and the part written equal to the unescaping of what was read |
| HtmlEscape.CopyNext | src/html/escape.go:207-209 | so does copying the text before the next reference |
| HtmlEscape.UnescapedShrinks | src/html/entity_test.go:12-29 | unescaped text is at most as long as the input |
| HtmlEscape.UnescapeEscape | src/html/escape.go:178-187 | unescaping undoes escaping, for every byte string |
| HtmlReferences.EscapedSafe | src/html/escape.go:166-180 | escaped text holds none of the five characters but the ampersands of its references |
| HtmlReferences.EscapedSame | src/html/escape.go:174-175 | and only these five are changed |
| ByteSearch.FindIsIndex | src/bytes/bytes.go:832-833 | the specification of Index: the least position of a match, or -1 |
| ByteSearch.HashStr | src/bytes/bytes.go:946-959 | the hash of the pattern and primeRK^n modulo 2^32, by squaring |
| ByteSearch.SquareStep | src/bytes/bytes.go:951-957 | one round of squaring keeps pow * sq^i modulo 2^32 |
| ByteSearch.HashRolls | src/bytes/bytes.go:930-932 | the rolled hash is the hash of the next window, modulo 2^32 |
| ByteSearch.IndexRabinKarp | src/bytes/bytes.go:918-939 | the least match or -1 |
| ByteSearch.IndexSmall | src/bytes/bytes.go:852-880 | byte skipping with the processor's routine as the fallback, for any cutover: the least match or -1 |
| ByteSearch.IndexLarge | src/bytes/bytes.go:882-916 | byte skipping with Rabin-Karp as the fallback: the least match or -1 |
| ByteSearch.Index | src/bytes/bytes.go:833-916 | the least match or -1, through every case, for any processor limits |
| Splitting.Count | src/bytes/bytes.go:52-69 | matches found from the left without overlap; for an empty separator one more than the runes |
| Splitting.CountLargest | src/bytes/bytes.go:50-51 | no set of matches without overlap is larger than the count |
| Splitting.CountReached | src/bytes/bytes.go:50-51 | and one is as large |
| Splitting.Explode | src/bytes/bytes.go:29-48 | the first n - 1 runes and the rest, or all runes |
| Splitting.RunesAreRunes | src/bytes/bytes.go:27-48 | each piece is one rune of the text, in order |
| Splitting.ExplodedIs | src/bytes/bytes.go:27-48 | with a limit of n the first n - 1 pieces are the first runes, and there are n; all runes if there are fewer |
| Splitting.GenSplit | src/bytes/bytes.go:216-241 | the loop returns the pieces cut at the matches from the left, at most n of them |
| Splitting.PiecesSize | src/bytes/bytes.go:243-249 | there is one piece more than matches, unless n is less |
| Splitting.PiecesClean | src/bytes/bytes.go:243-250 | no piece holds the separator, but for the unsplit remainder |
| Splitting.SplitAfterKeeps | src/bytes/bytes.go:252-275 | SplitAfter cuts the same pieces and keeps the separator on all but the last |
| Splitting.JoinSplit | src/bytes/bytes.go:216-275 | Join undoes SplitN, and the pieces of SplitAfterN concatenate to the text, for every separator and every n but 0 |
| Splitting.Join | src/bytes/bytes.go:387-407 | the pieces with the separator between them, in a buffer of exactly their length |
| Splitting.Replace | src/bytes/bytes.go:741-775 | what SplitN with n + 1 leaves between the first n matches, joined by the replacement; for an empty old the replacement in front and after each of the first n - 1 runes |
| Splitting.ReplaceCut | src/bytes/bytes.go:741-775 | the loop, by the cuts it makes; the preallocated output is filled exactly |
| Splitting.CutIsInterspersed | src/bytes/bytes.go:736-740 | with an empty old these cuts are in front and after every rune |
| Splitting.CutJoins | src/bytes/bytes.go:734-741 | with old put back this text is the input |
| Splitting.CutLength | src/bytes/bytes.go:756 | the length of the output is the one allocated |
| Splitting.ReplaceIsJoin | src/bytes/bytes.go:734-741 | for a non-empty old, Replace is Join of SplitN with n + 1, or of Split for negative n |
| LineScanner.Scanner.SetErr | src/bufio/scan.go:242-246 | the first error stays, but for the end of the input |
| LineScanner.Scanner.Advance | src/bufio/scan.go:228-239 | an advance within the data consumes it; any other is refused, consumes nothing and records its error unless there was one |
| LineScanner.Scanner.MakeRoom | src/bufio/scan.go:175-203 | the data stays, there is room after it and the buffer is at most the larger of its first size and maxTokenSize, or the token is too long |
| LineScanner.Scanner.ReadMore | src/bufio/scan.go:207-223 | new data, the reader's error, or ErrNoProgress after 101 empty reads |
| LineScanner.Scanner.Split | src/bufio/scan.go:139-168 | the split function on the data held: the next line or nothing yet; the panic for empty tokens cannot fire |
| LineScanner.Scanner.Scan | src/bufio/scan.go:129-225 | a token is exactly the next line of what was read, and with its end it fits the buffer; false means all was returned, or the line does not fit; where an error comes from; with an error recorded a call returns true if and only if data is held |
| LineScanner.Scanner.ScanAll | src/bufio/scan.go:129-225 | for every input and every way it is delivered, the tokens are the lines of what was delivered, of the whole input at its end; over a reader that neither fails nor stalls the end is ErrTooLong if and only if a line does not fit the largest buffer (for a maxTokenSize up to half the largest int); the buffer never grows past the larger of its first size and maxTokenSize |
| LineScanner.Scanner.ScanAgain | src/bufio/scan.go:24-29 | after false another call returns false unless the line was too long, and then what is held of it |
| LineScanner.TokenAfterTooLong | src/bufio/scan.go:184-187 | three letters and a buffer of two: the first call returns false, the second true with two of them |
| LineScanner.RunsNot | src/bufio/scan.go:175-203 | a line that fits makes no run of bytes without a newline that would not |
| LineScanner.LinesAppend | src/bufio/scan.go:334-354 | the lines of whole lines and more are the lines of both |
| LineScanner.LinesAsPromised | src/bufio/scan.go:334-354 | the lines are those that end in an optional carriage return and a newline if and only if the input does not end in a carriage return |
| LineScanner.LineAsWritten | src/bufio/scan.go:334-354 | a line and the newline after it, with one carriage return before that or none, is that line and the lines of the rest |
| LineScanner.OpenAsWritten | src/bufio/scan.go:347-350 | a last line without a newline: the scanner drops one carriage return from it |
| LineScanner.ReturnLost | src/bufio/scan.go:347-350 | a letter and a carriage return: the carriage return is lost |
| LineScanner.LinesAreSplit | src/bufio/scan.go:327-354 | the lines are the pieces that splitting at newlines gives, less the nothing after a last newline, each without a final \r |
| BufferedReader.Reader.Fill | src/bufio/bufio.go:86-114 | the data held stays and is moved to the front, and there is more of it or an error; never called on a full buffer |
| BufferedReader.Reader.Peek | src/bufio/bufio.go:126-150 | the next n bytes of the stream, not consumed, or fewer with the reason, which is ErrBufferFull if and only if n is larger than the buffer; it moves the data to the front if and only if it asks the reader, and else changes nothing; with fewer than n it is all that is held |
| BufferedReader.Reader.Discard | src/bufio/bufio.go:157-183 | consumes n bytes or says how many; no reading if they are buffered; afterwards unreading restores the stream if and only if the last byte skipped equals the last one read before |
| BufferedReader.Reader.Read | src/bufio/bufio.go:190-232 | bytes held are handed over, as many as fit, and the reader is not asked; with none held a pending error is returned once; else one read of the reader, past the buffer or into it, gives the bytes and the error, which waits if bytes came with it into the buffer |
| BufferedReader.Reader.ReadByte | src/bufio/bufio.go:236-248 | the next byte of the stream, without asking the reader if one is held, or the pending error, once |
| BufferedReader.Reader.UnreadByte | src/bufio/bufio.go:251-266 | fails, changing nothing, if and only if there is no byte to unread or no room before the data; else puts the byte last read in the place of the byte last consumed, which leaves the stream as it is if and only if they are the same |
| BufferedReader.UnreadAfterDiscard | src/bufio/bufio.go:157-183 | from a new reader on a and b: reading a, skipping b and unreading makes the next read return a |
| BufferedReader.UnreadAfterPeek | src/bufio/bufio.go:126-150 | from a new reader of 16 bytes on 17: after one byte was read, peeking at 16 makes unreading fail |
| BufferedReader.UnreadAfterReadLine | src/bufio/bufio.go:366-384 | from a new reader of 16 bytes on fifteen a and the end of the line: unreading after ReadLine makes the next read return the carriage return for the last a |
| BufferedReader.EofWithBytes | src/bufio/bufio.go:188-211 | from a new reader: a large Read returns one byte and EOF together |
| BufferedReader.Reader.ReadSlice | src/bufio/bufio.go:316-351 | the stream up to and with the first delimiter, without asking the reader if it is held; or without one the buffer full, or all that is left and an error that the reader told or the lack of progress |
| BufferedReader.Reader.ReadLine | src/bufio/bufio.go:369-402 | a line without its end, a fragment whose final \r is kept back for the next call, or the end; afterwards unreading restores the stream unless a \r was kept back that no \r precedes; "tried to rewind" cannot fire |
| BufferedReader.Reader.ReadBytes | src/bufio/bufio.go:411-449 | the stream up to and with the first delimiter, however long, or all that is left and the error |
| BufferedReader.Reader.ReadAllLines | src/bufio/bufio.go:369-402 | for every buffer size and delivery, the fragments put together are the lines of the stream, the end also closing one, unless the reader failed or stalled |
| BufferedReader.Reader.Run | src/bufio/bufio.go:86-449 | after every run of calls, bytes consumed, held and unread together are the stream if and only if every byte put back was equal to the last one consumed; unreading failed exactly where nothing was read since the last byte put back or Peek had asked the reader since; each call took what was held, and asked the reader for more only where it needed to |
| BufferedReader.ScarsStay | src/bufio/bufio.go:251-266 | no later call mends a byte that was replaced |
| BufferedReader.ReadThenUnread | src/bufio/bufio.go:250-266 | right after a call that read something, unreading is never refused and restores the stream |
| BufferedReader.ReadingStep | src/bufio/bufio.go:369-402 | one more fragment, with a kept back \r, continues or completes the current line |
| BufferedWriter.Writer.Flush | src/bufio/bufio.go:566-587 | sent and held bytes together stay the same; the error is that of the writer underneath, or ErrShortWrite exactly if it wrote short without one; nil means all were sent; after an error nothing is |
| BufferedWriter.Writer.Write | src/bufio/bufio.go:599-621 | sent and held bytes grow by exactly the accepted prefix; fewer than all only with an error, which the writer underneath told or wrote short for; what fits the buffer is not sent; after an error nothing |
| BufferedWriter.Writer.WriteByte | src/bufio/bufio.go:624-634 | the byte is accepted if and only if there is no error, and not sent if it fits |
| BufferedWriter.Writer.WriteString | src/bufio/bufio.go:669-685 | as for Write |
| BufferedWriter.Writer.Run | src/bufio/bufio.go:566-685 | over every run of operations, from any state, the bytes sent and held grow by the accepted prefixes in order; after an error nothing is accepted; a run that starts after an error sends nothing, so what was sent at the first error stays all that is sent; a nil Flush has sent everything; over a writer that neither fails nor writes short there is never an error |

## Left out

- The goroutine that propagateCancel starts for parents of foreign types, the clock and real timers: a timer that is running may fire at any time, and a deadline may have passed when WithDeadline looks. Deriving with a deadline later than the parent's gives a plain cancelable context, which is one of the kinds a step may choose.
- Value, Err and Deadline lookups of contexts, and String methods: they only read. The panic of cancel for a missing error: errors are never missing here.
- Pointer analysis, SSA construction and the computation of dominators, which are foreign code; the printing and size tables of the analyser.
- The one-time initialisation of the pipe and the wrappers around it.
- Assembly versions of the math and byte routines; Remainder, Mod, Frexp and Ldexp are the portable ones. Transcendental functions.
- Utf8.FullRuneDecides: decoding and encoding are modelled by what they return, not by the tables of the package.
- RuneReader.ReadRune.Next: the reader underneath ends with EOF only; other errors of it are not modelled.
- EncodedWords.DecodeHeader: base64 and the client's charset reader are functions given from outside, so B encoding is not modelled.
- EncodedWords.RoundTripExactly: takes from base64 that decoded text is not longer than its encoding.
- Decode of a single encoded-word, and the pool of buffers.
- HtmlEscape.UnescapeString: the entity tables are any tables whose entries are no longer than their references; of their entries only amp, lt and gt are used.
- ByteSearch.Index: the processor's search routine is modelled by what it returns, with any limits and any cutover.
- Splitting.Replace: lengths are unbounded, so an output too long for an int is not modelled; the same holds for Join.
- Splitting.GenSplit: pieces are values; that they share memory with the input, and the limit on their capacity, is not modelled.
- Split functions other than ScanLines, ErrFinalToken and the client's errors.
- ReadRune, UnreadRune, ReadString and WriteTo of the buffered reader; WriteRune and ReadFrom of the buffered writer.
- BufferedReader.Reader.ReadSlice: the slice is a value; that the next read overwrites it is not modelled.
- BufferedWriter.Writer.Write: the writer underneath takes no more than it is given, and after finitely many steps of its script takes everything; without that the loop need not end.
