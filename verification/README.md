# Verified model of the FSPChecker compatibility layer

FSPChecker builds a Win32 program on Linux on top of a compatibility layer: events, mutexes and a
handle table on pthreads, a find-file cursor, a few string and number routines, and the Intel safe
string library. This project models the parts of that layer whose correctness is not obvious from
reading one function, and proves what they promise.

| file | models |
|---|---|
| `Memory.dfy`, `MemPrimitives.dfy`, `MemCopy.dfy` | one shared byte memory; the aligned, unrolled copy and fill loops; `memcpy_s` and `memmove_s` |
| `Strings.dfy`, `Stpncpy.dfy` | `strcpy_s`, `strcat_s`, `stpncpy_s` on the same memory, with overlap detection and null slack |
| `FormatParser.dfy`, `FormatGrammar.dfy` | the printf format scanner and the four `snprintf_s` gates; the directive grammar and a printer for it |
| `Event.dfy` | auto-reset and manual-reset events as a step system over any number of threads |
| `EventFunctions.dfy` | the four event functions on the fields of the event, with their loops, inside that step system |
| `Mutex.dfy` | Win32 mutexes on a recursive pthread mutex, one pthread call a step |
| `HandleTable.dfy`, `Closing.dfy` | the process-wide handle table, key probing and `CloseHandle`; overlapping closes of one handle as a step system |
| `Glob.dfy`, `FindFile.dfy` | the glob to regex translation; `FindFirstFileA` and `FindNextFileA` on that table |
| `Tokenizer.dfy` | `u16cstok` with its static cursor and buffer |
| `Radix.dfy` | `_i64toa` and `_ui64toa` |
| `Wrappers.dfy` | the option type |

The concurrent parts are state machines: an action is what one thread does without giving way, and a
run is any sequence of enabled actions. The sequential parts keep the shape of the C code (arrays
written in place, loops with moving cursors, objects with fields) and are proved against functions on
the old memory, about which the lemmas then speak.

## Where the code and its promises differ

- `CloseHandle` takes the table's lock separately for the type, the object and the erase, so two
  overlapping closes can release the object twice (`NeverReleasedTwiceExactly`, `ReleasedTwice`).
- Auto-reset events can lose a wakeup if a timed-out `pthread_cond_timedwait` may consume a signal,
  which POSIX allows. `NoLostWakeupForCallersExactly` says what callers have to avoid, `LostWakeup`
  gives the run.
- The find functions stop at the first matching entry that fails the exists test, such as a dangling
  symbolic link, although others may follow (`FindAll`, `AllHitsComeOutExactly`,
  `DanglingLinkHidesRest`). The call of `FindNextFileA` that answers FALSE leaves a closed descriptor
  in the record, which `FindClose` closes again (`FindAllAndClose`).
- `ReleaseMutex` on a mutex nobody owns returns TRUE (`ResultDecidedByTryLock`). Its net effect is
  still right, even when another thread takes the mutex between the two unlocks (`ReleaseEffect`,
  `AcquiredBetweenUnlocks`).
- `memcpy_s` refuses a source that lies in the unused rest of the destination buffer, although the
  ranges that would be copied are disjoint (`MemcpyAcceptsExactly`, `DisjointCopyRefused`).
- `stpncpy_s` with dest equal to src, smax 0 and a nonempty string inside dmax decrements an unsigned
  0, and its fill leaves the buffer (`CutInPlace`, `FillerStaysInside`, `AcceptedOverrun`).
- `parse_format` takes the second `%` of `%%` for the start of a directive, and records nothing for a
  directive with a second flag other than 0, a star or the modifier `L`. `ScanOfPrinted` says what it
  records, `ScanExactlyWhenPlain` and `NeverTooFew` for which formats that is right or enough. The
  `snprintf_s` functions let formats through that take more arguments than they pass
  (`StarPassesGate`).
- The wildcards refuse line breaks, so `*` misses names that contain one (`StarMissesLineBreaks`,
  `RightForAllNamesExactly`).
- A path or pattern of 255 characters or more does not read back from a handle record
  (`FieldReadsBack`).
- `u16csnlen` reports a text of length zero as the largest `size_t` (`U16csnlen`), and the radix
  printers print zero as the empty text (`ReadsBack`).

## Model

| member | source | states |
|---|---|---|
| `Memory.MovedUpward` | FSPChecker/Compat/safestringlib/safeclib/mem_primitives_lib.c:341-395 | copying upward in pieces composes to one snapshot copy whenever dest is not above src, for every overlap |
| `Memory.MovedDownward` | FSPChecker/Compat/safestringlib/safeclib/mem_primitives_lib.c:404-459 | copying downward in pieces composes to one snapshot copy whenever dest is not below src |
| `Memory.SourceSurvives` | FSPChecker/Compat/safestringlib/safeclib/memcpy_s.c:147-161 | a copy between ranges that coincide or do not meet leaves the source as it was |
| `MemPrimitives.CopyUnit` | FSPChecker/Compat/safestringlib/safeclib/mem_primitives_lib.c:378-383 | one assignment moves one unit and needs both addresses aligned to it |
| `MemPrimitives.DoWhileUp` | FSPChecker/Compat/safestringlib/safeclib/mem_primitives_lib.c:366-395 | the do-while loops copy exactly count units upward; the counter is never entered at 0 |
| `MemPrimitives.DoWhileDown` | FSPChecker/Compat/safestringlib/safeclib/mem_primitives_lib.c:431-459 | the same downward |
| `MemPrimitives.LeadUp` | FSPChecker/Compat/safestringlib/safeclib/mem_primitives_lib.c:344-361 | the single bytes in front are fewer than four, or all of them, and leave both pointers aligned or nothing to copy |
| `MemPrimitives.LeadDown` | FSPChecker/Compat/safestringlib/safeclib/mem_primitives_lib.c:413-426 | the same for the end pointers |
| `MemPrimitives.LowBits` | FSPChecker/Compat/safestringlib/safeclib/mem_primitives_lib.c:344-350 | casting a pointer to uint32_t keeps the bits that decide its alignment |
| `MemPrimitives.MemPrimMove` | FSPChecker/Compat/safestringlib/safeclib/mem_primitives_lib.c:321-463 | for every memory, alignment and overlap: old source bytes at dest, every other byte unchanged, every word access aligned |
| `MemPrimitives.UnrolledUp` | FSPChecker/Compat/safestringlib/safeclib/mem_primitives_lib.c:508-539 | the fall-through switch copies as many units as its case label says |
| `MemPrimitives.UnrolledDown` | FSPChecker/Compat/safestringlib/safeclib/mem_primitives_lib.c:558-589 | the same with the pointers decremented first |
| `MemPrimitives.MoveUnitsUp` | FSPChecker/Compat/safestringlib/safeclib/mem_primitives_lib.c:506-540 | the upward passes of 16 compose to the snapshot copy and terminate |
| `MemPrimitives.MoveUnitsDown` | FSPChecker/Compat/safestringlib/safeclib/mem_primitives_lib.c:550-590 | the downward passes of 16 compose to the snapshot copy and terminate |
| `MemPrimitives.MemPrimMoveUnits` | FSPChecker/Compat/safestringlib/safeclib/mem_primitives_lib.c:494-853 | `mem_prim_move8`, `16` and `32` are the overlapping snapshot copy for every length |
| `MemPrimitives.MemPrimSetUnits` | FSPChecker/Compat/safestringlib/safeclib/mem_primitives_lib.c:178-290 | `mem_prim_set16` and `set32` lay down length copies of the unit and change nothing else |
| `MemPrimitives.TiledAt` | FSPChecker/Compat/safestringlib/safeclib/mem_primitives_lib.c:178-290 | byte j of the i-th copy is byte j of the unit |
| `MemPrimitives.TiledWordIsByteFill` | FSPChecker/Compat/safestringlib/safeclib/mem_primitives_lib.c:81-130 | four copies of a byte in a word, laid down repeatedly, are a plain byte fill |
| `MemPrimitives.MemPrimSet` | FSPChecker/Compat/safestringlib/safeclib/mem_primitives_lib.c:67-148 | `mem_prim_set` is a plain fill for every length and alignment |
| `MemCopy.MemmoveS` | FSPChecker/Compat/safestringlib/safeclib/memmove_s.c:94-148 | error code and whole final memory of every call; no length is cut to 32 bits on the way to the primitives |
| `MemCopy.MemmoveAcceptsExactly` | FSPChecker/Compat/safestringlib/safeclib/memmove_s.c:101-147 | the accepted calls, exactly: usable dest, src not null, 0 < smax <= dmax, for every overlap |
| `MemCopy.AcceptedCallDelivers` | FSPChecker/Compat/safestringlib/safeclib/memmove_s.c:142-147 | after an accepted call dest holds the old source bytes, whatever the overlap, and every other byte is unchanged |
| `MemCopy.RefusalCodes` | FSPChecker/Compat/safestringlib/safeclib/memcpy_s.c:101-155 | which code a refusal of either function reports |
| `MemCopy.MemcpyS` | FSPChecker/Compat/safestringlib/safeclib/memcpy_s.c:92-162 | error code and whole final memory of every call |
| `MemCopy.MemcpyIsMemmoveWithoutOverlap` | FSPChecker/Compat/safestringlib/safeclib/memcpy_s.c:145-161 | EOK implies equal or disjoint ranges, the memory `memmove_s` would leave, and an unchanged source |
| `MemCopy.MemcpyAcceptsExactly` | FSPChecker/Compat/safestringlib/safeclib/memcpy_s.c:101-155 | the accepted calls, exactly; a disjoint copy is refused iff src lies in the slack of dest |
| `MemCopy.RejectionClearsOnlyDest` | FSPChecker/Compat/safestringlib/safeclib/memcpy_s.c:101-152 | a refused call leaves dest zeroed up to dmax, or everything untouched, and never anything else |
| `MemCopy.DisjointCopyRefused` | FSPChecker/Compat/safestringlib/safeclib/memcpy_s.c:148-149 | a concrete disjoint copy that is refused |
| `Strings.NullOut` | FSPChecker/Compat/safestringlib/safeclib/safe_str_constraint.h:50-62 | the zeroing loop of `handle_error` and of the null slack |
| `Strings.CopyChars` | FSPChecker/Compat/safestringlib/safeclib/strcpy_s.c:138-187 | the loop leaves at the NUL, the bumper or the end of the capacity, whichever comes first, having copied a snapshot of the source |
| `Strings.CopyOrClear` | FSPChecker/Compat/safestringlib/safeclib/strcpy_s.c:134-196 | the three exits: text with slack, or the whole buffer cleared |
| `Strings.StrcpyS` | FSPChecker/Compat/safestringlib/safeclib/strcpy_s.c:93-197 | error code and whole final memory of every call, null arguments and bad capacities included |
| `Strings.StrcpyOutcome` | FSPChecker/Compat/safestringlib/safeclib/strcpy_s.c:130-196 | success iff the source ends before the other buffer and before the capacity, else overlap iff the distance is below the capacity, else no space; on success dest is the source, otherwise it is cleared; nothing outside dest changes |
| `Strings.HoldingReadsBack` | FSPChecker/Compat/safestringlib/safeclib/strcpy_s.c:149-156 | a text laid down with its slack is the C string at dest |
| `Strings.FindEnd` | FSPChecker/Compat/safestringlib/safeclib/strcat_s.c:135-198 | the search for the end of dest, with its overlap and unterminated exits |
| `Strings.LoopErr` | FSPChecker/Compat/safestringlib/safeclib/strcat_s.c:158-230 | what the copy loop reports from the end of dest is the outcome of the whole call |
| `Strings.StrcatS` | FSPChecker/Compat/safestringlib/safeclib/strcat_s.c:100-231 | error code and whole final memory of every call, for both address orders |
| `Strings.StrcatOutcome` | FSPChecker/Compat/safestringlib/safeclib/strcat_s.c:135-230 | success iff m+n < min(d, dmax) below, n < d and m+n < dmax above; then dest is old dest followed by src, else dest is cleared; nothing outside dest changes |
| `Strings.StrcatErrors` | FSPChecker/Compat/safestringlib/safeclib/strcat_s.c:138-230 | which error is reported, read off lengths, distance and capacity |
| `Stpncpy.GuardsAcceptExactly` | FSPChecker/Compat/safestringlib/safeclib/stpncpy_s.c:117-195 | the accepted calls, exactly: smax below dmax, and buffers that coincide or leave a gap |
| `Stpncpy.RefusalCodes` | FSPChecker/Compat/safestringlib/safeclib/stpncpy_s.c:117-195 | which code a refusal reports, read off pointers, distance and sizes |
| `Stpncpy.TruncatesExactly` | FSPChecker/Compat/safestringlib/safeclib/stpncpy_s.c:124-194 | when a refusal also ends the string at dest |
| `Stpncpy.CopyApart` | FSPChecker/Compat/safestringlib/safeclib/stpncpy_s.c:244-281 | between separate buffers the copy always succeeds; the error exit behind the loop is unreachable |
| `Stpncpy.CutInPlace` | FSPChecker/Compat/safestringlib/safeclib/stpncpy_s.c:215-241 | with dest equal to src: the string cut after smax characters and cleared behind, or ESNOSPC, or a fill that leaves the buffer and how far it goes |
| `Stpncpy.FillerStaysInside` | FSPChecker/Compat/safestringlib/safeclib/stpncpy_s.c:215-235 | how far the closing fill goes, and that it stays inside dmax iff smax is not 0 or the string is empty |
| `Stpncpy.AcceptedOverrun` | FSPChecker/Compat/safestringlib/safeclib/stpncpy_s.c:153-235 | a concrete call that passes every guard and whose fill leaves the buffer |
| `Stpncpy.StpncpyS` | FSPChecker/Compat/safestringlib/safeclib/stpncpy_s.c:111-281 | returned pointer, error code and whole final memory, guards with and without truncation included |
| `Stpncpy.StpncpyOutcome` | FSPChecker/Compat/safestringlib/safeclib/stpncpy_s.c:197-281 | the result reads back as the first min(strlen, smax) characters of src, zero up to dmax, nothing outside changed |
| `FormatParser.DirectiveTakesNoPercent` | FSPChecker/Compat/safestringlib/safeclib/snprintf_support.c:68-196 | a directive never consumes a percent sign, so every one of a format is looked at |
| `FormatParser.ScanPercent` | FSPChecker/Compat/safestringlib/safeclib/snprintf_support.c:66-200 | a percent sign adds the tag of the text behind it, and that text is scanned again in full |
| `FormatParser.DirectiveAt` | FSPChecker/Compat/safestringlib/safeclib/snprintf_support.c:68-196 | the loop body strictly advances, stays in front of the terminator, and follows the grammar |
| `FormatParser.ParseFormat` | FSPChecker/Compat/safestringlib/safeclib/snprintf_support.c:58-203 | on every C string: terminates, reads nothing behind the terminator, writes exactly the first maxFormats tags |
| `FormatParser.SnprintfGate` | FSPChecker/Compat/safestringlib/safeclib/snprintf_support.c:205-329 | snprintf is reached iff the parsed tags are the ones demanded; otherwise dest is emptied and which error is returned |
| `FormatGrammar.DemandedExactly` | FSPChecker/Compat/safestringlib/safeclib/snprintf_support.c:205-329 | in terms of the grammar: the tags of a plain format are the demanded ones iff its pieces that take arguments are an integer of the right length, behind a narrow string where one is supplied |
| `FormatGrammar.FormatsWhatIsSupplied` | FSPChecker/Compat/safestringlib/safeclib/snprintf_support.c:221-329 | on a printed plain format snprintf is reached iff the format takes exactly the arguments that the call supplies |
| `FormatGrammar.DirectiveUndoesPrinting` | FSPChecker/Compat/safestringlib/safeclib/snprintf_support.c:68-196 | a printed directive with at most one flag besides zeros, no star and no `L` is taken exactly and gives its argument's tag |
| `FormatGrammar.LongDoubleMissed` | FSPChecker/Compat/safestringlib/safeclib/snprintf_support.c:93-115 | a directive with `L` records nothing |
| `FormatGrammar.SecondFlagMissed` | FSPChecker/Compat/safestringlib/safeclib/snprintf_support.c:71-86 | a directive with a second flag other than 0 records nothing |
| `FormatGrammar.StarWidthMissed` | FSPChecker/Compat/safestringlib/safeclib/snprintf_support.c:82-87 | a directive with a star for its width records nothing |
| `FormatGrammar.StarPrecisionMissed` | FSPChecker/Compat/safestringlib/safeclib/snprintf_support.c:87-92 | a directive with a star for its precision records nothing |
| `FormatGrammar.RecordsExactlyDirectives` | FSPChecker/Compat/safestringlib/safeclib/snprintf_support.c:68-196 | on every text: a tag is recorded iff the text begins with what a recognised directive that takes an argument prints behind its percent sign |
| `FormatGrammar.ScanOfPrinted` | FSPChecker/Compat/safestringlib/safeclib/snprintf_support.c:66-202 | what is recorded for every list of literals, `%%` and valid directives, in terms of the grammar alone |
| `FormatGrammar.ScanUndoesRender` | FSPChecker/Compat/safestringlib/safeclib/snprintf_support.c:66-202 | parser after printer on every plain list: recognised directives, and no text behind a `%%` that reads on like one |
| `FormatGrammar.ScanExactlyWhenPlain` | FSPChecker/Compat/safestringlib/safeclib/snprintf_support.c:66-202 | for every valid list that does not both miss and invent arguments: the tags are right iff every directive that takes an argument is recognised and no text behind a `%%` begins like the rest of one |
| `FormatGrammar.NeverTooFew` | FSPChecker/Compat/safestringlib/safeclib/snprintf_support.c:66-202 | for every valid list: enough arguments are found iff no more are missed, by a second flag, a star or an `L`, than are invented behind a `%%` |
| `FormatGrammar.ArgumentBalance` | FSPChecker/Compat/safestringlib/safeclib/snprintf_support.c:66-202 | the number found plus the number missed is the number taken plus the number invented |
| `FormatGrammar.SecondFlagFormat` | FSPChecker/Compat/safestringlib/safeclib/snprintf_support.c:71-81 | `%-+d` takes one int and nothing is recorded for it |
| `FormatGrammar.StarPassesGate` | FSPChecker/Compat/safestringlib/safeclib/snprintf_support.c:221-242 | `%*d%d` takes three ints and passes the test of the function that supplies one |
| `FormatGrammar.MixedCanCancel` | FSPChecker/Compat/safestringlib/safeclib/snprintf_support.c:66-202 | in `%-+d%%d` a missed and an invented argument make up for each other |
| `FormatGrammar.NeverLongDouble` | FSPChecker/Compat/safestringlib/safeclib/snprintf_support.c:93-156 | no format at all yields the long double tag |
| `FormatGrammar.DoublePercentMiscounted` | FSPChecker/Compat/safestringlib/safeclib/snprintf_support.c:68-75 | `%%d` takes no argument and is recorded as one int |
| `Event.MutexInvKept` | FSPChecker/Compat/eventapi.cpp:29-177 | every step keeps: one thread at most is inside a critical section and it is the mutex owner |
| `Event.WakeupInvKept` | FSPChecker/Compat/eventapi.cpp:43-54 | every step keeps: a set event with a sleeper has a signaller or a waiter about to look again; for an auto-reset event as long as nobody is inside a timed wait that may swallow a signal |
| `Event.NoLostWakeup` | FSPChecker/Compat/eventapi.cpp:93-144 | over all runs, any number of waiters, spurious wakeups and timeouts: no set event leaves a waiter asleep for good, if it is manual-reset, or timeouts never consume signals, or no waits are timed |
| `Event.LostWakeup` | FSPChecker/Compat/eventapi.cpp:93-144 | a run that loses a wakeup when a timeout swallows the signal |
| `Event.NoLostWakeupExactly` | FSPChecker/Compat/eventapi.cpp:43-144 | on a given platform no run loses a wakeup iff the event is manual-reset, timeouts never consume a signal, or callers never use timed waits |
| `Event.NoLostWakeupForCallersExactly` | FSPChecker/Compat/eventapi.cpp:29-153 | on every platform POSIX allows, no run loses a wakeup iff the event is manual-reset or `event_timedwait` is not used |
| `Event.SignalsConserved` | FSPChecker/Compat/eventapi.cpp:29-153 | between any two points of a run an auto-reset event serves no more waits than it was set |
| `Event.SignalsConservedFromStart` | FSPChecker/Compat/eventapi.cpp:3-153 | served waits plus a pending set never exceed the sets plus the initial state |
| `Event.NoSetServesTwice` | FSPChecker/Compat/eventapi.cpp:51-144 | a stretch without a set serves at most one wait |
| `Event.WaitTakesOneSignalOrNone` | FSPChecker/Compat/eventapi.cpp:29-118 | over any interleaving a whole wait touches the flag in one step only: a success finds it set, is counted once and clears an auto-reset event; a timeout changes nothing |
| `Event.TimeoutConsumesNothing` | FSPChecker/Compat/eventapi.cpp:62-118 | from its call to its return a wait that reports a timeout changes neither the flag nor any count |
| `Event.TimesOutExactly` | FSPChecker/Compat/eventapi.cpp:93-115 | over any interleaving a whole wait reports a timeout iff its sleep timed out between its call and its return |
| `Event.TimeoutHappens` | FSPChecker/Compat/eventapi.cpp:62-118 | a run in which a timed wait reports a timeout |
| `Event.SleepersMayWake` | FSPChecker/Compat/eventapi.cpp:93-101 | on every run any sleeper may wake spuriously and any timed one may time out |
| `Event.SetAndResetStoreOnce` | FSPChecker/Compat/eventapi.cpp:119-177 | over any interleaving a whole set or reset stores its value in one step, a set signals behind it, and nothing else of it touches the flag |
| `EventFunctions.EventObject.constructor` | FSPChecker/Compat/eventapi.cpp:3-28 | `event_create` starts a history in the initial state |
| `EventFunctions.ForeignStepKeeps` | FSPChecker/Compat/eventapi.cpp:29-177 | what others do leaves a thread its place, and the flag while it holds the mutex |
| `EventFunctions.ForeignExactly` | FSPChecker/Compat/eventapi.cpp:29-177 | what a schedule can do: everything but the calls and steps of the functions themselves |
| `EventFunctions.EventObject.Yield` | FSPChecker/Compat/eventapi.cpp:29-177 | an interruption does exactly what its burst of the schedule says |
| `EventFunctions.EventObject.StuckCannotStep` | FSPChecker/Compat/eventapi.cpp:39-101 | a call that has not returned has no step of its own to take |
| `EventFunctions.EventObject.CondWait` | FSPChecker/Compat/eventapi.cpp:43-50 | a condition variable wait ends woken or timed out with the mutex held again, or the schedule ends first |
| `EventFunctions.EventObject.EventWait` | FSPChecker/Compat/eventapi.cpp:29-61 | for every schedule of the other threads the call is one whole wait of a run of the step system, and 0 means it succeeded; one that has not returned is stuck |
| `EventFunctions.EventObject.EventTimedwait` | FSPChecker/Compat/eventapi.cpp:62-118 | for every schedule the call is one whole timed wait of a run: 0 iff it succeeded, 1 iff its sleep timed out between call and return; one that has not returned is stuck |
| `EventFunctions.EventObject.Wake` | FSPChecker/Compat/eventapi.cpp:131-144 | a manual-reset event wakes every sleeper, an auto-reset one at least one |
| `EventFunctions.EventObject.EventSet` | FSPChecker/Compat/eventapi.cpp:119-153 | for every schedule the call is lock, store, signal and unlock, one whole set of a run of the step system |
| `EventFunctions.EventObject.EventReset` | FSPChecker/Compat/eventapi.cpp:154-177 | for every schedule the call is lock, store and unlock, one whole reset of a run of the step system |
| `Mutex.OthersKeepTheirHolds` | FSPChecker/Compat/synchapi.cpp:205-212 | no pthread step of one thread changes what another holds |
| `Mutex.InvKept` | FSPChecker/Compat/synchapi.cpp:205-212 | every step keeps the caller's hold count known at each point of `ReleaseMutex`, and at most one owner |
| `Mutex.HoldKeptWhileOthersRun` | FSPChecker/Compat/synchapi.cpp:201-312 | a thread that takes no step keeps its hold count over any stretch of a run |
| `Mutex.ReleaseEffect` | FSPChecker/Compat/synchapi.cpp:194-213 | over every interleaving `ReleaseMutex` lowers the caller's count by exactly one, or leaves it at none |
| `Mutex.CallsAreAtomic` | FSPChecker/Compat/synchapi.cpp:194-313 | on every run the mutex holds what the calls of a thread say, as if each call were one step |
| `Mutex.MutualExclusion` | FSPChecker/Compat/synchapi.cpp:283-313 | two threads between calls never both have releases left to do |
| `Mutex.ResultDecidedByTryLock` | FSPChecker/Compat/synchapi.cpp:194-213 | a whole call over any interleaving performs one trylock and returns TRUE iff no other thread owns the mutex at that moment; FALSE names an owner |
| `Mutex.AcquiredBetweenUnlocks` | FSPChecker/Compat/synchapi.cpp:205-212 | the run in which another thread takes the mutex between the two unlocks and keeps it |
| `Mutex.WaitEndsByAcquiringOrTimeout` | FSPChecker/Compat/synchapi.cpp:283-313 | a whole wait over any interleaving ends with one hold more on a mutex nobody else owns, or, only if timed, with the holds it came with |
| `Mutex.RecursiveMutex.TryLock` | FSPChecker/Compat/synchapi.cpp:205-205 | busy iff another thread owns it, else the count goes up |
| `Mutex.RecursiveMutex.Unlock` | FSPChecker/Compat/synchapi.cpp:206-207 | rejected without effect for a thread that is not the owner |
| `Mutex.RecursiveMutex.ReleaseMutex` | FSPChecker/Compat/synchapi.cpp:194-213 | trylock, unlock, unlock is one release when nobody interferes |
| `HandleTable.FieldReadsBack` | FSPChecker/Compat/common_handle.h:78-116 | a text reads back from a record iff it is shorter than the field |
| `HandleTable.LiveRunBounded` | FSPChecker/Compat/common_handle.cpp:81-94 | a run of live keys is no longer than the table |
| `HandleTable.RoomToProbe` | FSPChecker/Compat/common_handle.cpp:81-94 | a free key below INT_MAX exists while the table is smaller than the room above the start |
| `HandleTable.AccountGrows` | FSPChecker/Compat/common_handle.cpp:96-133 | one more operation changes the record of its own handle only |
| `HandleTable.OthersDoNotMatter` | FSPChecker/Compat/common_handle.cpp:96-133 | a handle keeps its record through everything that happens to others |
| `HandleTable.ReadsBackLastStore` | FSPChecker/Compat/common_handle.cpp:96-133 | a live handle reads back what its registration or its last update stored |
| `HandleTable.ClosedUntilReissued` | FSPChecker/Compat/common_handle.cpp:724-755 | a closed handle has no record until its key is issued again |
| `HandleTable.Table.constructor` | FSPChecker/Compat/common_handle.cpp:25-28 | the table starts empty |
| `HandleTable.Table.NewKey` | FSPChecker/Compat/common_handle.cpp:81-94 | probing finds the first free key, within as many increments as there are entries |
| `HandleTable.Table.Register` | FSPChecker/Compat/common_handle.cpp:182-695 | a registration adds one record under a key that was not live and changes no other |
| `HandleTable.Table.RegFd` | FSPChecker/Compat/common_handle.cpp:96-118 | the record of a find handle holds descriptor, path and pattern as its fields can |
| `HandleTable.Table.UpdateFd` | FSPChecker/Compat/common_handle.cpp:120-133 | descriptor and path of a live record are replaced, nothing else; no effect on other keys |
| `HandleTable.Table.Erase` | FSPChecker/Compat/common_handle.cpp:741-755 | the record goes away, every other stays |
| `HandleTable.Table.TypeOfLive` | FSPChecker/Compat/common_handle.cpp:724-739 | exactly the live handles have a type other than INVALID, that of their object |
| `HandleTable.Table.GettersTellTheRecord` | FSPChecker/Compat/common_handle.cpp:135-180 | the getters of a find handle return what was stored, and -1 and empty texts for a dead handle |
| `HandleTable.Table.CloseHandle` | FSPChecker/Compat/handleapi.cpp:14-147 | a closed handle has type INVALID, other entries never change, and when TRUE is returned |
| `Closing.InvKept` | FSPChecker/Compat/handleapi.cpp:14-147 | while closes of a handle do not overlap every step keeps: its object is released at most once, behind the release of the one close |
| `Closing.ReleasedTwice` | FSPChecker/Compat/handleapi.cpp:14-147 | a run of two overlapping closes that releases the object twice |
| `Closing.LateCloseReleasesNothing` | FSPChecker/Compat/handleapi.cpp:24-31 | a close that reads the object behind another's erase releases nothing |
| `Closing.NeverReleasedTwiceExactly` | FSPChecker/Compat/handleapi.cpp:14-147 | over all runs the object is released at most once iff no two closes of its handle overlap |
| `Glob.RegexReplace` | FSPChecker/Compat/fileapi.cpp:98-103 | one textual pass |
| `Glob.TranslatePattern` | FSPChecker/Compat/fileapi.cpp:98-103 | the three passes in their order |
| `Glob.CompileStep` | FSPChecker/Compat/fileapi.cpp:98-103 | the passes translate character by character: what one inserts a later one leaves alone |
| `Glob.CompiledParses` | FSPChecker/Compat/fileapi.cpp:98-104 | the produced text is a regular expression with one item for each pattern character |
| `Glob.CompileGlobExact` | FSPChecker/Compat/fileapi.cpp:98-114 | for every name: the regex accepts exactly what the glob denotes when its wildcards refuse line breaks |
| `Glob.StarIsAnyStretch` | FSPChecker/Compat/fileapi.cpp:100-101 | in the meaning of a glob a star stands for any stretch of characters |
| `Glob.CompileGlobCorrect` | FSPChecker/Compat/fileapi.cpp:98-114 | of names without line breaks the regex accepts exactly those the glob denotes |
| `Glob.RightForAllNamesExactly` | FSPChecker/Compat/fileapi.cpp:98-114 | a plain pattern is compiled right for all names iff it has no wildcard |
| `Glob.StarMissesLineBreaks` | FSPChecker/Compat/fileapi.cpp:98-114 | the pattern `*` accepts exactly the names without a line break |
| `FindFile.SortSorts` | FSPChecker/Compat/fileapi.cpp:110-110 | sorting keeps the entries and orders them strictly |
| `FindFile.LessExactly` | FSPChecker/Compat/fileapi.cpp:110-110 | the order is the lexicographic one |
| `FindFile.ListingOrderIrrelevant` | FSPChecker/Compat/fileapi.cpp:104-110 | the order the directory iterator happens to use does not matter |
| `FindFile.RescanFindsNext` | FSPChecker/Compat/fileapi.cpp:257-274 | a rescan from the stored path finds the next hit, or nothing after the last |
| `FindFile.StoredPosition` | FSPChecker/Compat/fileapi.cpp:257-284 | after k calls the stored path is the k-th hit, or the last one in front of the first hit that does not exist |
| `FindFile.CursorRefinesFilter` | FSPChecker/Compat/fileapi.cpp:211-327 | call k returns hit k+1 while all hits up to it exist, and every later call returns FALSE; the hits are the matching entries, sorted |
| `FindFile.NormalizedTwice` | FSPChecker/Compat/fileapi.cpp:84-84 | the stored pattern, which `FindNextFileA` normalises again, stays the same |
| `FindFile.NormalizedExactly` | FSPChecker/Compat/fileapi.cpp:84-84 | every backslash becomes a slash and nothing else changes |
| `FindFile.AllHitsComeOutExactly` | FSPChecker/Compat/fileapi.cpp:124-128 | all matching entries come out iff all of them exist |
| `FindFile.DanglingLinkHidesRest` | FSPChecker/Compat/fileapi.cpp:104-128 | a directory in which one dangling link in the middle of the hits ends the enumeration behind the first |
| `FindFile.RescansAgree` | FSPChecker/Compat/fileapi.cpp:251-257 | two calls on an unchanged directory work on the same sorted paths |
| `FindFile.JoinSplits` | FSPChecker/Compat/fileapi.cpp:112-114 | the last component of an entry's path is its name |
| `FindFile.ParentOfJoin` | FSPChecker/Compat/fileapi.cpp:88-89 | the parent of an entry's path is its directory, the root included |
| `FindFile.HitIsGlobMatch` | FSPChecker/Compat/fileapi.cpp:112-118 | with an engine that understands plain patterns, a hit is an entry whose name the glob denotes, if no wildcard has to stand for a line break |
| `FindFile.SearchFirst` | FSPChecker/Compat/fileapi.cpp:111-118 | the search loop returns the first hit |
| `FindFile.SearchNext` | FSPChecker/Compat/fileapi.cpp:258-274 | the search loop with its flag returns the first hit behind the stored path |
| `FindFile.FindFirstFileA` | FSPChecker/Compat/fileapi.cpp:64-174 | for every regex engine: a hit that passes the exists test gives a fresh handle whose record holds path and pattern; otherwise no handle and no change; a name without wildcards is found iff it exists |
| `FindFile.FindNextFileA` | FSPChecker/Compat/fileapi.cpp:211-327 | for every regex engine: a next hit that passes the exists test replaces path and descriptor; otherwise, and always without wildcards, FALSE and no change; which descriptor is closed |
| `FindFile.SearchesNamedDirectory` | FSPChecker/Compat/fileapi.cpp:85-118 | with a pattern behind a directory path both calls search exactly that directory, by that pattern |
| `FindFile.WildcardDirectoryFindsNothing` | FSPChecker/Compat/fileapi.cpp:89-94 | a wildcard in the directory finds nothing |
| `FindFile.BarePatternFindsNothing` | FSPChecker/Compat/fileapi.cpp:88-109 | a pattern without a directory finds nothing |
| `FindFile.HitsAreFilter` | FSPChecker/Compat/fileapi.cpp:251-274 | the sorted set of matching entries is what the search loops go through |
| `FindFile.DenotedAreHits` | FSPChecker/Compat/fileapi.cpp:98-118 | the sorted names that a plain glob denotes in the directory make exactly the hits |
| `FindFile.OpenCursor` | FSPChecker/Compat/fileapi.cpp:64-174 | with a wildcard pattern the handle points at the first hit, if there is one and it exists |
| `FindFile.MoveCursor` | FSPChecker/Compat/fileapi.cpp:211-327 | a call moves the handle from hit k to hit k+1 if that exists, otherwise returns FALSE and leaves the record alone; it closes the descriptor either way |
| `FindFile.FindAll` | FSPChecker/Compat/fileapi.cpp:64-327 | a caller's loop over one find handle gets the names of the hits in front of the first one that does not exist, each once, in sorted order, and closes each descriptor once |
| `FindFile.FindAllNames` | FSPChecker/Compat/fileapi.cpp:64-327 | for a file name made of a directory path and a plain glob, and names without line breaks, a caller's loop gets exactly the sorted names in that directory that the glob denotes, in front of the first one that does not exist |
| `FindFile.FindClose` | FSPChecker/Compat/fileapi.cpp:329-344 | the record goes away and its descriptor is closed |
| `FindFile.FindAllAndClose` | FSPChecker/Compat/fileapi.cpp:258-344 | after a whole enumeration the last descriptor has been closed twice, every other once |
| `Tokenizer.U16csnlen` | FSPChecker/Compat/tchar.cpp:118-132 | the bounded length, except that zero is reported as the largest size_t and null as zero |
| `Tokenizer.Scan` | FSPChecker/Compat/tchar.cpp:194-226 | both scan loops stop at the first character of the other kind, or at the terminator |
| `Tokenizer.FirstRun` | FSPChecker/Compat/tchar.cpp:194-226 | a call finds the first maximal delimiter-free run ahead of the cursor |
| `Tokenizer.RunsAreMaximal` | FSPChecker/Compat/tchar.cpp:182-242 | the runs handed out are exactly the maximal delimiter-free runs |
| `Tokenizer.RunsInOrder` | FSPChecker/Compat/tchar.cpp:182-242 | they come in order, a delimiter at least apart |
| `Tokenizer.CallsEnumerateRuns` | FSPChecker/Compat/tchar.cpp:182-242 | call k returns the k-th maximal run, every call behind the last returns NULL, and the text ahead gets strictly shorter |
| `Tokenizer.TokensConserveText` | FSPChecker/Compat/tchar.cpp:194-226 | the tokens put together are the text without its delimiters |
| `Tokenizer.State.Reserve` | FSPChecker/Compat/tchar.cpp:228-237 | the static buffer is big enough afterwards and is only replaced when it was too small |
| `Tokenizer.State.Deliver` | FSPChecker/Compat/tchar.cpp:230-241 | the buffer holds the token and its terminator, and the cursor is behind it |
| `Tokenizer.State.U16cstok` | FSPChecker/Compat/tchar.cpp:182-242 | answer, cursor and buffer of one call, with and without a text, a previous text and delimiters |
| `Tokenizer.AllTokens` | FSPChecker/Compat/tchar.cpp:182-242 | one call with the text and calls without it until NULL collect the texts of the maximal runs, in order |
| `Radix.HornerOfDigits` | FSPChecker/Compat/stdlib_win.cpp:52-57 | the digits read by Horner's rule give the value |
| `Radix.DigitsOfHorner` | FSPChecker/Compat/stdlib_win.cpp:52-57 | every numeral of the radix is the printed form of its value |
| `Radix.DigitsAreNumeral` | FSPChecker/Compat/stdlib_win.cpp:52-57 | digits are in range and no zero leads |
| `Radix.DigitCount` | FSPChecker/Compat/stdlib_win.cpp:52-57 | a value below 2^n has at most n digits in any radix |
| `Radix.ReadsBack` | FSPChecker/Compat/stdlib_win.cpp:44-71 | the printed text has at most 64 digits, no leading zero, no NUL, and reads back as the value; zero prints nothing |
| `Radix.PrintingIsInjective` | FSPChecker/Compat/stdlib_win.cpp:15-42 | different signed values print differently |
| `Radix.NumeralUnique` | FSPChecker/Compat/stdlib_win.cpp:44-71 | a value has only one numeral, so that contract fixes the text |
| `Radix.PushDigits` | FSPChecker/Compat/stdlib_win.cpp:52-57 | the division loop leaves the digits on the stack, the most significant on top |
| `Radix.PopDigits` | FSPChecker/Compat/stdlib_win.cpp:58-69 | the pop loop writes text and terminator and nothing behind |
| `Radix.Ui64toa` | FSPChecker/Compat/stdlib_win.cpp:44-71 | the text left is digits of the radix, without a zero in front, that read back as the value, with a terminator and the rest of the buffer as it was; unchanged when the radix is refused |
| `Radix.I64toa` | FSPChecker/Compat/stdlib_win.cpp:15-42 | the same, reading back as the value, or as the value plus 2^64 when it is negative |

## Left out

- MemPrimitives.MemPrimMove: a zero length with misaligned pointers is excluded, because the first do-while loop would be entered with a zero counter; the guarded functions never do that.
- Stpncpy.StpncpyS: excludes smax of SIZE_MAX, where smax + 1 wraps. When the fill leaves the buffer the model reports how far it goes and stops in front of it, so what that fill overwrites is not modelled.
- Stpncpy.CutInPlace: likewise stops in front of a fill that leaves the buffer.
- FormatParser.SnprintfGate: stops at the call of `snprintf`, which is not part of this model.
- FormatGrammar.ScanExactlyWhenPlain: leaves out lists that both miss and invent arguments, where the two can cancel (`MixedCanCancel`); what is recorded for those is `ScanOfPrinted`. Formats outside the directive grammar are covered by `ParseFormat` alone.
- EventFunctions.EventObject.EventWait: the other threads are a schedule, which is finite, so a call that never returns shows as one that is still inside; the same holds for the other three functions.
- Mutex.RecursiveMutex: interleaving is modelled on values by the step system; the limit of the recursion count is not modelled.
- HandleTable.Table.GetFdPath: only for find handles or dead keys; reading another kind of record through the union is not modelled.
- HandleTable.Table.NewKey: requires a free key between the random start and INT_MAX, since the code increments an int; `RoomToProbe` says when there is one.
- HandleTable.Table.CloseHandle: on the table it is modelled without interference; overlapping closes of one handle are modelled on values in `Closing`, with a key that is not issued again meanwhile. What is released (descriptor, library, mutex, event) and whether that succeeds is not modelled.
- HandleTable.Table.UpdateFd: only for find handles or dead keys; on a live handle of another kind the code overwrites the union of its record.
- HandleTable.Table.Register: requires a free key like `NewKey`.
- HandleTable.Table.RegFd: requires a free key like `NewKey`.
- FindFile.FindFirstFileA: a null name, the file attributes, times and sizes it reports, the cut of a long name in the result, and the failing cases of open are not modelled; a directory that cannot be listed ends the call without a hit.
- FindFile.FindNextFileA: the result of open is a parameter; stored texts have to read back from their fields.
- Glob.CompileGlobCorrect: patterns with other regex syntax than `.`, `*` and `?` are excluded; the find functions take the regex engine as a parameter, and the rest of the engine is not part of this model. For names with line breaks see `Glob.CompileGlobExact`.
- Tokenizer.State.U16cstok: an empty set of delimiters is excluded, because its length is reported as the largest size_t and the scan leaves the text; tokenizing the static buffer itself is excluded too.
- Tokenizer.AllTokens: the same exclusions.
- Radix.Ui64toa: radix 10 is left to `sprintf` and not modelled.
- Radix.I64toa: radix 10 is left to `sprintf` and not modelled.
- Pointers are indices into one memory, so an address computation never wraps.
- System calls, the clock, Boost paths and locales, dynamic loading, character conversion and logging are abstracted or absent; path normalisation of repeated separators is not modelled.
- Error returns of pthread functions other than the two refusals of a recursive mutex.
- `SetEvent`, `ResetEvent` and the event branch of `WaitForSingleObject` in `synchapi.cpp`, which forward to the modelled functions and map their results.
- The code under `USE_BOOST_EVENT`, `USE_BOOST_MUTEX` and `USE_BOOST_MAP`, and the stubs.
- The lookup of named mutexes in `CreateMutexA`: lookup and registration are two critical sections, so uniqueness holds only sequentially.
- Handle value 0, which the find functions use for "not found".
- `stpcpy_s`, the 16 and 32 bit variants and the comparison and search functions of the string library, which repeat the modelled ones or are simpler.
