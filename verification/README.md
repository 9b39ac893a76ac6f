# Nios II HAL and OpenCores I2C: a verified model

This project models the board support package of the I2C teaching system (the Nios II hardware
abstraction layer) and the driver of its OpenCores I2C master core, and proves what they promise. Check it
with `dafny verify dfyconfig.toml`.

Code that updates things in place is a class or a method here (alarm nodes and their links, the descriptor
array, the printer's state machine, the core's registers, the caches, heap and slab pointers). Each such
method is proved to do what a function on values says, and the laws are proved about those functions.

| modules | what they model |
|---|---|
| `Words`, `Numerals`, `Bits` | 32-bit words and their wrap-around, digits and numerals, words read nibble by nibble |
| `AlarmSpec`, `AlarmProof`, `AlarmClock` | the alarm list on a 32-bit tick counter with one rollover bit, against a scheduler with unbounded time |
| `FdFlags`, `FdSpec`, `FdProof`, `FdTable` | the file-descriptor pool: first-fit slots, high-water mark, exclusive device locks, redirection |
| `Format`, `FormatProof`, `LogPrintf`, `AltPrintf`, `LetterProof` | the two printers, against a reference that first reads directives and then renders them, and what each letter prints |
| `I2cSpec`, `I2cProof`, `I2cDriver` | the driver's register writes, the master core's byte commands, and an AT24C64 EEPROM on the bus |
| `Cache`, `CacheFlush` | the write-back data cache and the instruction cache, and the flush calls |
| `WallClock` | `settimeofday` and `gettimeofday` |
| `Irq` | the interrupt dispatcher |
| `Heap` | `sbrk` and the profiler's slab allocator |

## Promises the code does not keep everywhere

The code is modelled as it is; where a promise fails, a lemma says exactly when.

- An interval of 2^32-1 ticks is within `alt_alarm_start`'s argument type, but one bit of rollover holds it
  only when the alarm is started on the counter's last value (`AlarmProof.IntervalKeptIff`); otherwise
  the alarm fires on the next tick (`AlarmProof.LongestIntervalEarly`) and the interval after that can be one
  tick short, or a whole turn too long (`AlarmProof.NextCallBehind`). Other alarms are not affected.
- `alt_fd_lock` promises a lock only if no other descriptor refers to the device, but its loop leaves out
  the slot `alt_max_fd`. A granted lock is exclusive exactly if that slot does not share the device
  (`FdProof.GrantedExclusiveIff`); `FdProof.SharedLockReachable` reaches a lock that is not. Still, no device
  is ever locked twice (`FdProof.ReachableSafe`).
- `settimeofday` promises that an immediate `gettimeofday` returns the time set. Its product is 32 bits wide; at
  any tick rate the promise is kept exactly if the wraps lost are a multiple of 15625, or the time set is zero
  and the loss is clamped away (`WallClock.ImmediateExactIff`). Later reads count the ticks' microseconds only at
  rates that divide 10^6 (`WallClock.CountsTicksIff`, `WallClock.ClockExactIff`).
- A write followed by a read of the same register returns the data, whatever it is, exactly if the bytes stay
  within one EEPROM page (`I2cProof.RoundTripExact`).
- `alt_fd_lock` promises that close() drops the lock. It does exactly for descriptors above 2
  (`FdProof.CloseDropsLockIff`); `FdProof.StandardLockReachable` reaches a lock on standard input.
- `InitI2C` sets the frequency asked for only if the quotient fits 16 bits and the product 32: exactly from 306 Hz
  on, unless five times the frequency wraps to at most the clock's (`I2cDriver.Core.InitI2C`);
  `I2cDriver.TooSlow` is the failing input 305.
- `mcount_allocate` does not look at what sbrk returns. Its block lies in a slab inside the heap exactly if the
  refill it needs succeeds or, when it needs none, the last refill did (`Heap.McountFitsIff`). After one that
  failed, the next call gets addresses from near zero (`Heap.SecondAfterFailure`), as `__mcount_record` can.
- sbrk accepts negative increments, and then hands memory out again: from inside the heap its next block overlaps
  an earlier one exactly if the rounded heap_end is below the highest end a block has had (`Heap.OverlapIff`). The comment on
  `alt_sbrk` says that it checks no bounds; the code does check the heap limit, and the model follows the code.

## Model

| member | source | states |
|---|---|---|
| AlarmProof.RunRefines | P03_IIC_IP/CoreCourse_GHRD/software/iic_test_bsp/HAL/src/alt_tick.c:87-141 | after every run from reset, across any number of counter wraps and whatever other alarms do, the list holds an alarm that is never started while registered: no entry when it is off, and when it is due at tick D one entry with time D mod 2^32, the rollover bit the difference in wraps, and D ahead by at most 2^32-1 (but for the interval 2^32-1 started on the counter's last value, or a turn missed behind: 2^32 ahead, bit clear) |
| AlarmProof.StepFollows | P03_IIC_IP/CoreCourse_GHRD/software/iic_test_bsp/HAL/src/alt_tick.c:87-141 | each start, stop and tick, of this or other alarms, keeps that and calls the alarm exactly when it is due |
| AlarmProof.ListRefines | P03_IIC_IP/CoreCourse_GHRD/software/iic_test_bsp/HAL/src/alt_tick.c:87-141 | over every run whose intervals are all representable, the whole list is that of the scheduler with unbounded time, entry by entry |
| AlarmProof.StepRefines | P03_IIC_IP/CoreCourse_GHRD/software/iic_test_bsp/HAL/src/alt_tick.c:96-141 | each step of the 32-bit scheduler is the step of the one with unbounded time: the same alarms are called, in the same order, and the representation is kept, also on the tick that makes the counter zero |
| AlarmProof.ArmedTracks | P03_IIC_IP/CoreCourse_GHRD/software/iic_test_bsp/HAL/src/alt_alarm_start.c:80-96 | starting an alarm represents the deadline now + nticks + 1 |
| AlarmProof.FiresExactlyWhenDue | P03_IIC_IP/CoreCourse_GHRD/software/iic_test_bsp/HAL/src/alt_tick.c:115-139 | after any run in which this alarm is never started while registered, with any intervals and any other alarms, an event calls it once if it is the tick its status says and not at all otherwise |
| AlarmProof.FirstCallOnTime | P03_IIC_IP/CoreCourse_GHRD/software/iic_test_bsp/HAL/src/alt_alarm_start.c:64-98 | an alarm that is off, started with nticks below 2^32-1 (or with it on the counter's last value) and left alone, is called by the (nticks+1)-th tick after and by none before |
| AlarmProof.NextCallOnTime | P03_IIC_IP/CoreCourse_GHRD/software/iic_test_bsp/HAL/src/alt_tick.c:117-138 | a callback that returned r > 0 is called again by the r-th tick after and by none before, unless the alarm was behind; one that returned 0 is not called again |
| AlarmProof.NeverBehind | P03_IIC_IP/CoreCourse_GHRD/software/iic_test_bsp/HAL/src/alt_alarm_start.c:82-96 | an alarm whose own intervals are representable is never behind |
| AlarmProof.IntervalKeptIff | P03_IIC_IP/CoreCourse_GHRD/software/iic_test_bsp/HAL/src/alt_alarm_start.c:82-96 | an interval of an alarm that is off is kept in every wait exactly if it is below 2^32-1 or the counter stands at its last value |
| AlarmProof.LongestIntervalEarly | P03_IIC_IP/CoreCourse_GHRD/software/iic_test_bsp/HAL/src/alt_alarm_start.c:82-96 | otherwise an alarm started with 2^32-1 is behind, and called by the very next tick |
| AlarmProof.NextCallBehind | P03_IIC_IP/CoreCourse_GHRD/software/iic_test_bsp/HAL/src/alt_tick.c:117-138 | called while behind, an alarm that returned r >= 2 is called again r-1 ticks later, and one that returned 1 by the next tick, or a whole turn later on the counter's last value |
| AlarmProof.StoppedIsSilent | P03_IIC_IP/CoreCourse_GHRD/software/iic_test_bsp/HAL/src/alt_tick.c:66-73 | a stopped alarm is not called, whatever other alarms do, until it is started again |
| AlarmProof.TickKeepsOrder | P03_IIC_IP/CoreCourse_GHRD/software/iic_test_bsp/HAL/src/alt_tick.c:100-141 | a tick leaves the registered alarms in their order, minus exactly those it called that returned zero |
| AlarmClock.Clock.Tick | P03_IIC_IP/CoreCourse_GHRD/software/iic_test_bsp/HAL/src/alt_tick.c:87-141 | on the linked list, a tick makes the specified step and the specified calls, and leaves a circular doubly linked list |
| AlarmClock.Clock.ProcessAlarms | P03_IIC_IP/CoreCourse_GHRD/software/iic_test_bsp/HAL/src/alt_tick.c:100-141 | the walk visits each alarm registered at entry once, in order, although the visited node may be unlinked, and ends back at the head |
| AlarmClock.Clock.Expire | P03_IIC_IP/CoreCourse_GHRD/software/iic_test_bsp/HAL/src/alt_tick.c:109-138 | what one alarm's fields become, whether its callback is called and whether it is to be stopped |
| AlarmClock.Clock.Start | P03_IIC_IP/CoreCourse_GHRD/software/iic_test_bsp/HAL/src/alt_alarm_start.c:64-112 | the error codes, and otherwise the alarm armed at the head of the list |
| AlarmClock.Clock.Stop | P03_IIC_IP/CoreCourse_GHRD/software/iic_test_bsp/HAL/src/alt_tick.c:66-73 | the alarm leaves the list, the others stay linked in order; stopping one that is linked to itself is harmless |
| AlarmClock.Clock.LlistInsert | P03_IIC_IP/CoreCourse_GHRD/software/iic_test_bsp/HAL/inc/sys/alt_llist.h:90-98 | a new entry goes in after the head and the circle stays doubly linked |
| AlarmClock.Clock.LlistRemove | P03_IIC_IP/CoreCourse_GHRD/software/iic_test_bsp/HAL/inc/sys/alt_llist.h:105-117 | the entry's neighbours are linked to each other and the entry to itself |
| AlarmClock.Clock.constructor | P03_IIC_IP/CoreCourse_GHRD/software/iic_test_bsp/HAL/src/alt_tick.c:58 | the empty list is the head linked to itself |
| FdProof.ReachableSafe | P03_IIC_IP/CoreCourse_GHRD/software/iic_test_bsp/HAL/src/alt_fd_lock.c:54-75 | in every pool reachable by open, close, ioctl, fcntl and redirection at most one descriptor of a device holds its lock, slots 0 to 2 are occupied, free slots have no flags, and the high-water mark covers every occupied slot from 3 on |
| FdProof.LockInv | P03_IIC_IP/CoreCourse_GHRD/software/iic_test_bsp/HAL/src/alt_fd_lock.c:61-69 | granting a lock keeps the invariant although the loop stops before slot alt_max_fd |
| FdProof.OpenInv | P03_IIC_IP/CoreCourse_GHRD/software/iic_test_bsp/HAL/src/alt_open.c:105-171 | open keeps the invariant, whether it succeeds or fails |
| FdProof.LockSeen | P03_IIC_IP/CoreCourse_GHRD/software/iic_test_bsp/HAL/src/alt_open.c:79-87 | the check of a newly taken slot finds a lock exactly if some descriptor of the pool holds one on the device |
| FdProof.LockedOpenDenied | P03_IIC_IP/CoreCourse_GHRD/software/iic_test_bsp/HAL/src/alt_open.c:130-166 | open of a locked device fails and leaves device and flags of all 32 slots |
| FdProof.LockedUsersNeverGrow | P03_IIC_IP/CoreCourse_GHRD/software/iic_test_bsp/HAL/src/alt_fd_lock.c:37-52 | along every run, while a device is locked no call adds a descriptor to it |
| FdProof.GrantedExclusiveIff | P03_IIC_IP/CoreCourse_GHRD/software/iic_test_bsp/HAL/src/alt_fd_lock.c:43-69 | a granted lock is the device's only descriptor exactly if slot alt_max_fd does not share the device |
| FdProof.RefusedIff | P03_IIC_IP/CoreCourse_GHRD/software/iic_test_bsp/HAL/src/alt_fd_lock.c:61-68 | a lock is refused exactly if a slot other than the caller's and alt_max_fd shares the device |
| FdProof.LockOutcome | P03_IIC_IP/CoreCourse_GHRD/software/iic_test_bsp/HAL/src/alt_fd_lock.c:54-75 | TIOCEXCL answers 0 or EACCES; granted, the descriptor holds the lock and only its lock bit changed; refused, nothing changed |
| FdProof.UnlockReleases | P03_IIC_IP/CoreCourse_GHRD/software/iic_test_bsp/HAL/src/alt_fd_unlock.c:52-56 | TIOCNXCL on the lock's holder succeeds and leaves the device unlocked, only the lock bit changed, and an open of it then succeeds exactly if a slot is free, given a willing driver |
| FdProof.IoctlForwards | P03_IIC_IP/CoreCourse_GHRD/software/iic_test_bsp/HAL/src/alt_ioctl.c:127-168 | every other request, and every request on a file, gets the driver's answer or ENOTTY, EBADFD if the descriptor is negative, and the table stays |
| FdProof.SharedLockReachable | P03_IIC_IP/CoreCourse_GHRD/software/iic_test_bsp/HAL/src/alt_fd_lock.c:61-69 | open, open, lock reaches a granted lock on a device another descriptor refers to |
| FdProof.GetFdLeast | P03_IIC_IP/CoreCourse_GHRD/software/iic_test_bsp/HAL/src/alt_get_fd.c:77-89 | alt_get_fd returns the least free slot, or -EMFILE and no change exactly when none is free |
| FdProof.OpenOutcome | P03_IIC_IP/CoreCourse_GHRD/software/iic_test_bsp/HAL/src/alt_open.c:105-171 | open succeeds exactly if the name is found, a slot is free, the device is not locked and the driver's open does not fail; the descriptor is the least free one; each failure has its error code |
| FdProof.OpenedFlags | P03_IIC_IP/CoreCourse_GHRD/software/iic_test_bsp/HAL/src/alt_open.c:139 | F_GETFL on a descriptor just opened returns the flags asked for, less the reserved bits |
| FdFlags.OpenedBits | P03_IIC_IP/CoreCourse_GHRD/software/iic_test_bsp/HAL/src/alt_open.c:139 | the reserved bits are 31 and 30 |
| FdFlags.DecodeBits | P03_IIC_IP/CoreCourse_GHRD/software/iic_test_bsp/HAL/src/alt_open.c:72-82 | the lock is bit 31 of the flags word, the device mark bit 30, the rest is the flags of open |
| FdProof.OpenTakes | P03_IIC_IP/CoreCourse_GHRD/software/iic_test_bsp/HAL/src/alt_open.c:130-170 | a successful open changes one free slot, to the device, driver data and masked flags asked for, and the device was not locked |
| FdProof.OpenLeaves | P03_IIC_IP/CoreCourse_GHRD/software/iic_test_bsp/HAL/src/alt_open.c:161-166 | a failed open leaves device and flags of every slot, though the high-water mark may have moved to a free one |
| FdProof.CloseUndoesOpen | P03_IIC_IP/CoreCourse_GHRD/software/iic_test_bsp/HAL/src/alt_close.c:64-101 | close of a descriptor just opened restores device and flags of every slot |
| FdProof.CloseOutcome | P03_IIC_IP/CoreCourse_GHRD/software/iic_test_bsp/HAL/src/alt_close.c:64-101 | a slot above 2 is free after close, whatever the driver answers, and no other changed; the result is 0, the driver's error, or EBADFD |
| FdProof.OpenIntoInv | P03_IIC_IP/CoreCourse_GHRD/software/iic_test_bsp/HAL/src/alt_io_redirect.c:58-72 | moving a new descriptor into a standard slot keeps the invariant and every other slot, and locks nothing |
| FdProof.OpenIntoTakes | P03_IIC_IP/CoreCourse_GHRD/software/iic_test_bsp/HAL/src/alt_io_redirect.c:58-72 | a redirection that succeeds gives the standard slot the device, the driver's word and the flags of the new descriptor; one that fails leaves it |
| FdProof.RedirectLeaves | P03_IIC_IP/CoreCourse_GHRD/software/iic_test_bsp/HAL/src/alt_io_redirect.c:85-94 | redirecting all three standard slots leaves device and flags of every slot from 3 on |
| FdProof.FcntlInv | P03_IIC_IP/CoreCourse_GHRD/software/iic_test_bsp/HAL/src/alt_fcntl.c:82-96 | F_SETFL keeps the invariant: lock and device bits stay |
| FdProof.BootInv | P03_IIC_IP/CoreCourse_GHRD/software/iic_test_bsp/HAL/src/alt_dev.c:118-149 | the initial table satisfies the invariant |
| FdFlags.DecodeStatus | P03_IIC_IP/CoreCourse_GHRD/software/iic_test_bsp/HAL/src/alt_fcntl.c:89-90 | masking the status bits changes only the flags of open, never the lock or device bit |
| FdProof.FcntlRoundTrip | P03_IIC_IP/CoreCourse_GHRD/software/iic_test_bsp/HAL/src/alt_fcntl.c:84-92 | after F_SETFL, F_GETFL returns the status bits written and every other bit as before; writing back the word read before restores the pool |
| FdProof.FcntlErrors | P03_IIC_IP/CoreCourse_GHRD/software/iic_test_bsp/HAL/src/alt_fcntl.c:93-100 | other commands and negative descriptors fail with EINVAL and EBADFD and change nothing |
| FdFlags.StatusBits | P03_IIC_IP/CoreCourse_GHRD/software/iic_test_bsp/HAL/src/alt_fcntl.c:89-90 | the bits F_SETFL writes are 3 and 14 |
| FdProof.CloseDropsLockIff | P03_IIC_IP/CoreCourse_GHRD/software/iic_test_bsp/HAL/src/alt_close.c:64-101 | close drops its descriptor's lock exactly if the descriptor is above 2 |
| FdProof.StandardLockReachable | P03_IIC_IP/CoreCourse_GHRD/software/iic_test_bsp/HAL/src/alt_fd_lock.c:37-52 | redirecting stdin to a device and locking it reaches a standard slot that holds a lock |
| FdTable.Table.constructor | P03_IIC_IP/CoreCourse_GHRD/software/iic_test_bsp/HAL/src/alt_dev.c:118-149 | the table at reset |
| FdTable.Table.FindDev | P03_IIC_IP/CoreCourse_GHRD/software/iic_test_bsp/HAL/src/alt_find_dev.c:54-86 | the first device registered under exactly this name, or none if there is none |
| FdTable.Table.GetFd | P03_IIC_IP/CoreCourse_GHRD/software/iic_test_bsp/HAL/src/alt_get_fd.c:54-101 | the array version takes the specified slot and moves the high-water mark |
| FdTable.Table.Release | P03_IIC_IP/CoreCourse_GHRD/software/iic_test_bsp/HAL/src/alt_release_fd.c:44-51 | slots above 2 are cleared, others left |
| FdTable.Table.FileLocked | P03_IIC_IP/CoreCourse_GHRD/software/iic_test_bsp/HAL/src/alt_open.c:64-92 | the device bit is set, and -EACCES returned exactly if another slot up to alt_max_fd holds the lock |
| FdTable.Table.OpenDev | P03_IIC_IP/CoreCourse_GHRD/software/iic_test_bsp/HAL/src/alt_open.c:130-171 | the whole outcome of open for a device, a file system or neither: slot, flags, driver status, cleanup |
| FdTable.Table.Open | P03_IIC_IP/CoreCourse_GHRD/software/iic_test_bsp/HAL/src/alt_open.c:105-171 | open by name: a registered device first, else what the file systems give |
| FdTable.Table.Close | P03_IIC_IP/CoreCourse_GHRD/software/iic_test_bsp/HAL/src/alt_close.c:64-101 | the slot released, the driver's status or -EBADFD reported |
| FdTable.Table.FdLock | P03_IIC_IP/CoreCourse_GHRD/software/iic_test_bsp/HAL/src/alt_fd_lock.c:54-75 | the lock loop as written, to the specified outcome |
| FdTable.Table.FdUnlock | P03_IIC_IP/CoreCourse_GHRD/software/iic_test_bsp/HAL/src/alt_fd_unlock.c:52-56 | the lock bit cleared, nothing else |
| FdTable.Table.Ioctl | P03_IIC_IP/CoreCourse_GHRD/software/iic_test_bsp/HAL/src/alt_ioctl.c:106-168 | TIOCEXCL and TIOCNXCL for devices, the driver or -ENOTTY for the rest, -EBADFD for a negative descriptor |
| FdTable.Table.Fcntl | P03_IIC_IP/CoreCourse_GHRD/software/iic_test_bsp/HAL/src/alt_fcntl.c:66-101 | F_GETFL, F_SETFL and the two errors |
| FdTable.Table.OpenFd | P03_IIC_IP/CoreCourse_GHRD/software/iic_test_bsp/HAL/src/alt_io_redirect.c:58-72 | open, copy into the standard slot, release; unchanged if open fails |
| FdTable.Table.IoRedirect | P03_IIC_IP/CoreCourse_GHRD/software/iic_test_bsp/HAL/src/alt_io_redirect.c:85-94 | stdout, stdin, then stderr redirected in turn |
| LogPrintf.Port.Printf | P03_IIC_IP/CoreCourse_GHRD/software/iic_test_bsp/HAL/src/alt_log_printf.c:114-341 | for every format and the arguments it asks for, the state machine sends exactly the rendering of the directives read, and ends |
| LogPrintf.Port.StateStep | P03_IIC_IP/CoreCourse_GHRD/software/iic_test_bsp/HAL/src/alt_log_printf.c:132-339 | one character of the switch, with the jump to otherFmtChar, keeps: what is sent, and what the directives still print, make up the whole output |
| LogPrintf.Port.ReadModifier | P03_IIC_IP/CoreCourse_GHRD/software/iic_test_bsp/HAL/src/alt_log_printf.c:172-201 | width and precision are those of the modifiers read so far, never overflowing when the format's numbers are ints |
| LogPrintf.Port.PrintInteger | P03_IIC_IP/CoreCourse_GHRD/software/iic_test_bsp/HAL/src/alt_log_printf.c:206-297 | any base, sign, case and padding: the rendered field is sent |
| LogPrintf.Port.StripSign | P03_IIC_IP/CoreCourse_GHRD/software/iic_test_bsp/HAL/src/alt_log_printf.c:238-245 | magnitude and sign of the word, -2^31 included |
| LogPrintf.Port.CountDigits | P03_IIC_IP/CoreCourse_GHRD/software/iic_test_bsp/HAL/src/alt_log_printf.c:247-255 | the number of digits, and the largest power of the base not above the value |
| LogPrintf.Port.PrintDigits | P03_IIC_IP/CoreCourse_GHRD/software/iic_test_bsp/HAL/src/alt_log_printf.c:281-296 | dividing by falling powers sends the canonical digits |
| LogPrintf.Port.PrintString | P03_IIC_IP/CoreCourse_GHRD/software/iic_test_bsp/HAL/src/alt_log_printf.c:324-333 | blanks up to the width, computed unsigned, then the text |
| LogPrintf.Port.RepChar | P03_IIC_IP/CoreCourse_GHRD/software/iic_test_bsp/HAL/src/alt_log_printf.c:106-110 | the character, r times if r is positive |
| FormatProof.IntField | P03_IIC_IP/CoreCourse_GHRD/software/iic_test_bsp/HAL/src/alt_log_printf.c:206-297 | for every word the field has max(width, sign and digits) characters and reads back as the signed or unsigned argument, padded with blanks or zeros |
| FormatProof.FieldReadsBack | P03_IIC_IP/CoreCourse_GHRD/software/iic_test_bsp/HAL/src/alt_log_printf.c:206-297 | padding, sign and digits read back as the number |
| FormatProof.TextField | P03_IIC_IP/CoreCourse_GHRD/software/iic_test_bsp/HAL/src/alt_log_printf.c:319-333 | a %c or %s field is the text at the right of blanks, max(width, length) long |
| FormatProof.ParseField | P03_IIC_IP/CoreCourse_GHRD/software/iic_test_bsp/HAL/src/alt_log_printf.c:152-204 | the reference reads '%', an optional '0', modifiers and a letter as one field, wherever it stands in the format |
| LetterProof.IntPrinted | P03_IIC_IP/CoreCourse_GHRD/software/iic_test_bsp/HAL/src/alt_log_printf.c:170-317 | for every word, width and letter: d and i print it signed in base 10, u, o, x and X unsigned in base 10, 8 and 16, X in capitals; the field is the one canonical numeral with its sign, after blanks or, with 0, zeros after the sign; it reads back as the number |
| LetterProof.CharPrinted | P03_IIC_IP/CoreCourse_GHRD/software/iic_test_bsp/HAL/src/alt_log_printf.c:319-322 | %c prints the character of the low eight bits at the right of its field |
| LetterProof.TextPrinted | P03_IIC_IP/CoreCourse_GHRD/software/iic_test_bsp/HAL/src/alt_log_printf.c:324-333 | %s prints the text at the right of its field |
| LetterProof.FieldThenRest | P03_IIC_IP/CoreCourse_GHRD/software/iic_test_bsp/HAL/src/alt_log_printf.c:132-339 | a field prints what it would alone, and the rest of the format what it would with the arguments after the field's |
| LetterProof.UnknownThenRest | P03_IIC_IP/CoreCourse_GHRD/software/iic_test_bsp/HAL/src/alt_log_printf.c:202-337 | any other letter ends its field, prints nothing and takes no argument |
| LetterProof.CharThenRest | P03_IIC_IP/CoreCourse_GHRD/software/iic_test_bsp/HAL/src/alt_log_printf.c:134-150 | any character but '%' prints itself |
| LetterProof.PercentThenRest | P03_IIC_IP/CoreCourse_GHRD/software/iic_test_bsp/HAL/src/alt_log_printf.c:158-162 | "%%" prints '%' |
| LetterProof.CutField | P03_IIC_IP/CoreCourse_GHRD/software/iic_test_bsp/HAL/src/alt_log_printf.c:132 | a field the format ends in prints nothing |
| LetterProof.NothingPrinted | P03_IIC_IP/CoreCourse_GHRD/software/iic_test_bsp/HAL/src/alt_log_printf.c:132 | the empty format, and one that is just '%', print nothing |
| LetterProof.DigitTable | P03_IIC_IP/CoreCourse_GHRD/software/iic_test_bsp/HAL/src/alt_log_printf.c:285-290 | the digit characters are 0 to 9 and a to f, or A to F in capitals |
| Numerals.DigitsExact | P03_IIC_IP/CoreCourse_GHRD/software/iic_test_bsp/HAL/src/alt_log_printf.c:247-296 | the digits are canonical, read back as the value, and are the only numeral that does |
| AltPrintf.Console.Printf | P03_IIC_IP/CoreCourse_GHRD/software/iic_test_bsp/HAL/src/alt_printf.c:48-127 | for every format and the arguments it asks for, the output is the rendering of the directives read |
| AltPrintf.Console.PutHex | P03_IIC_IP/CoreCourse_GHRD/software/iic_test_bsp/HAL/src/alt_printf.c:82-111 | shifting and masking prints the canonical hexadecimal digits of every word, zero included |
| AltPrintf.Console.FirstDigit | P03_IIC_IP/CoreCourse_GHRD/software/iic_test_bsp/HAL/src/alt_printf.c:96-99 | the scan for a non-zero digit ends, on the leading one |
| Bits.ValueNext | P03_IIC_IP/CoreCourse_GHRD/software/iic_test_bsp/HAL/src/alt_printf.c:96-109 | the number read from a word, nibble by nibble, counts on by one as the word does |
| Bits.ValueZero | P03_IIC_IP/CoreCourse_GHRD/software/iic_test_bsp/HAL/src/alt_printf.c:89-93 | and is zero of zero: it is the word's unsigned value |
| LetterProof.SmallHex | P03_IIC_IP/CoreCourse_GHRD/software/iic_test_bsp/HAL/src/alt_printf.c:82-111 | %x prints the one canonical lower-case hexadecimal numeral of the word |
| LetterProof.SmallPlain | P03_IIC_IP/CoreCourse_GHRD/software/iic_test_bsp/HAL/src/alt_printf.c:77-119 | %c prints the character of the low eight bits, %s the text |
| LetterProof.SmallThenRest | P03_IIC_IP/CoreCourse_GHRD/software/iic_test_bsp/HAL/src/alt_printf.c:58-125 | a field prints what it would alone, the rest what it would with the arguments after it |
| LetterProof.SmallUnknown | P03_IIC_IP/CoreCourse_GHRD/software/iic_test_bsp/HAL/src/alt_printf.c:68-119 | any other letter prints nothing and takes no argument |
| LetterProof.SmallChar | P03_IIC_IP/CoreCourse_GHRD/software/iic_test_bsp/HAL/src/alt_printf.c:62-65 | any character but '%' prints itself |
| LetterProof.SmallPercent | P03_IIC_IP/CoreCourse_GHRD/software/iic_test_bsp/HAL/src/alt_printf.c:72-76 | "%%" prints '%' |
| AltPrintf.HexAlike | P03_IIC_IP/CoreCourse_GHRD/software/iic_test_bsp/HAL/src/alt_printf.c:82-111 | both printers print the same text for %x and every word |
| AltPrintf.ReadAlike | P03_IIC_IP/CoreCourse_GHRD/software/iic_test_bsp/HAL/src/alt_printf.c:58-125 | the printers read a format alike exactly if every '%' is followed by a letter both know alike, or the end |
| AltPrintf.PrintAlike | P03_IIC_IP/CoreCourse_GHRD/software/iic_test_bsp/HAL/src/alt_printf.c:58-125 | on such formats they print the same text |
| I2cProof.DecodeExact | P03_IIC_IP/CoreCourse_GHRD/software/iic_test/oc_i2c.c:95-135 | a command trace reads back as a message exactly if it is the trace the driver gives for it: address, register and data, or address, register and count |
| I2cProof.WriteBytes | P03_IIC_IP/CoreCourse_GHRD/software/iic_test/oc_i2c.c:101-134 | the very bytes a write puts in the command and transmit registers, address and register high and low first |
| I2cProof.ReadBytes | P03_IIC_IP/CoreCourse_GHRD/software/iic_test/oc_i2c.c:166-204 | the very bytes a read puts there |
| I2cProof.WriteConditions | P03_IIC_IP/CoreCourse_GHRD/software/iic_test/oc_i2c.c:101-134 | a write has START with its first command only, STOP with its last only, and sends bytes throughout |
| I2cProof.ReadConditions | P03_IIC_IP/CoreCourse_GHRD/software/iic_test/oc_i2c.c:166-204 | a read has START and repeated START with address|1, then receives, with NACK and STOP on the last byte only |
| I2cProof.WriteLands | P03_IIC_IP/CoreCourse_GHRD/software/iic_test/oc_i2c.c:95-135 | after a write of any length each byte of the page holds the last byte written to it, and no other byte changes |
| I2cProof.ReadAnswers | P03_IIC_IP/CoreCourse_GHRD/software/iic_test/oc_i2c.c:160-205 | a read of any length returns the bytes from the register on, in order, and leaves the memory |
| I2cProof.RoundTrip | P03_IIC_IP/CoreCourse_GHRD/software/iic_test/main.c:33-36 | what is written within a page is read back |
| I2cProof.RoundTripExact | P03_IIC_IP/CoreCourse_GHRD/software/iic_test/main.c:33-36 | every data is read back exactly if the bytes stay within a page |
| I2cProof.OthersKept | P03_IIC_IP/CoreCourse_GHRD/software/iic_test/oc_i2c.c:95-135 | a write within a page changes no byte outside its range |
| I2cProof.WriteElsewhere | P03_IIC_IP/CoreCourse_GHRD/software/iic_test/oc_i2c.c:101-104 | a slave with another address keeps its memory and pointer |
| I2cProof.Commands | P03_IIC_IP/CoreCourse_GHRD/ip/oc_iic_vhdl/i2c_master_byte_ctrl.vhd:231-364 | what each command the driver gives does on the bus: START, byte and acknowledge, STOP |
| I2cDriver.Core.I2CWrite | P03_IIC_IP/CoreCourse_GHRD/software/iic_test/oc_i2c.c:95-135 | the driver gives the write's trace for max(num, 1) bytes, with TIP seen clear between any two commands |
| I2cDriver.Core.I2CRead | P03_IIC_IP/CoreCourse_GHRD/software/iic_test/oc_i2c.c:160-205 | the driver gives the read's trace and stores the received bytes in order, the rest of the buffer unchanged |
| I2cDriver.Core.WaitTIP | P03_IIC_IP/CoreCourse_GHRD/software/iic_test/oc_i2c.c:69-72 | polling ends once the transfer is over, however long it takes |
| I2cDriver.Core.InitI2C | P03_IIC_IP/CoreCourse_GHRD/software/iic_test/oc_i2c.c:30-47 | the core is enabled; for every frequency the two prescale bytes are the clock divided by five times it exactly if it is at least 306 Hz and the 32-bit product does not wrap, or wraps to more than the clock's frequency |
| I2cDriver.TooSlow | P03_IIC_IP/CoreCourse_GHRD/software/iic_test/oc_i2c.c:34-37 | at 305 Hz the quotient is 65573, the registers keep 37, and that is not the quotient |
| I2cDriver.Core.WriteCr | P03_IIC_IP/CoreCourse_GHRD/ip/oc_iic_vhdl/i2c_master_top.vhd:235-239 | a command is taken when the core is enabled |
| I2cDriver.Cpr | P03_IIC_IP/CoreCourse_GHRD/software/iic_test/main.c:14-23 | 0 exactly if the first num bytes agree, else one more than the first that differs |
| I2cDriver.WriteAndCheck | P03_IIC_IP/CoreCourse_GHRD/software/iic_test/main.c:33-36 | write, read back and compare finds no difference and changes no other byte of the EEPROM |
| I2cDriver.Pass | P03_IIC_IP/CoreCourse_GHRD/software/iic_test/main.c:25-43 | one pass of main reports no error, with prescale 200 |
| CacheFlush.Caches.DcacheFlush | P03_IIC_IP/CoreCourse_GHRD/software/iic_test_bsp/HAL/src/alt_dcache_flush.c:57-97 | for any alignment and cache contents, memory agrees with the program's view throughout the range, that view is unchanged everywhere, and other lines are left |
| CacheFlush.Caches.DcacheFlushByIndex | P03_IIC_IP/CoreCourse_GHRD/software/iic_test_bsp/HAL/src/alt_dcache_flush.c:57-97 | the same for the build that flushes by index and trims len |
| CacheFlush.Caches.IcacheFlush | P03_IIC_IP/CoreCourse_GHRD/software/iic_test_bsp/HAL/src/alt_icache_flush.c:42-84 | no line of the untrimmed range stays in the instruction cache |
| CacheFlush.Caches.RemapUncached | P03_IIC_IP/CoreCourse_GHRD/software/iic_test_bsp/HAL/src/alt_remap_uncached.c:47-51 | the range is flushed and the pointer bypasses the cache |
| CacheFlush.ReadRemapped | P03_IIC_IP/CoreCourse_GHRD/software/iic_test_bsp/HAL/src/alt_remap_uncached.c:47-51 | a read through the remapped pointer sees the program's view |
| CacheFlush.LatestSeen | P03_IIC_IP/CoreCourse_GHRD/software/iic_test_bsp/HAL/src/alt_dcache_flush.c:57-97 | after any run of cached loads and stores and a flush, uncached readers of the range see the last stores |
| CacheFlush.StoredSeen | P03_IIC_IP/CoreCourse_GHRD/software/iic_test_bsp/HAL/src/alt_dcache_flush.c:50-55 | a store through the cache changes its byte of the program's view and no other, a load none |
| CacheFlush.FlatStored | P03_IIC_IP/CoreCourse_GHRD/software/iic_test_bsp/HAL/src/alt_dcache_flush.c:50-55 | the same of the memory without a cache that runs are compared with |
| CacheFlush.LatestFetched | P03_IIC_IP/CoreCourse_GHRD/software/iic_test_bsp/HAL/src/alt_icache_flush.c:42-84 | with both caches flushed, code just stored is what is fetched |
| CacheFlush.RunFlushes | P03_IIC_IP/CoreCourse_GHRD/software/iic_test_bsp/HAL/src/alt_dcache_flush.c:82-95 | one flush a line, and one more for an unaligned start, reach the whole range |
| Cache.FlushesCover | P03_IIC_IP/CoreCourse_GHRD/software/iic_test_bsp/HAL/src/alt_dcache_flush.c:82-95 | the lines flushed include every line the range touches and at most one past it |
| Cache.TrimCovers | P03_IIC_IP/CoreCourse_GHRD/software/iic_test_bsp/HAL/src/alt_icache_flush.c:53-74 | trimmed to the cache size, the flushes still reach the set of every line the untrimmed range touches |
| Cache.FlushRunView | P03_IIC_IP/CoreCourse_GHRD/software/iic_test_bsp/HAL/src/alt_dcache_flush.c:44-48 | flushing lines by address writes back exactly those and changes no view |
| WallClock.ClockExact | P03_IIC_IP/CoreCourse_GHRD/software/iic_test_bsp/HAL/src/alt_gettod.c:89-112 | set to a normalised time before the 32-bit product wraps, gettimeofday returns that time plus the ticks since, exactly, with 0 <= usec < 10^6, and never clamps |
| WallClock.ImmediateExactIff | P03_IIC_IP/CoreCourse_GHRD/software/iic_test_bsp/HAL/src/alt_settod.c:57-65 | at any tick rate, an immediate read returns the time set if and only if the product lost a multiple of 15625 wraps, or the time set is zero and the loss clamped away |
| WallClock.ReadingExactIff | P03_IIC_IP/CoreCourse_GHRD/software/iic_test_bsp/HAL/src/alt_gettod.c:89-112 | at any rate, a later read returns the time set plus what the clock counted since, if and only if that, with the clamp for negative times |
| WallClock.ClockExactIff | P03_IIC_IP/CoreCourse_GHRD/software/iic_test_bsp/HAL/src/alt_settod.c:80-84 | at a rate that divides 10^6, a read at any later tick is exact to the tick, if and only if the product lost a multiple of 15625 wraps, or the loss is clamped away at zero |
| WallClock.CountsTicksIff | P03_IIC_IP/CoreCourse_GHRD/software/iic_test_bsp/HAL/src/alt_gettod.c:91-93 | seconds and fraction add up to the ticks' microseconds at every tick exactly if the rate divides 10^6 |
| WallClock.SumIs | P03_IIC_IP/CoreCourse_GHRD/software/iic_test_bsp/HAL/src/alt_settod.c:82-84 | at any rate and any later tick the clock is off by the error of the narrow product |
| WallClock.NoError | P03_IIC_IP/CoreCourse_GHRD/software/iic_test_bsp/HAL/src/alt_settod.c:83-84 | that error is zero exactly if a multiple of 15625 wraps were lost |
| Words.Truncations | P03_IIC_IP/CoreCourse_GHRD/software/iic_test_bsp/HAL/src/alt_settod.c:82-84 | the 32-bit readings differ from the number by whole wraps |
| WallClock.Normalise | P03_IIC_IP/CoreCourse_GHRD/software/iic_test_bsp/HAL/src/alt_gettod.c:95-112 | the two loops give the same instant with 0 <= usec < 10^6, or zero for a negative instant with negative usec |
| WallClock.Clock.Gettimeofday | P03_IIC_IP/CoreCourse_GHRD/software/iic_test_bsp/HAL/src/alt_gettod.c:71-124 | the normalised sum and the time zone if asked for; -ENOTSUP and nothing stored when no clock runs |
| WallClock.Clock.Settimeofday | P03_IIC_IP/CoreCourse_GHRD/software/iic_test_bsp/HAL/src/alt_settod.c:72-96 | the offset and time zone kept; ENOSYS, -1 and no change when no clock runs |
| WallClock.SetThenGet | P03_IIC_IP/CoreCourse_GHRD/software/iic_test_bsp/HAL/src/alt_settod.c:57-65 | set to t at one tick and read at a later one through the two calls: t and the ticks since, to the microsecond |
| Irq.Lines.Dispatch | P03_IIC_IP/CoreCourse_GHRD/software/iic_test_bsp/HAL/src/alt_irq_handler.c:128-159 | handlers clearing their own interrupt, others raised during a finite number of runs: the call ends with none pending, each round ran the lowest-numbered one pending and, if none was raised, it ran each interrupt pending at entry once, lowest first |
| Irq.Controller.Dispatch | P03_IIC_IP/CoreCourse_GHRD/software/iic_test_bsp/HAL/src/alt_irq_handler.c:128-159 | for handlers and devices that do anything, over any words read, of a run that ends or of the beginning of one that does not: each round runs the lowest-numbered interrupt pending, and the first zero word ends it |
| Irq.FirstPending | P03_IIC_IP/CoreCourse_GHRD/software/iic_test_bsp/HAL/src/alt_irq_handler.c:133-155 | the bit scan ends, on the lowest set bit |
| Irq.EachOnce | P03_IIC_IP/CoreCourse_GHRD/software/iic_test_bsp/HAL/src/alt_irq_handler.c:128-159 | with clearing handlers and nothing raised there are at most as many rounds as interrupts pending at entry, and with that many none is pending any more |
| Irq.RunsInOrder | P03_IIC_IP/CoreCourse_GHRD/software/iic_test_bsp/HAL/src/alt_irq_handler.c:128-159 | at any point of such a run, what was pending is what has run followed by what still is pending |
| Irq.PendingExact | P03_IIC_IP/CoreCourse_GHRD/software/iic_test_bsp/HAL/src/alt_irq_handler.c:128 | the pending list is exactly the set bits, strictly increasing |
| Irq.BitNumber | P03_IIC_IP/CoreCourse_GHRD/software/iic_test_bsp/HAL/src/alt_irq_handler.c:130-152 | interrupt i is bit i of the pending word, counted from the lowest |
| Heap.RunDisjoint | P03_IIC_IP/CoreCourse_GHRD/software/iic_test_bsp/HAL/src/alt_gmon.c:133-148 | over every run of non-negative sbrk calls and mcount allocations of 1 to 1020 bytes with successful refills, blocks are pairwise disjoint, sbrk's word-aligned in the heap, mcount's inside a slab |
| Heap.StepInv | P03_IIC_IP/CoreCourse_GHRD/software/iic_test_bsp/HAL/src/alt_sbrk.c:68-136 | each such call keeps: blocks disjoint, below heap_end and clear of what the slab has left |
| Heap.SbrkGrants | P03_IIC_IP/CoreCourse_GHRD/software/iic_test_bsp/HAL/src/alt_sbrk.c:75-95 | after every run, sbrk hands out a block of incr bytes at the least word-aligned address from heap_end on exactly if it ends at or below the limit, and heap_end is then its end; otherwise only the rounding is kept |
| Heap.SbrkOutcome | P03_IIC_IP/CoreCourse_GHRD/software/iic_test_bsp/HAL/src/alt_sbrk.c:75-95 | for increments of either sign, that address or -1, and heap_end afterwards |
| Heap.McountTakes | P03_IIC_IP/CoreCourse_GHRD/software/iic_test_bsp/HAL/src/alt_gmon.c:133-148 | after every run, mcount takes the slab's next bytes if there is room, else the first of a new slab, else the bytes at -1; and what is left of the slab |
| Heap.McountFitsIff | P03_IIC_IP/CoreCourse_GHRD/software/iic_test_bsp/HAL/src/alt_gmon.c:133-148 | after every run of non-negative sbrk calls and mcount allocations, refills failing or not, mcount's block lies in a slab inside the heap exactly if the refill it needs succeeds or, needing none, the last one did |
| Heap.McountInHeapIff | P03_IIC_IP/CoreCourse_GHRD/software/iic_test_bsp/HAL/src/alt_gmon.c:133-148 | the same of the addresses, both bounds, by the three words kept; where the heap does not begin in the first 1019 bytes of memory, a call without refill stays in it exactly if the slab left lies between the heap's start and heap_end |
| Heap.SecondAfterFailure | P03_IIC_IP/CoreCourse_GHRD/software/iic_test_bsp/HAL/src/alt_gmon.c:185-198 | two allocations in a row of a and b bytes, the first one's refill failing: the second gets address a - 1 |
| Heap.RunFitsIff | P03_IIC_IP/CoreCourse_GHRD/software/iic_test_bsp/HAL/src/alt_gmon.c:133-148 | over every run, all blocks handed out fit exactly if every refill succeeded |
| Heap.OverlapIff | P03_IIC_IP/CoreCourse_GHRD/software/iic_test_bsp/HAL/src/alt_sbrk.c:75-95 | after every run of increments of either sign, if heap_end is not below the heap's start, sbrk's next block overlaps an earlier one exactly if the rounded heap_end is below the highest end a block has had |
| Heap.ShrinkReuses | P03_IIC_IP/CoreCourse_GHRD/software/iic_test_bsp/HAL/src/alt_sbrk.c:75-95 | for one: a block given back whole and asked for again is the same block |
| Heap.Allocator.Sbrk | P03_IIC_IP/CoreCourse_GHRD/software/iic_test_bsp/HAL/src/alt_sbrk.c:68-136 | the rounded end, or -1 with the rounding kept when the limit would be passed |
| Heap.Allocator.McountAllocate | P03_IIC_IP/CoreCourse_GHRD/software/iic_test_bsp/HAL/src/alt_gmon.c:133-148 | the slab's next bytes, after a refill if it is short |

## Left out

- Image tables, the UART ring buffers, stubs and thin forwards of system calls: no behaviour of their own.
- Thread interleavings: every call is one atomic step, as under the semaphore or with interrupts disabled.
- Driver callbacks: what a driver's open, close and ioctl return is a parameter; they do not touch the table.
- File systems: what `alt_find_file` returns for a name is a parameter.
- The device list is a sequence of names and identities; its links and its registration are not modelled.
- Alarm callbacks are what each returns if called by a tick; a callback that edits the alarm list is not modelled.
- AlarmClock.Clock.Start: an alarm is not started while registered, as its list node would be linked twice.
- AlarmProof.RunRefines: runs that start this alarm while it is registered, for the same reason.
- Numbers in a format of 2^31 and more, and strings of 2^31 characters: undefined or impossible in C.
- The wait for the debug port's transmit register: `LogPrintf.Port.TxChar` sends at once.
- errno values are named, not numbered; newlib's `<errno.h>` is not part of this model. The mask
  O_APPEND|O_NONBLOCK is 0x4008, from newlib's `<fcntl.h>`, which is not part of this model either.
- Bad descriptor numbers that are not negative, a null time zone pointer for `settimeofday`, unallocated buffers.
- SCL and SDA bit timing, arbitration and clock stretching: the master is modelled byte by byte.
- I2cProof.Commands: the receive register after a byte was sent is left open; the driver does not read it then.
- The acknowledge bit RxACK, which the driver never reads, and the EEPROM's write-cycle time: the data are in
  memory at the STOP.
- CacheFlush.Caches.DcacheFlush: the pointers that the flush calls step through do not pass the end of the address
  space, where C leaves the comparison undefined; len is trimmed first where the code trims it.
- `flushp`, the pipeline, and `alt_dcache_flush_no_writeback`, for an instruction this processor lacks.
- The fields of struct timeval are 32-bit, as long is on this processor; <sys/time.h> is not part of this model.
- WallClock.ClockExact: times that cannot be stored in 31 bits of seconds.
- Irq.FirstPending: a word with no bit set, on which the scan of the source would not end; the exception entry code
  calls the dispatcher only when an interrupt is pending.
- The dispatch by a custom instruction, and interrupt registration.
- Heap.OverlapIff: calls made while heap_end is below the start of the heap.
- Heap.RunDisjoint: the stack-limit branches of `alt_sbrk` and ALT_MAX_HEAP_BYTES, which this system does not define.
- The call-graph lists of `__mcount_record`: pushes on linked lists.
