# STM32 sample history, modelled in Dafny

The firmware samples an analog input every 0.1 s and keeps the last 120 readings in a
circular buffer. It maintains a running sum of the buffer, and an operator can list or
delete the oldest readings from a serial terminal. This project models the sequential core
of that firmware and proves its properties:

- the circular history `sigbuffer` (120 slots) with the write cursor `sigbufpos`, the
  record count `recordcount` and the running sum `runningtotal`;
- the append step of the sampling thread;
- the oldest-first listing `printdata`;
- the pruning `deletedata`;
- the decimal argument parser `stringtoint`;
- the `print`/`delete` command dispatch that ties the parser to the history.

Modules:

- `RingLayout` (`ring.dfy`): pure index arithmetic. A *window* is the list of valid records,
  oldest first. `Layout(w, pos)` is the picture of all 120 slots when the window ends just
  before the cursor `pos`. It puts the k-th oldest record in slot `(pos - |w| + k) mod 120`
  and 0.0 in every other slot. The lemmas say how writing under the cursor and zeroing the
  oldest slot change that picture. They also prove the fact the firmware relies on: with 0.0 in
  every unused slot, the sum of all slots is the sum of the window.
- `SampleHistory` (`history.dfy`): the class `History`. It holds the array `buf`, the fields
  `pos`, `count` and `total`, and a ghost `Window`. Its invariant `Valid()` says
  `buf[..] == Layout(Window, pos)` and `total == Sum(buf[..])`. `Append`, `Print` and
  `Delete` are the firmware's loops and updates, and each is proved against this invariant
  and the window. `Listing` is the reference definition of what a listing shows.
- `Decimal` (`decimal.dfy`): `StringToInt` is the specification: the decimal value of an
  all-digit string, otherwise -1. `ParseInt` is the firmware's loop, which returns -1 at the
  first non-digit, and it is proved equal to the specification.
- `Terminal` (`terminal.dfy`): the `print` and `delete` commands. They parse the argument,
  refuse a non-digit argument, and pass the non-negative amount to the history. `Session`
  is a client that shows what the contracts determine.

Samples are exact `real` numbers, not `float`, so "running sum = sum of all slots" holds
exactly. The analog reading `A.read()` becomes the parameter of `Append`. The serial output
becomes report values: `PrintReport` holds the count, the average and the
`(slot, value)` lines, and `DeleteReport` holds the count and the number deleted.

Two details of the firmware worth noting:

- The listing prints the physical slot index `(i + offset) % 120`, not a logical index.
- The average is not stored. The firmware keeps a global `average`, which it recomputes as
  `runningtotal / recordcount` after each append and delete. The model derives it from the
  state as `History.Average`, and proves it equal to the mean of the window.

## Model

| member | source | states |
|---|---|---|
| `Decimal.ParseInt` | STM32code.c:32-48 | the digit loop returns exactly `StringToInt(s)`: the decimal value of an all-digit string, or -1 as soon as one character lies outside '0'..'9' |
| `Decimal.ResultMeaning` | STM32code.c:32-48 | the result is non-negative if and only if every character is a digit, it is -1 if and only if some character is not, and the empty string gives 0 |
| `Decimal.ValueBound` | STM32code.c:44-45 | the accumulated value of an n-digit string stays below 10^n |
| `Decimal.ArgumentFits` | STM32code.c:12 | a digit string of at most 3 characters, the size of the argument buffer, parses to a value in 0..999 |
| `Decimal.SpellRoundTrip` | STM32code.c:32-48 | every natural number has a decimal spelling that the parser reads back as that number |
| `RingLayout.Pushed` | STM32code.c:76-78 | one arrival grows the window by one record, saturating at 120, and the new sample is the newest record |
| `RingLayout.PushedAllKeepsNewest` | STM32code.c:73-78 | after any run of samples, the window is the most recent min(total, 120) of all samples seen, in arrival order |
| `RingLayout.OffsetWalk` | STM32code.c:126-131 | the firmware's walk index `(i + sigbufpos + ((120 - recordcount) % 120)) % 120` is in bounds and is the slot of the i-th oldest record, for every i below the count |
| `RingLayout.LayoutAtSlot` | STM32code.c:121-131 | the i-th oldest of the valid records is held in slot `(pos - count + i) mod 120`, an index in bounds whose age is i |
| `RingLayout.SlotsDistinct` | STM32code.c:128-131 | two different ages give two different slots, so an oldest-first walk never visits a slot twice |
| `RingLayout.CursorSlot` | STM32code.c:73-75 | the slot under the cursor holds 0.0 while the buffer has room, and the oldest record once the buffer is full; this is what the append subtracts |
| `RingLayout.LayoutPushed` | STM32code.c:73-78 | writing a sample under the cursor and advancing the cursor gives exactly the layout of the window with the sample pushed |
| `RingLayout.LayoutDropped` | STM32code.c:172-180 | dropping the m oldest records with the cursor unchanged zeroes exactly the slots of age below m and leaves every other slot as it was |
| `RingLayout.LayoutDropOldest` | STM32code.c:174-178 | zeroing the slot of the oldest record gives exactly the layout of the window without that record |
| `RingLayout.SumUpdate` | STM32code.c:73-75 | overwriting one slot changes the sum of all slots by the new value minus the old one |
| `RingLayout.SumLayout` | STM32code.c:363-364 | with 0.0 in every slot outside the window, the sum of all 120 slots equals the sum of the valid records |
| `SampleHistory.ListingShowsOldest` | STM32code.c:114-131 | a listing is empty exactly when there are no records; otherwise it reports the count and shows the min(amt, count) oldest records in arrival order, each next to a distinct in-bounds slot that holds that value |
| `SampleHistory.History.constructor` | STM32code.c:363-364 | start-up zeroes all 120 slots, the cursor, the count and the running sum; the window is empty and the invariant holds |
| `SampleHistory.History.Average` | STM32code.c:82 | running sum divided by record count equals the mean of the valid records |
| `SampleHistory.History.Append` | STM32code.c:73-78 | keeps the invariant; the window becomes the old one with the sample pushed; the cursor becomes `(pos + 1) % 120`; the count becomes `min(count + 1, 120)`; only the slot under the old cursor changes; the sum changes by the new sample minus the overwritten one |
| `SampleHistory.History.Print` | STM32code.c:91-136 | changes nothing and returns the reference listing: "no records" when the count is 0, otherwise the count, the mean and the `(slot, value)` lines of the min(amt, count) oldest records |
| `SampleHistory.History.Delete` | STM32code.c:138-191 | with no records, nothing changes; otherwise amt is clamped to the count, exactly the clamped number of oldest slots become 0.0 and no other slot changes, the sum loses their values, the count shrinks by that number, the window loses its first elements, the cursor stays, and the invariant holds |
| `Terminal.PrintCommand` | STM32code.c:323-331 | a non-digit argument is refused; a digit argument yields the listing for the parsed amount |
| `Terminal.DeleteCommand` | STM32code.c:332-340 | a non-digit argument is refused and nothing changes; a digit argument deletes min(amount, count) oldest records and reports that number |

## Left out

- The sampling thread's signal handshake, the ticker and the `sampleenable` flag
  (STM32code.c:56-61, 68-70, 85-87, 105-112, 134-135, 151-158, 189-190) are concurrency.
  Each of `Append`, `Print` and `Delete` runs atomically, and the freeze protocol exists to
  provide that.
- `printdata` and `deletedata` read `recordcount` and `average` before the freeze
  (STM32code.c:93-101, 140-148). Under concurrency those printed values can be one sample
  stale. The atomic model does not capture this.
- `float` rounding of the samples, the running sum and the average is not modelled. Samples
  are exact reals.
- The stored `average` global, and its recomputation at STM32code.c:184, are not modelled.
  That line divides by zero when every record is deleted. The model exposes `Average` only
  when the count is positive, and that is the only case in which the firmware prints it.
- `A.read()` is a hardware call. Its value is the parameter of `Append`.
- All `pc.printf`/`putc`/`getc` output and the LED toggles are I/O. Reports are returned as
  values instead.
- The command and argument tokenizer loop in `userinput` (STM32code.c:206-298, 354-357) is
  serial I/O with `goto`. It is also not memory-safe as written: the check at line 244 lets
  it write one byte past the 20-byte command buffer, and a full argument buffer is not
  NUL-terminated. The model's commands take the argument as a finished string.
- The `sampling on/off` command (STM32code.c:300-322) only arms or disarms the ticker and
  sets the flag, so it belongs to the concurrency left out above. The "command was not
  recognized" branch is output only.
- `main`'s ticker and thread start-up (STM32code.c:366-371) is wiring. The constructor
  models only the zero-initialisation.
- `Print` and `Delete` take `amt: nat`. A negative amount never reaches them, because the
  dispatch rejects -1 and, with unbounded integers, `stringtoint` returns nothing else
  below zero. With a negative amount, `deletedata` would grow the count.
- ParseInt: does not model 32-bit wrap-around of the accumulator `total`
  (STM32code.c:44-45). The argument buffer bounds the argument to 3 digits only when it
  is NUL-terminated. A full buffer (STM32code.c:200, 280-296) has no terminator, so
  `strlen` can run past it, and a longer digit string could overflow and make the result
  wrap, even below zero. The model treats the argument as a finished string of any length.
