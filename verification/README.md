# ticketer, modelled in Dafny

`ticketer` keeps payloads as files in one directory, each file named by a
*ticket*. A `Ticket` value holds three things: the directory path, a TTL
after which stored files expire, and a sequence counter.

- When the counter is -1 (random mode), a ticket is 18 random bytes.
- Once `Queue` has armed the counter, a ticket is 4 bytes of sequence
  number, 4 bytes of Unix time and 10 random bytes.
- The text form of a ticket is lowercase hex in five groups joined by `-`.
- `Expire` removes stored files older than the TTL.
- `Next` picks the next file to process, either the head of the directory
  listing or a random entry.

The model has one module per component of `ticketer.go`:

- `Bytes`: bytes, the `uint32`/`uint64` conversions, big- and
  little-endian encodings.
- `Hex`: `%x` rendering and its inverse.
- `Sequencer`: the counter state machine and the numbers it issues.
- `TicketId`: the 18-byte layout, the 40-character text and its parser.
- `Expiry`: TTL resolution, the truncated "now", the per-entry expiry
  test, and the files left after one or more sweeps.
- `Selector`: the bounded read and the index `Next` takes.
- `Paths`: the base-name reduction that `getPath` applies to a ticket
  before joining it to the directory path.
- `Ticketer`: the `Ticket` class, and a `Directory` class holding the
  directory's files as a map from name to bytes.
- `Scenarios`: whole runs on fresh objects.

The pure parts of the source are functions with lemmas. `Queue`,
`Generate`, `Save`, `Remove`, `Expire` and `Start` change state in place.
They are methods on the `Ticket` class, proved against those functions.
`Generate` fills an 18-byte array step by step, in the source's order:
first the time over bytes 0-7, then the counter over bytes 0-3, then the
random bytes over bytes 8-17. `Expire` loops over the listing and
deletes files from the `Directory`.

The model takes these as parameters:

- the wall clock (Unix seconds for `Generate`, Unix nanoseconds for
  `Expire`);
- the random bytes (18 for `Generate`, 8 for `Next`);
- each directory read, as `Option<seq<DirEntry>>`, where `None` is a
  read error;
- whether `os.Create` succeeds, as a boolean.

Durations are integer nanoseconds: `Hour` is 3,600,000,000,000, and the
default TTL is 12 hours.

The text form follows the `Sprintf` at ticketer.go:62: the groups are
bytes [0:4], [4:6], [6:8], [8:10] and [10:18], so the text is 4-2-2-2-8
bytes of lowercase hex, 40 characters in all, as in the examples at
ticketer.go:42-43.

Where the code and a comment in ticketer.go differ, the model follows
the code:

- **`Start` guard.** `Start` returns at once when the counter is below
  zero, which is random mode (ticketer.go:145). The comments at
  ticketer.go:141 and :144 say it aborts in queue mode.
- **Time bytes.** The comment at ticketer.go:46-47 calls bytes 4-5 the
  high and bytes 6-7 the low 32-bit Unix time. The code writes the
  `uint64` time big-endian over bytes 0-7 and then the counter over
  bytes 0-3 (ticketer.go:54-55), so bytes 4-7 together hold the low
  32 bits of the time (`TicketId.SequentialFields`).
- **Default TTL.** The field comment at ticketer.go:20 gives 12 hours as
  the default. A first `Expire` with an override that is present but
  not positive leaves the unset TTL at 0, and the floor then raises it
  to 1 hour; the 12-hour default applies only when the override is nil
  (ticketer.go:177-187).

One more behaviour of the code worth knowing: after the ticket numbered
100,000,000 the counter is reset to 1, so the next ticket is numbered 2
(`Sequencer.AfterCeiling`). Only the very first cycle issues number 1.

## Model

| member | source | states |
|---|---|---|
| Bytes.ToUint32 | ticketer.go:55 | `uint32(x)` is below 2^32, differs from x by a multiple of 2^32, and leaves values already in range alone |
| Bytes.ToUint64 | ticketer.go:54 | `uint64(x)` is below 2^64, is the identity in range, and keeps the low 32 bits of x |
| Bytes.BigEndian | ticketer.go:54-55 | PutUint32/PutUint64 write exactly `width` bytes |
| Bytes.FromBigEndian | ticketer.go:45-46 | a big-endian group's value is below 256^length |
| Bytes.FromBigEndianOfBigEndian | ticketer.go:54-55 | decoding a big-endian encoding gives the value modulo 256^width |
| Bytes.BigEndianSuffix | ticketer.go:54-55 | the last b bytes of a wider encoding are the b-byte encoding of the same value, which is why bytes 4-7 keep the time |
| Bytes.FromLittleEndian | ticketer.go:130-132 | `binary.LittleEndian.Uint64` of 8 bytes is below 2^64 |
| Hex.Digit | ticketer.go:62 | `%x` emits lowercase hex digits |
| Hex.DigitValue | ticketer.go:62 | a character has a nibble value exactly when it is a lowercase hex digit, and that value's digit is the character |
| Hex.DigitValueOfDigit | ticketer.go:62 | reading a digit back gives its nibble |
| Hex.Encode | ticketer.go:62 | `%x` of a byte slice is two lowercase hex digits per byte |
| Hex.Decode | ticketer.go:62 | a decoded string has half as many bytes as it has characters |
| Hex.EncodeAppend | ticketer.go:62 | hex of a concatenation is the concatenation of the hex strings |
| Hex.DecodeEncode | ticketer.go:62 | decoding the hex of bytes gives the bytes back |
| Hex.EncodeDecode | ticketer.go:62 | any string that decodes is the hex of what it decodes to, so only lowercase canonical text decodes |
| Sequencer.Arm | ticketer.go:38 | Queue's compare-and-swap arms -1 to 0 and leaves a running counter unchanged |
| Sequencer.ArmIdempotent | ticketer.go:38 | two Queue calls leave the counter where one does |
| Sequencer.Advance | ticketer.go:53-57 | Generate keeps the counter in [-1, 100,000,000); random mode stays random; in sequential mode the counter goes up by one, except that 100,000,000 becomes 1 |
| Sequencer.Issued | ticketer.go:55 | every issued sequence number lies in [1, 100,000,000] |
| Sequencer.IssuedRun | ticketer.go:53-57 | a run of n tickets has n sequence numbers, each in [1, 100,000,000] |
| Sequencer.CounterAfter | ticketer.go:53-57 | the counter stays valid over any number of tickets |
| Sequencer.RandomModeStays | ticketer.go:53-59 | in random mode the counter stays at -1 however many tickets are generated |
| Sequencer.IssuedRunAt | ticketer.go:55 | the i-th ticket of a run carries the counter after i tickets, plus one |
| Sequencer.RunWithoutReset | ticketer.go:55-57 | while the ceiling is not crossed, a run's numbers are consecutive from the counter plus one |
| Sequencer.FreshRun | ticketer.go:38-43 | after Queue, the tickets are numbered 1, 2, 3, ... up to 100,000,000 |
| Sequencer.AfterCeiling | ticketer.go:57 | after the ticket numbered 100,000,000, the next tickets are numbered 2 and 3 |
| Sequencer.CounterAfterCycle | ticketer.go:55-57 | once at 1 or above, the counter cycles through 1 .. 99,999,999 with period 99,999,999 |
| Sequencer.RunDistinct | ticketer.go:55-57 | any 99,999,999 consecutive sequential tickets carry pairwise distinct sequence numbers |
| TicketId.SequentialLayout | ticketer.go:45-49 | the sequential layout is 18 bytes |
| TicketId.TicketBytes | ticketer.go:52-60 | a ticket is 18 bytes in either mode |
| TicketId.Render | ticketer.go:62 | the text is 40 characters |
| TicketId.RenderShape | ticketer.go:62 | the text has '-' exactly at positions 8, 13, 18 and 23 and lowercase hex digits everywhere else |
| TicketId.RenderGroups | ticketer.go:62 | the five groups are the hex of bytes [0:4], [4:6], [6:8], [8:10] and [10:18] |
| TicketId.Digits | ticketer.go:62 | dropping the separators leaves 36 digits |
| TicketId.Parse | ticketer.go:62 | a parsed text yields 18 bytes |
| TicketId.SequenceOf | ticketer.go:45 | the sequence group of a text is a 32-bit value |
| TicketId.EncodeGroups | ticketer.go:62 | the five groups' digits are the digits of all 18 bytes |
| TicketId.ParseRender | ticketer.go:62 | parsing a rendered ticket gives back its 18 bytes |
| TicketId.RenderParse | ticketer.go:62 | rendering what a text parses to gives back the text, so the text form is canonical |
| TicketId.RandomLayout | ticketer.go:58-59 | in random mode all 18 ticket bytes are the random input |
| TicketId.SequentialFields | ticketer.go:54-56 | in sequential mode bytes 0-3 decode to the new counter, bytes 4-7 decode to the Unix seconds modulo 2^32, and bytes 8-17 are the random input's bytes 8-17 |
| TicketId.SequenceOfGenerated | ticketer.go:53-62 | the text of a sequential ticket carries the counter value Generate issued |
| Expiry.ResolveTtl | ticketer.go:177-187 | a nil override with an unset TTL gives 12 h; a positive override replaces the TTL; otherwise the TTL is kept; the result is at least 1 h |
| Expiry.ResolveStable | ticketer.go:177-187 | after one resolution, a sweep with a nil override keeps the TTL |
| Expiry.TruncateToSecond | ticketer.go:194 | "now" is rounded down to a whole second: a multiple of 10^9 ns, at most now and less than one second before it |
| Expiry.Expired | ticketer.go:196-198 | an entry expires only when it is a regular file whose modification time could be read |
| Expiry.ExpiredNames | ticketer.go:195-202 | every name the sweep loop removes is the name of a listed entry |
| Expiry.ExpiredNamesSnoc | ticketer.go:195-202 | one more listed entry adds its name exactly when it is expired |
| Expiry.ExpiredNamesExactly | ticketer.go:195-202 | a name is swept exactly when some listed entry of that name is regular, has a modification time, and that time plus the TTL is strictly before the cut-off |
| Expiry.LongerTtlRemovesLess | ticketer.go:198 | a longer TTL sweeps a subset of the names |
| Expiry.RecentEntrySurvives | ticketer.go:185-198 | thanks to the one-hour floor, a file modified within the hour before the cut-off is never swept |
| Expiry.Sweep | ticketer.go:189-202 | a sweep only removes files and never changes a kept file's bytes; on a read error nothing changes |
| Expiry.SweepExactly | ticketer.go:194-202 | a stored file is removed exactly when the read succeeded and a regular listed entry of that name has modification time plus TTL strictly before "now" truncated to the second |
| Expiry.SweepAll | ticketer.go:156-168 | a series of sweeps only removes files and keeps the rest unchanged |
| Selector.BoundedRead | ticketer.go:119 | `ReadDir(1000)` returns at most 1000 entries, as a prefix of directory order, and all entries when there are no more than 1000 |
| Selector.SelectIndex | ticketer.go:126-132 | the chosen index is in range, and it is 0 when not random |
| Selector.HitsBalanced | ticketer.go:131-132 | among the random values 0 .. n-1 (all 2^64 values of a `uint64` when n = 2^64), each index of `count` is chosen n / count or n / count + 1 times |
| Paths.BaseName | ticketer.go:33-35 | the name used under the directory contains no '/' and is no longer than the ticket |
| Paths.BaseNameIsLastElement | ticketer.go:34 | the base name is the longest '/'-free suffix of the ticket |
| Paths.BaseNameOfName | ticketer.go:34 | a name without '/' is used as it is |
| Paths.JoinPath | ticketer.go:127-132 | the joined path ends with the entry's name and, under a non-empty directory, is the directory, a '/' and the name |
| Paths.BaseNameOfJoin | ticketer.go:127-132 | the base name of a path Next returns is the chosen entry's name, so Load or Remove on it acts on that entry |
| Ticketer.OverlappingWrites | ticketer.go:54-56 | writing the 8 time bytes, then the 4 counter bytes over their start, then 10 random bytes leaves the counter, the last 4 time bytes and the random bytes |
| Ticketer.Put | ticketer.go:54-59 | PutUintN and rand.Read write their bytes from an offset and change nothing else in the array |
| Ticketer.RenderedNameIsBase | ticketer.go:84-89 | a generated ticket is its own base name |
| Ticketer.Ticket.constructor | ticketer.go:25-30 | NewTicket keeps the path, leaves the TTL unset and starts in random mode |
| Ticketer.Ticket.ZeroValue | ticketer.go:18-22 | a zero-valued Ticket starts with the counter at 0, in sequential mode |
| Ticketer.Ticket.Queue | ticketer.go:38 | the counter moves from -1 to 0 and is otherwise unchanged; returns the same Ticket |
| Ticketer.Ticket.Generate | ticketer.go:50-63 | the text of the 18-byte layout for the old counter, the time and the random bytes; the counter advances as `Sequencer.Advance` says |
| Ticketer.Ticket.Save | ticketer.go:82-96 | saves under the given ticket, or under a newly generated one when none is given; when creation succeeds the payload is stored under the ticket's base name; returns the ticket and the creation result |
| Ticketer.Ticket.Load | ticketer.go:99-108 | succeeds exactly when a file of the ticket's base name exists, and then returns its bytes |
| Ticketer.Ticket.Remove | ticketer.go:111 | the file of that base name is gone afterwards; true exactly when there was one |
| Ticketer.Ticket.Next | ticketer.go:115-138 | None exactly when the read fails or is empty; otherwise the path of entry 0, or of entry r mod count when random, within the first 1000 entries; the directory is not changed |
| Ticketer.Ticket.Expire | ticketer.go:175-205 | the TTL becomes `ResolveTtl` of the old TTL and the override, even on a read error; null on a read error, else the same Ticket; the files are those `Expiry.Sweep` leaves |
| Ticketer.Ticket.Start | ticketer.go:142-171 | in random mode nothing changes; otherwise an empty path becomes /tmp, the TTL is resolved with no override, and the files are those left by the first sweep and one sweep per tick |
| Scenarios.SequencedRun | ticketer.go:38-63 | after Queue, three generated tickets carry sequence numbers 1, 2 and 3 |
| Scenarios.QueueTwice | ticketer.go:38 | Queue twice leaves the counter at 0, as Queue once does |
| Scenarios.StoreRoundTrip | ticketer.go:82-111 | Save then Load returns the payload, and after Remove a Load finds nothing |

## Left out

- File I/O is not modelled: `os.Create`, `os.Open`, `io.Copy`, `Close`
  and `os.Remove` (ticketer.go:66-111, 199). The `Directory` map stands
  in for the files. `Writer` and `Reader` (ticketer.go:66-79) are folded
  into `Save` and `Load`.
- A failed `io.Copy` or a partial write is not modelled. A created file
  always holds the whole payload.
- Directory creation with `os.Stat` and `MkdirAll` is not modelled
  (ticketer.go:26-27, 153-154).
- `crypto/rand` and `time.Now` are parameters. A failing `rand.Read`
  is not modelled.
- Directory reads are parameters that are not tied to the `Directory`
  contents. The order of directory entries, and the sorting that
  `os.ReadDir` does, are whatever the caller passes.
- Concurrency is not modelled. The atomic load, add and compare-and-swap
  are single-threaded field updates. Two things follow:
  - linearizability across goroutines is not modelled;
  - nor is a counter that overshoots 100,000,000 under a race, or its
    `int32`/`uint32` wrap-around.

  In the single-threaded model the counter stays in [-1, 100,000,000),
  so `int32` never overflows.
- `Ticketer.Ticket.Start`: the hourly `time.Ticker`, the `select` and
  `ctx.Done()` are not modelled. Instead, `Start` takes the finite
  sequence of ticks that fire before cancellation. `ticker.Stop` has no
  counterpart.
- `Paths.BaseName`: only the suffix after the last `/` is modelled. Go's
  `filepath.Base` also does the following, and none of it is modelled:
  - it strips trailing separators;
  - it maps "" to ".";
  - it maps a path of only separators to "/".
- `Ticketer.Ticket.Load`, `Ticketer.Ticket.Remove`, `Expiry.Sweep`:
  opening and removing a stored name always succeed in the model. In the
  source, `Load` returns false for an existing file that `os.Open`
  cannot open (ticketer.go:76-77, 101-107), `Remove` returns false and
  keeps the file when `os.Remove` fails (:111), and a sweep skips a
  failed `os.Remove` and keeps that file (:199). Nor does the store hold
  non-regular entries: a subdirectory with a ticket's name, which the
  source's `os.Open` opens and `os.Remove` deletes when it is empty, has
  no counterpart.
- `Ticketer.Ticket.Save`, `Ticketer.Ticket.Load`,
  `Ticketer.Ticket.Remove`: the tickets "." and ".." are not modelled as
  the source treats them. Their base names are themselves, and
  `filepath.Join` resolves them to the ticket directory and its parent,
  so in the source `Load` of either opens a directory and reports
  success. `Remove` of "." deletes the ticket directory itself, and
  `Remove` of ".." deletes its parent, when that directory is empty.
  The model looks such names up as plain file names.
- `Ticketer.Ticket.Save`, `Ticketer.Ticket.Load`,
  `Ticketer.Ticket.Remove`: a nil `*string` ticket is not modelled. The
  source dereferences it without a check (ticketer.go:68, 76, 111) and
  panics in `Load` and `Remove`; `Save` replaces nil with a generated
  ticket first. The model takes a `string` (an `Option<string>` in
  `Save`), so the panic has no counterpart.
- `Paths.JoinPath`: `filepath.Join` also cleans the path (for example
  it collapses repeated separators). That cleaning is not modelled.
- Time arithmetic uses unbounded integers, so `time.Duration` overflow
  and the range limits of `time.Time.Add` are not modelled.
- The exported `Path` field can be reassigned by callers. Only the
  reassignment `Start` makes is modelled.
