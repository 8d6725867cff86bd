# libsodium `sysrandom` provider, modelled in Dafny

This project models the POSIX side of libsodium's system random provider
(`randombytes_sysrandom.c`): the process-wide `SysRandom` record and its
lifecycle (stir, lazy stir, close), the choice of entropy device from a fixed
priority list, the `safe_read` drain loop that survives short and interrupted
reads, `randombytes_sysrandom_buf` ("exactly `size` bytes or abort"),
`randombytes_sysrandom` (four bytes read as a host-order `uint32_t`) and the
bias-free bounded sample `randombytes_sysrandom_uniform`.

Everything the operating system decides is a parameter:

- `access(path, F_OK | R_OK)` and `open(path, O_RDONLY)` are the functions
  `accessible` and `open` of a `Host`;
- the successive results of `read(2)` on the device are a script of
  `ReadCall`s (`Interrupted`, `Failed(errno)`, `Eof`, `Got(chunk)`; a `Got`
  returns at most the number of bytes asked for);
- the result of `close(2)` is an integer argument of `Close`;
- the 32-bit draws consumed by `randombytes_sysrandom_uniform` are a sequence
  of `uint32` values.

`abort()` is the outcome `Aborted`. A call whose script runs out before it
finishes (a `read` still blocking, a rejection loop still drawing) ends in
`Pending`, `Starved` or `Exhausted`, so every function is total.

Modules: `Word` (machine words, unsigned negation, byte order), `Uniform`,
`SafeRead`, `Device` and `Provider`, one file each.

Two behaviours of the code worth noting:

- When a device passes the `access` probe but `open` then fails, the code
  returns that failure; it does not try the next device (`OpenFailureNotRetried`).
- For `uniform(10)` with draws `0, 0xFFFFFFFF, …` the code returns
  `0xFFFFFFFF % 10 = 5` (`BoundTenExample`).

## Model

| member | source | states |
|---|---|---|
| Word.Neg32 | src/libsodium/randombytes/sysrandom/randombytes_sysrandom.c:188 | `-upper_bound` on `uint32_t` is the additive inverse modulo 2^32, equal to `2^32 - upper_bound` for a non-zero bound |
| Word.DecodeEncode | src/libsodium/randombytes/sysrandom/randombytes_sysrandom.c:145-154 | reading back the host-order representation of a word gives the word, for either byte order |
| Word.EncodeDecode | src/libsodium/randombytes/sysrandom/randombytes_sysrandom.c:145-154 | every 4-byte buffer is the host-order representation of the word read from it, so the 4 bytes read fix the sample |
| Uniform.Threshold | src/libsodium/randombytes/sysrandom/randombytes_sysrandom.c:188 | the threshold `(uint32_t)(-b % b)` equals `2^32 mod b` and is below `b` |
| Uniform.Reject | src/libsodium/randombytes/sysrandom/randombytes_sysrandom.c:189-195 | the loop succeeds iff some remaining draw is at least the threshold, and then returns the first such draw reduced mod `b`, every earlier draw having been rejected |
| Uniform.UniformSample | src/libsodium/randombytes/sysrandom/randombytes_sysrandom.c:179-196 | a bound below 2 gives 0 without drawing; otherwise the result is `r % b` for the first draw `r >= 2^32 mod b`, it exists iff such a draw exists, and it is below the bound |
| Uniform.RejectedDrawsIgnored | src/libsodium/randombytes/sysrandom/randombytes_sysrandom.c:189-194 | putting rejected draws in front changes only the draw count, never the value or whether a value is found |
| Uniform.BoundTenExample | src/libsodium/randombytes/sysrandom/randombytes_sysrandom.c:185-195 | for bound 10 the threshold is 6, draw 0 is rejected and draw 0xFFFFFFFF yields 5 after two draws |
| Uniform.AcceptedRangeIsWholeBlocks | src/libsodium/randombytes/sysrandom/randombytes_sysrandom.c:188 | the accepted range `[min, 2^32)` holds `(2^32 / b) * b` values, a multiple of `b` |
| Uniform.AcceptedResidueCount | src/libsodium/randombytes/sysrandom/randombytes_sysrandom.c:188-195 | every residue below `b` has exactly `2^32 / b` accepted draws |
| Uniform.NoModuloBias | src/libsodium/randombytes/sysrandom/randombytes_sysrandom.c:179-196 | no modulo bias: each value below the bound is returned for exactly `2^32 / b` of the 2^32 possible single draws, and no other value is ever returned |
| SafeRead.Drain | src/libsodium/randombytes/sysrandom/randombytes_sysrandom.c:40-60 | the meaning of `safe_read` on a script of read results, one entry at a time: never more than `count` bytes are delivered; `SafeRead` is proved to compute it |
| SafeRead.RetryInterrupted | src/libsodium/randombytes/sysrandom/randombytes_sysrandom.c:47-48 | the inner retry loop skips exactly the interrupted reads and stops at the first read that was not interrupted, without changing what the drain delivers |
| SafeRead.SafeRead | src/libsodium/randombytes/sysrandom/randombytes_sysrandom.c:40-60 | the C loop computes the reference drain `Drain` on every script, and its return value never exceeds `count` |
| SafeRead.DrainDeliversOffered | src/libsodium/randombytes/sysrandom/randombytes_sysrandom.c:52-59 | the delivered bytes are never more than `count` and are a prefix of the chunks the device offered, in order |
| SafeRead.ShortOnlyAfterEof | src/libsodium/randombytes/sysrandom/randombytes_sysrandom.c:52-54 | fewer than `count` bytes are delivered only if some read returned 0; the drain stopped at that read (the script up to it gives the same outcome) and delivered exactly the chunks offered before it |
| SafeRead.ErrorPropagated | src/libsodium/randombytes/sysrandom/randombytes_sysrandom.c:49-51 | a reported error is the errno of a failed read in the script, and the drain stopped at that read: the script up to it gives the same outcome |
| SafeRead.InterruptionsIgnored | src/libsodium/randombytes/sysrandom/randombytes_sysrandom.c:47-48 | removing every interrupted read from the script does not change the outcome: interruptions make no progress and lose nothing |
| SafeRead.ShortReadsSurvived | src/libsodium/randombytes/sysrandom/randombytes_sysrandom.c:46-59 | when non-empty chunks and interruptions add up to exactly `count` bytes, all of them are delivered, concatenated in order |
| SafeRead.ZeroCountStillReads | src/libsodium/randombytes/sysrandom/randombytes_sysrandom.c:46-57 | with `count == 0` the `do … while` still issues a read: the call is pending only if every read is interrupted, and a finished call delivers nothing |
| Device.Devices | src/libsodium/randombytes/sysrandom/randombytes_sysrandom.c:67-72 | the candidate list is never empty and, in either build, ends with `/dev/random`, which appears nowhere else |
| Device.OpenFirst | src/libsodium/randombytes/sysrandom/randombytes_sysrandom.c:73-82 | -1 when no candidate passes the probe, otherwise the `open` result of the first candidate that passes |
| Device.RandomDevOpen | src/libsodium/randombytes/sysrandom/randombytes_sysrandom.c:63-83 | -1 when no listed device is accessible; otherwise exactly the `open` result of the first accessible device in priority order |
| Device.OpenFailureNotRetried | src/libsodium/randombytes/sysrandom/randombytes_sysrandom.c:76-78 | when the first accessible device in priority order fails to open, the result is -1 although later devices are not tried |
| Provider.Init | src/libsodium/randombytes/sysrandom/randombytes_sysrandom.c:85-92 | init aborts exactly when device selection gives -1 (in particular when no device is accessible); otherwise it stores a descriptor other than -1 obtained by opening an accessible device, and changes nothing else in the record |
| Provider.Stir | src/libsodium/randombytes/sysrandom/randombytes_sysrandom.c:106-113 | when initialised nothing changes; otherwise abort iff no device could be opened, else the record becomes (device fd, initialised); the invariant `initialized <==> fd != -1` is established or kept |
| Provider.StirIfNeeded | src/libsodium/randombytes/sysrandom/randombytes_sysrandom.c:115-121 | the lazy entry point behaves exactly like `stir` |
| Provider.StirIdempotent | src/libsodium/randombytes/sysrandom/randombytes_sysrandom.c:106-113 | stirring a stirred record returns it unchanged |
| Provider.Close | src/libsodium/randombytes/sysrandom/randombytes_sysrandom.c:123-143 | returns 0 iff a descriptor is held and `close` succeeds, and then resets the record; otherwise returns -1 and leaves the record untouched; keeps the invariant |
| Provider.CloseBeforeInit | src/libsodium/randombytes/sysrandom/randombytes_sysrandom.c:126-142 | closing a never-initialised provider returns -1 and leaves it as it was |
| Provider.CloseTwice | src/libsodium/randombytes/sysrandom/randombytes_sysrandom.c:129-133 | after a successful close a second close returns -1, whatever `close(2)` would answer |
| Provider.CloseThenBufReopens | src/libsodium/randombytes/sysrandom/randombytes_sysrandom.c:129-133 | after a successful close the next buffer fill opens the device afresh |
| Provider.Buf | src/libsodium/randombytes/sysrandom/randombytes_sysrandom.c:156-172 | a completed fill delivered exactly `size` bytes, those the drain read; it aborts iff init aborted, a read failed or the drain ended short |
| Provider.NoDeviceAborts | src/libsodium/randombytes/sysrandom/randombytes_sysrandom.c:85-92 | with no accessible device the first buffer fill aborts |
| Provider.Random | src/libsodium/randombytes/sysrandom/randombytes_sysrandom.c:145-154 | a returned word is the one whose host-order bytes are the 4 bytes read; it aborts, blocks or returns exactly when the 4-byte fill does, and leaves the record as the fill leaves it |
| Provider.ImplementationName | src/libsodium/randombytes/sysrandom/randombytes_sysrandom.c:198-202 | the provider identifies itself as `sysrandom` |
| Provider.RandomLittleEndianExample | src/libsodium/randombytes/sysrandom/randombytes_sysrandom.c:145-154 | a fresh provider reading 01 02 03 04 on a little-endian host returns 0x04030201 |
| Provider.Step | src/libsodium/randombytes/sysrandom/randombytes_sysrandom.c:106-172 | any one call keeps the invariant; `initialized` is cleared only by a successful close and set only by opening the device; a held descriptor stays the one device selection gives |
| Provider.Exec | src/libsodium/randombytes/sysrandom/randombytes_sysrandom.c:106-172 | any sequence of stir, close and fill calls that completes keeps `initialized <==> fd != -1`; with one host answering for the whole sequence, a descriptor held at the end is the one device selection gives on that host |

## Left out

- The Windows branch (`CryptAcquireContext`, `CryptGenRandom`, `CryptReleaseContext`, lines 94-103, 135-141, 167-171): opaque foreign calls; only the POSIX branch is modelled.
- The function-pointer record `randombytes_sysrandom_implementation` (lines 204-215): it only binds names.
- The `assert(size <= ULONG_LONG_MAX)` (lines 160-162): sizes are unbounded naturals.
- Integer widths of `size_t` and `ssize_t`: counts are unbounded, so the `(ssize_t) size` cast in `randombytes_sysrandom_buf` (line 164) is taken as exact; a size above `SSIZE_MAX` would wrap to a negative value, which the model does not represent.
- The identity of the descriptor that `read` and `close` act on: the read script and the close result are those of the descriptor stored in the record.
- Uniform.UniformSample: termination of the rejection loop and any probability are not modelled; the draws are a finite sequence, and a sequence with no accepted draw gives `Exhausted` where the C loop keeps drawing. Uniformity is stated by counting preimages (`NoModuloBias`).
- Uniform.UniformSample: each draw is an abstract `uint32`; the link to four-byte reads through `randombytes_sysrandom` is modelled separately in `Provider.Random`, not composed with the sampler.
- SafeRead.SafeRead: a script that ends before the loop finishes yields `Starved`, standing for a `read` that blocks; real `errno` values other than `EINTR` are carried as plain integers.
- The `USE_BLOCKING_RANDOM` build toggle is the `Device.Config` parameter; nothing else of the build is modelled.
- Provider.Exec: one `Host` serves the whole call sequence, so the `access` answers never change between calls and reopening a path after a close returns the same descriptor; in the C code `access` reads the file system at the time of the call and `open` returns the lowest descriptor free at that moment, so a reopened descriptor can differ. The held-descriptor clause is stated only for this frozen host.
- Thread safety of the global `stream` and concurrent calls: the record is passed in and out explicitly, one call at a time.
