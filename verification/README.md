# PIC programming session, modelled in Dafny

This project models the host side of a serial PIC16 programmer. The `Pic`
session keeps a mirror `pc` of the programmer's address pointer. It drives
the programmer with one-letter commands:

- `R` rewinds the pointer to 0;
- `b` bulk-erases;
- `i` increments the pointer;
- `c` jumps to configuration memory at 0x2000;
- `w` is followed by a word as binary digits;
- `r` reads a word back;
- `x` starts the program.

Every command except `w` and `r` must be answered with an empty line. The
reply to the digits that follow `w` must also be empty.

On top of these single steps the session runs composite sweeps over a
firmware image:

- write every non-default word up to `last_loc(max_location)`;
- verify those words;
- navigate to the configuration word at 0x2007, write it, and read it back.

The image is a word-addressed map. An address it does not populate reads as
0xFFFF.

The model is functional. A session is a value
`Pic(pc, maxLocation, link)`. The link carries four things:

- a simulated programmer (pointer, memory, erased and running flags);
- the line it will answer next;
- the trace of every token sent and line received;
- a fault oracle that can replace any received line by another.

`Honest(link)` says the oracle garbles no line from here on.

Every operation returns `Ok(value, pic)` or `Abort(error, pic)`.

- A failed Python `assert` becomes an `Abort` with an error that names what
  was rejected: a non-empty acknowledgement, a mismatching readback, or a
  sweep started away from address 0.
- So does a `ValueError`: the one `int(..., 2)` raises on a readback that is
  not binary (pic.py:63), and the one `max` raises on an empty sequence
  (hexfile.py:11).
- A sweep started away from address 0, or with nothing to program, aborts
  before sending anything and returns the session unchanged. Every other
  abort leaves the rejected line as the last event of the trace. Either
  way, no command follows a failure.

Modules:

- `Wire` — the 14-digit binary word format and base-2 parsing (`Options`
  holds the `Option` type).
- `HexImage` — the image capability: `get`, `config_word`, `last_loc`.
- `Programmer` — the simulated programmer and the link.
- `PicSession` — the single steps of `Pic`.
- `PicSweeps` — the sweeps and the properties that connect them.

## Model

| member | source | states |
|---|---|---|
| Wire.FormatWordRoundTrip | pic.py:60-69 | the digits `write` sends for any value parse back, with base-2 parsing as in `read`, to that same value |
| Wire.FormatWordWidth | pic.py:68-69 | the payload has at least 14 digits, and exactly 14 if and only if the value is below 2^14 |
| Wire.FormatWordInjective | pic.py:69 | different values are sent as different payloads |
| Wire.NumeralValue | pic.py:69 | a zero-padded binary numeral consists of binary digits whose base-2 value is the number formatted |
| Wire.NumeralWidth | pic.py:69 | padding to a width gives at least that many digits, and exactly that many if and only if the number is below 2^width |
| HexImage.ConfigWord | hexfile.py:18-20 | the configuration word is the image word at 0x2007, and the padding value 0xFFFF when the image has none |
| HexImage.LastLoc | hexfile.py:10-11 | a result exists if and only if some populated address is at most the ceiling; the result is then a populated address, at most the ceiling, and at least every other such address |
| HexImage.LastLocOfKeys | hexfile.py:10-11 | taking the maximum of the keys that pass the `<= ceiling` filter, in any scan order, gives the same answer as `LastLoc` |
| HexImage.LastLocUnique | hexfile.py:10-11 | any populated address that is at most the ceiling and bounds all such addresses is the answer of `last_loc` |
| HexImage.LastLocExample | hexfile.py:10-11 | with populated addresses {0, 1, 5, 2000}, ceiling 0x3FF gives 5 and ceiling 1 gives 1 |
| Programmer.Send | pic.py:51-53 | sending a token appends it to the trace and lets the programmer act on it; the fault oracle and honesty are kept |
| Programmer.NextLine | pic.py:22-23 | on an honest link the line read is the one the programmer produced |
| Programmer.Receive | pic.py:22-23 | reading a line appends exactly that line to the trace and changes nothing else |
| Programmer.ReplyTo | pic.py:22-23 | on an honest link the reply to a token is the programmer's answer to it |
| PicSession.AssertResp | pic.py:30-32 | one line is read and recorded; the step succeeds if and only if that line equals the wanted one, otherwise it aborts on that line |
| PicSession.AssertD | pic.py:35-37 | the token and its reply are recorded; success if and only if the reply is empty; on an honest link, if and only if the programmer answers empty |
| PicSession.BulkErase | pic.py:56-57 | `b` is sent and every cell reads 0xFFFF afterwards; the pointer and `pc` stay; honest links always acknowledge |
| PicSession.Read | pic.py:60-63 | `r` is sent; the result exists if and only if the reply parses as binary and is its value; on an honest link it is the word under the pointer |
| PicSession.Write | pic.py:66-69 | `w` then the formatted digits are sent; the cell under the pointer becomes the value and no other cell changes; success if and only if the digits are acknowledged empty |
| PicSession.Increment | pic.py:72-76 | `i` is sent and the pointer always advances by one; `pc` advances by one if and only if the acknowledgement is accepted, so a synchronised session stays synchronised if and only if it succeeds |
| PicSession.Reset | pic.py:79-83 | `R` is sent; `pc` and the pointer are both 0 afterwards, whatever the acknowledgement |
| PicSession.EnterConfig | pic.py:86-88 | `c` is sent; `pc` and the pointer are both 0x2000 afterwards, whatever the acknowledgement |
| PicSession.Execute | pic.py:159-160 | `x` is sent and the chip runs; memory, pointer and `pc` are unchanged |
| PicSession.InitDevice | pic.py:40-48 | on success the trace is `R`, ack, `b`, ack; `pc` is 0, in step with the pointer, and memory is blank; an honest link always succeeds |
| PicSession.Open | pic.py:10-19 | a new session starts at `pc` 0 with the device rewound and erased, and keeps `max_location` |
| PicSweeps.WriteAt | pic.py:109-119 | one iteration of write_file: the trace is `i` alone for a default word and `w`, digits, `i` otherwise; only the cell under the pointer can change, to the image word; `pc` and the pointer advance together |
| PicSweeps.StoredByWrite | pic.py:117-119 | a write followed by a pointer move stores exactly the image word at the old pointer |
| PicSweeps.WriteSweep | pic.py:107-119 | the loop of write_file: `pc` equals the loop index at each iteration; on success the trace is the per-address steps in order, and memory holds every non-default image word at its address and the old content elsewhere |
| PicSweeps.WriteAtAdvances | pic.py:107-119 | an accepted iteration extends the sweep's trace and its memory effect by one address |
| PicSweeps.WriteFile | pic.py:100-122 | aborts with nothing sent unless `pc` is 0 and `last_loc` exists; on success writes through address `last_loc(max_location)`, then ends with `R` and `pc` 0 in step; an honest link always succeeds |
| PicSweeps.WriteStepCounts | pic.py:109-119 | each address of write_file sends exactly one `i`, a `w` if and only if the image word is not 0xFFFF, and no `r` |
| PicSweeps.IncTraceCounts | pic.py:113-119 | a run of `k` accepted increments sends `i` exactly `k` times and never `w` |
| PicSweeps.DefaultRun | pic.py:110-114 | over a run of 0xFFFF words the write sweep sends only increments, one per address |
| PicSweeps.SkipOnDefault | pic.py:107-119 | with a single non-default word at address `a` below `n`, the write sweep's trace is `a` increments, the write at `a` with its increment, then the remaining increments |
| PicSweeps.SkipOnDefaultCounts | pic.py:107-119 | with a single non-default word among addresses 0 .. n-1, the write sweep sends exactly one `w` and exactly `n` `i` |
| PicSweeps.SkipOnDefaultExample | pic.py:107-119 | with ten addresses of which only address 5 holds a non-default word, the write sweep sends exactly one `w` and ten `i` |
| PicSweeps.VerifyAt | pic.py:134-138 | one iteration of verify_file never changes memory; on any link, success means the step sent `r` only for a non-default word, the answer read then parsed to the image word, and one `i` followed; on an honest link it succeeds if and only if a non-default image word equals the cell, and otherwise aborts with the expected and the read word |
| PicSweeps.VerifyStepCounts | pic.py:134-138 | each address of verify_file sends exactly one `i`, an `r` if and only if the image word is not 0xFFFF, and no `w` |
| PicSweeps.VerifyNext | pic.py:132-138 | an iteration either keeps the verify loop invariant one address further or is the first mismatch |
| PicSweeps.MismatchHere | pic.py:136 | a rejected readback after all earlier words matched is the first mismatch, and the image does not hold in memory |
| PicSweeps.EchoedTrace | pic.py:132-138 | when every answer is the word's own numeral, the answer-by-answer verify trace is the verify trace of an honest link |
| PicSweeps.EchoedLinesMatch | pic.py:136 | answers that are the words' own numerals pass verify_file's comparison |
| PicSweeps.VerifyAtAdvances | pic.py:132-138 | an accepted iteration extends the verify trace by one address |
| PicSweeps.VerifySweep | pic.py:132-138 | the loop of verify_file: memory is never changed; on any link, success yields one answer per address whose non-default answers all parsed to the image words, and the trace is made of exactly those steps; on an honest link it succeeds if and only if every non-default image word is in its cell, and an abort names the first mismatching address |
| PicSweeps.VerifyFile | pic.py:125-141 | aborts with nothing sent unless `pc` is 0 and `last_loc` exists; on any link, success means every non-default word through `last_loc` was read back as that word, the trace is those reads and one `i` per address, then `R`; on an honest link it succeeds if and only if memory holds the image through `last_loc`; on success it ends with `R` and `pc` 0 |
| PicSweeps.WriteThenVerify | pic.py:100-141 | write_file then verify_file from a synchronised start: on success every non-default image word is in its cell, and on a blank chip every cell through `last_loc` equals the image word; an honest link always succeeds |
| PicSweeps.ProgrammedHolds | pic.py:110-136 | what the write sweep stores is exactly what the verify sweep checks for |
| PicSweeps.GotoConfigWord | pic.py:91-97 | one `c` then exactly seven accepted `i`, ending with `pc` and the pointer at 0x2007; memory is unchanged |
| PicSweeps.WriteReadBack | pic.py:152-153 | the word is written under the pointer and read back; on success the readback parses to the word and the cell holds it; no other cell changes |
| PicSweeps.StoreAndRewind | pic.py:152-156 | write and read back under the pointer, then `R`: only that cell changes; on success it holds the word, the line read back parses to the word, and `pc` is 0 |
| PicSweeps.WriteVerifyConfigFile | pic.py:144-156 | the configuration word is written at 0x2007; on any link, success means the trace is `c`, seven `i`, `w`, digits, `r`, `R` with a readback line that parses to the configuration word; no other cell changes; it ends with `pc` 0; on an honest link it always succeeds and the readback is the word's own digits |
| PicSweeps.MissingConfigWordIsWide | pic.py:144-152 | an image without a configuration word makes the session send 0xFFFF, whose payload is longer than 14 digits |

verify_file sends `r` only for words that are not 0xFFFF (pic.py:136), and
`PicSweeps.VerifyAt` does the same.

## Left out

- The serial transport is not modelled: opening the port, the baud rate, `readline`, `write`, `close` (pic.py:26-27) and the 10 ms pause after each send. The link is a simulated programmer plus a fault oracle for the lines read.
- `get_response` strips whitespace from each line. Received lines are modelled as already stripped.
- Received lines and sent tokens are modelled as Python 2 `str` values. Under Python 3, `readline().strip()` (pic.py:23) returns `bytes`, so the comparison with `""` at pic.py:32 could never hold; that reading is not modelled.
- The programmer's firmware is not part of this model. Its behaviour is an assumption:
  - it acts on each command as the command table says;
  - it stores whatever binary payload follows `w`, without truncating to 14 bits;
  - it answers `r` with the stored word's 14-or-more-digit numeral.
- The programmer treats any all-binary token as a write payload and does not remember that `w` came first. The session always sends `w` before the digits, so this cannot be observed from the session.
- Base-2 parsing accepts only a non-empty string of `0`/`1` digits. Python 2's `int(s, 2)` also takes a sign and a `0b` prefix. A programmer that answers with those forms is not modelled.
- The progress bar in write_file and verify_file is display only.
- IntelHex16bit decoding of the hex file (hexfile.py:1-7) is a foreign library. The image is a finite map from word address to word, and absent addresses read as 0xFFFF.
- `last_loc` takes the keys of `ih.todict()` (hexfile.py:11), while `get` indexes `ih[i]` (hexfile.py:15). The model assumes both use the same word addressing, so one map serves both.
- Every failure check in the session is a Python `assert` (pic.py:32, 97, 102, 127, 136, 153). Under `python -O` those checks are removed. The model assumes asserts are enabled, so each check becomes an `Abort`.
- HexImage.Get has no contract. It is a lookup in an immutable map, so "does not change the map" holds by construction.
- program.py (command line, assembler calls, port discovery) is not part of this model.
- `execute` only sets a running flag on the simulated chip. What the chip then does is not modelled.
- PicSweeps.WriteStepCounts: command counts are stated per address. They are not summed into one lemma over the whole sweep. The sweep-wide count follows because WriteFile's success trace is the concatenation of the per-address steps.
- PicSweeps.VerifyStepCounts: per address only, for the same reason.
