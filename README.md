# vtpmctrl responder, modelled in Dafny

`vtpmctrl_create` (src/vtpmctrl.c) creates a Linux vTPM proxy device and then
acts as a minimal TPM 1.2 behind it. It reads a request from the server
descriptor into a 4096-byte buffer. It takes the big-endian ordinal at byte
offset 6 and answers with one of three canned responses:

- the 10-byte success header for Startup (0x99);
- the TIS timeout values for the GetCapability request whose first 22 bytes
  equal `timeout_req`;
- the command durations for the GetCapability request whose first 22 bytes
  equal `duration_req`, which also sets the `started` flag;
- the success header for every other request.

When the exit-on-user-request option is given and `started` is true, the
next request ends the loop before it is answered. The loop also ends on a
read of zero or fewer bytes and on a failed write. Every way out returns 0.

The project has three modules:

- `Tpm12` (tpm12.dfy) holds the wire format: bytes, big-endian 32-bit
  fields, the two ordinals and the five canned buffers, byte for byte as in
  the source.
- `Classify` (dispatch.dfy) holds the decision for one request. `Select` is
  the `switch` on the ordinal. `Dispatch` puts the exit rule in front of it.
- `Responder` (responder.dfy) holds the service loop.
  - `Run` is its specification as a function over the stream of exchanges.
  - `Serve` is the loop itself. It runs over a 4096-byte `array` that keeps
    its contents between reads, and it is proved equal to `Run`.

How the environment is modelled:

- **The descriptor.** The server descriptor is a sequence of `Exchange`
  values. Each one pairs what a `read` returned (and the bytes it stored)
  with what the answering `write` returned. A finite sequence stands for a
  finite trace; when it is used up, the model reports the end of the loop as
  `ReadEnded` (see "## Left out").
- **The buffer.** A read overwrites only as many leading bytes as it
  returns. The buffer's contents before the first read are a parameter
  (`garbage`), because the C array is uninitialised. A request shorter than
  22 bytes is therefore classified together with stale bytes. It may even be
  classified by its ordinal alone, using bytes left over from an earlier
  request. `StaleBytesDecideShortRequest` and `ShortRequestOnZeroedBuffer`
  show both outcomes for the same short request.
- **Failed writes.** A response whose `write` fails still counts as handed
  to `write`. It is therefore the last entry of `written` when the loop ends
  with `WriteFailed`.

## Model

| member | source | states |
|---|---|---|
| Tpm12.Be32Decodes | src/vtpmctrl.c:141 | decoding the big-endian encoding of any 32-bit value gives the value back |
| Tpm12.Be32RoundTrip | src/vtpmctrl.c:141 | re-encoding the value read from four bytes gives exactly those bytes, so `be32toh` of a field and the field's bytes determine each other |
| Tpm12.Ordinal | src/vtpmctrl.c:141 | the ordinal is below 2^32 and its big-endian encoding is exactly request bytes 6..9 |
| Tpm12.LengthField | src/vtpmctrl.c:66-93 | the length field is below 2^32 and its big-endian encoding is exactly bytes 2..5 of a buffer |
| Tpm12.CannedLengths | src/vtpmctrl.c:66-93 | each of the five canned buffers is 10, 22, 30, 22 or 26 bytes long, and its length field holds exactly that size |
| Tpm12.CannedHeaders | src/vtpmctrl.c:66-93 | both canned requests carry tag 0x00c1 and ordinal GetCapability; all three canned responses carry tag 0x00c4 and return code 0 |
| Tpm12.PatternsDisjoint | src/vtpmctrl.c:69-86 | the two capability patterns share their first 21 bytes and differ in byte 21, so no buffer matches both |
| Tpm12.CannedResponsesDistinct | src/vtpmctrl.c:66-93 | the three canned responses have pairwise different lengths and are pairwise different, so the set of possible answers has three elements |
| Classify.Select | src/vtpmctrl.c:141-160 | the answer is always one of the three canned responses, and a `started` that is already true stays true |
| Classify.SelectSpec | src/vtpmctrl.c:142-159 | every ordinal except GetCapability gets the success header with `started` unchanged; the timeout answer is given exactly when the first 22 bytes equal `timeout_req`; the duration answer exactly when they equal `duration_req`; the success header exactly when they equal neither; `started` afterwards is true exactly when it was true or the duration pattern matched |
| Classify.PatternOrdinal | src/vtpmctrl.c:146-150 | a buffer matching either pattern carries the GetCapability ordinal, so the `memcmp` tests are reached for every matching buffer |
| Classify.Dispatch | src/vtpmctrl.c:136-160 | the loop exits exactly when `started` and the exit option both hold; otherwise the reply is `Select`'s |
| Classify.StartupAnswered | src/vtpmctrl.c:143-145 | a Startup request that does not trigger the exit rule is answered with exactly the 10-byte success header and leaves `started` unchanged |
| Classify.SelectReadsPrefix | src/vtpmctrl.c:147-150 | two buffers with the same first 22 bytes get the same answer and the same new `started` |
| Responder.Overwrite | src/vtpmctrl.c:124 | after a read the buffer has its old size, begins with the bytes read and keeps its old bytes after them |
| Responder.Store | src/vtpmctrl.c:124 | the array afterwards holds `Overwrite` of its old contents |
| Responder.Run | src/vtpmctrl.c:123-173 | at most one response per exchange; `started` never goes from true to false; the loop stops on a user request only when the exit option is set and `started` is true |
| Responder.RunAnswered | src/vtpmctrl.c:141-167 | a request that is read, not caught by the exit rule, and answered by a successful write contributes `Select`'s response, followed by the rest of the run from the overwritten buffer and the new flag |
| Responder.RunStops | src/vtpmctrl.c:124-170 | the three ways out of the loop: a read of zero or fewer bytes ends it with nothing written; the exit rule ends it with nothing written; a failed write ends it after that one response |
| Responder.Turn | src/vtpmctrl.c:124-170 | one iteration on the array overwrites the buffer's prefix with the bytes read (and leaves it unchanged when the read returns no data), writes at most one response and never clears `started`; when the loop goes on, the response and the new flag are `Select`'s for the new buffer contents; what it writes, followed by the run from its new state, is what the run from the old state writes; when it stops it gives the run's stop reason |
| Responder.Serve | src/vtpmctrl.c:123-173 | the loop on the persistent 4096-byte array returns 0 and writes exactly the responses `Run` prescribes for the same initial contents, stopping for the same reason |
| Responder.RunWritesCanned | src/vtpmctrl.c:144-158 | every buffer handed to `write` is one of the three canned responses, unmodified |
| Responder.RunStartedIff | src/vtpmctrl.c:152 | `started` ends up true exactly when it started true or the duration answer was written |
| Responder.ExitOnceStarted | src/vtpmctrl.c:136-139 | with the exit option set and `started` true, nothing is written; the loop ends on a user request exactly when the next read returns data, and on end of stream otherwise |
| Responder.DurationAnswerIsLast | src/vtpmctrl.c:136-152 | with the exit option set, the duration answer never appears before the last written position |
| Responder.NoUserExitWithoutOption | src/vtpmctrl.c:161-170 | without the exit option the loop never stops on a user request; it stops on a failed write exactly when some exchange's write fails while every earlier exchange read data and wrote successfully |
| Responder.StaleBytesDecideShortRequest | src/vtpmctrl.c:124-150 | a 10-byte prefix of the duration query read after the full query is matched against the full pattern thanks to the stale bytes, and both are answered with the durations |
| Responder.ShortRequestOnZeroedBuffer | src/vtpmctrl.c:124-150 | the same 10-byte prefix on a zeroed buffer gets only the success header |
| Responder.LongRequestIgnoresStaleBytes | src/vtpmctrl.c:147-150 | a request of at least 22 bytes gets the same answer whatever the buffer held before |

## Left out

- Device creation is not modelled: opening `/dev/vtpmx`, the `VTPM_PROXY_IOC_NEW_DEV` ioctl, the `/dev/tpm%u` name and closing the control descriptor (src/vtpmctrl.c:97-121). This is kernel I/O, and its error returns (1) happen before the loop.
- The hex dump of each request and all `printf`/`perror` output (src/vtpmctrl.c:126-134, 137, 162-166) are output only.
- `main`'s parsing of `--exit-on-user-request` (src/vtpmctrl.c:176-186) is not modelled. The option is the boolean parameter `exitOnUser`.
- The blocking `read`/`write` system calls and `errno` are not modelled. The sequence of `Exchange` values stands in for them, and a failed call is any negative result.
- A short `write` (a non-negative count smaller than the response) is not distinguished from a complete one, because the source checks only for a negative result.
- What `read` returns and stores is taken from the exchange as given. The model requires a positive result to equal the number of bytes stored, and that number to be at most 4096 (`WellFormed`), as the `read` contract guarantees.
- TPM 2.0 commands, PCR read, ContinueSelfTest, an allow-list for the exit rule and `--tpm2`/`--spawn` options are not modelled, because the code has none of them.
- The real `read` blocks until a request arrives; it never runs out. The model works on a finite sequence of exchanges, and once that is used up it reports the end of the loop as `ReadEnded`, as if `read` had returned 0. So `ExitOnceStarted` and `Serve`'s `status == 0` also cover a finite trace that simply ran out, which on the real descriptor would still be waiting in `read`.
