# Passive device redirection observer: a Dafny model

This project models the file-reconstruction engine of the relay's device
redirection (RDPDR) channel: `PassiveDeviceRedirectionObserver` in
`rdpy/mitm/virtual_channel/device_redirection.py`. A proxied connection has two
observers, one per leg, linked as peers. Each one watches the I/O requests and
responses that pass through it and forwards every message to the other side.
While doing so it rebuilds every file the client reads, and saves the file when
it is closed.

Each observer owns three dictionaries:

- `inProgress`: the completion table, from completion id to the request awaiting its response.
- `openedFiles`: the handle registry, from file id to the raw (UTF-16LE) path of a file opened for reading.
- `finalFiles`: the buffer set, from decoded path to the reconstruction buffer.

Handling one message is a pure function. It takes the receiving observer and
its peer, and returns their new states and an outcome. The outcome is either
the message forwarded to the peer (with, on a close, the file to save), or the
dictionary lookup that failed (Python's `KeyError`).

Files:

- `bytes.dfy`: the byte type.
- `wrappers.dfy`: `Option`.
- `maps.dfy`: point-wise "stored at key" and "removed at key" relations on maps.
- `utf16.dfy`: permissive UTF-16LE decoding, an encoder, and their round trip.
- `paths.dfy`: `bytesToPath`, and the local path built in `writeToDisk`.
- `buffer.dfy`: `BytesIO` seek-and-write, and reconstruction from read pieces.
- `messages.dfy`: requests, responses, flag constants, and the tracking test.
- `device_redirection.dfy`: the observer and its handlers.
- `relay.dfy`: the two-leg connection, and request/response exchanges.
- `scenarios.dfy`: end-to-end runs.

Requests travel from the server to the client. They arrive on the server-leg
observer and are recorded in the client-leg observer's table. Responses arrive
on the client-leg observer, which also holds the registry and the buffers.

Three behaviours of the code shape the model:

- The code raises `KeyError` in three places:
  - line 62: a read request for a file id the peer does not track;
  - line 99: a read response whose file id is no longer tracked;
  - line 124: a close of a tracked file that was never read.

  The exception escapes `onPDUReceived` before line 53, so nothing is forwarded. The model returns `Raised` and forwards nothing. In the line-62 case, the write to the peer's table at line 60 has already happened, and the model keeps it.
- `replace("..", "")` at line 138 is one left-to-right pass. Each run of n dots becomes n mod 2 dots, so `...` becomes `.`.
- `BytesIO.write(b"")` changes nothing, even after a seek past the end. So an empty read payload never grows a buffer.

## Model

| member | source | states |
|---|---|---|
| DeviceRedirection.OnPduReceived | rdpy/mitm/virtual_channel/device_redirection.py:39-53 | a request changes only the peer; a response changes only the receiver; a device announcement or unparsed message changes nothing and is forwarded as received; anything forwarded for a non-response is the original message |
| DeviceRedirection.DealWithRequest | rdpy/mitm/virtual_channel/device_redirection.py:55-67 | the request is stored under its completion id in the peer's table, overwriting any previous entry, with every other entry and both other peer maps unchanged; the receiver is unchanged; the call fails exactly for a read request whose file id the peer does not track, and the table write still stands |
| DeviceRedirection.DealWithResponse | rdpy/mitm/virtual_channel/device_redirection.py:69-91 | an unknown completion id leaves both observers unchanged and forwards the original response only; after a known id is handled, that id is gone from the table and every other entry is unchanged; a failed handler leaves the observer unchanged (the id is not removed); the peer is never touched |
| DeviceRedirection.StatusOnlyReported | rdpy/mitm/virtual_channel/device_redirection.py:76-78 | two responses that differ only in status give the same states, the same fault or saved file, and the same kind of forwarded message |
| DeviceRedirection.DealWithReadResponse | rdpy/mitm/virtual_channel/device_redirection.py:93-104 | it fails exactly when the request's file id is untracked; otherwise the buffer of the decoded path is created empty if absent and becomes a seek-and-write of the payload at the request's offset; every other buffer, the table and the registry are unchanged; the reinterpreted read response is forwarded |
| DeviceRedirection.DealWithCreateResponse | rdpy/mitm/virtual_channel/device_redirection.py:106-115 | when a read bit is requested and the non-directory option is set, the assigned file id is bound to the requested path and every other binding is kept; otherwise the registry is unchanged; buffers and table are never touched; the reinterpreted create response is forwarded |
| DeviceRedirection.DealWithCloseResponse | rdpy/mitm/virtual_channel/device_redirection.py:117-125 | an untracked file id changes nothing and saves nothing; for a tracked one the whole current buffer of its path is saved to the sanitised local path and the file id is removed, while the buffer is kept; it fails exactly when the tracked file's path has no buffer |
| DeviceRedirection.KeyingPreserved | rdpy/mitm/virtual_channel/device_redirection.py:60-88 | if every pending request of both observers sits under its own completion id, that still holds after any message |
| DeviceRedirection.BuffersPersist | rdpy/mitm/virtual_channel/device_redirection.py:100-125 | no message removes a buffer from either observer, the peer's buffers never change, and only a response to a pending read request changes the receiver's buffers |
| Messages.IsReadOpenBits | rdpy/mitm/virtual_channel/device_redirection.py:112-113 | the tracking test holds exactly when bit 31 or bit 0 of the access mask is set and bit 6 of the create options is set |
| Messages.IsErrorStatusRange | rdpy/mitm/virtual_channel/device_redirection.py:76 | a status has error severity exactly when it is at least 0xC0000000 |
| Buffer.WriteAt | rdpy/mitm/virtual_channel/device_redirection.py:102-104 | for a non-empty payload the new length is max(old length, offset + payload length); the payload lies at the offset; bytes outside it are kept; a gap past the old end is zero; an empty payload changes nothing |
| Buffer.WriteIsDetermined | rdpy/mitm/virtual_channel/device_redirection.py:103-104 | the seek-and-write description admits exactly one resulting buffer |
| Buffer.DisjointWritesCommute | rdpy/mitm/virtual_channel/device_redirection.py:103-104 | two writes to non-overlapping ranges give the same buffer in either order |
| Buffer.WriteAtEndAppends | rdpy/mitm/virtual_channel/device_redirection.py:103-104 | writing at the current end appends the payload |
| Buffer.TwoPiecesEitherOrder | rdpy/mitm/virtual_channel/device_redirection.py:103-104 | a front piece at 0 and a back piece right after it rebuild front followed by back, whichever is written first |
| Buffer.ConsecutiveWritesConcatenate | rdpy/mitm/virtual_channel/device_redirection.py:103-104 | pieces written in order, each starting where the previous one ended, rebuild their concatenation |
| Buffer.WriteAllLength | rdpy/mitm/virtual_channel/device_redirection.py:103-104 | after any sequence of writes the buffer reaches exactly the furthest end of a non-empty piece, or its initial length if that is larger |
| Buffer.WriteAllChunk | rdpy/mitm/virtual_channel/device_redirection.py:103-104 | after writing pairwise non-overlapping pieces, every byte a piece covers holds that piece's byte |
| Buffer.WriteAllUncovered | rdpy/mitm/virtual_channel/device_redirection.py:103-104 | after writing pieces, a byte that no piece covers holds the initial byte, or zero past the initial end |
| Buffer.WriteOrderIrrelevant | rdpy/mitm/virtual_channel/device_redirection.py:103-104 | writing pairwise non-overlapping pieces in any rearrangement (same multiset) gives the same buffer |
| Buffer.ConsecutiveIsDisjoint | rdpy/mitm/virtual_channel/device_redirection.py:103-104 | pieces that each start where the previous ones end never overlap |
| Buffer.DisjointCarriesOver | rdpy/mitm/virtual_channel/device_redirection.py:103-104 | any rearrangement of pairwise non-overlapping pieces is again pairwise non-overlapping |
| Buffer.AnyArrivalOrder | rdpy/mitm/virtual_channel/device_redirection.py:101-104 | pieces that tile a file from its first byte, written into a fresh buffer in any arrival order, rebuild the file exactly |
| Utf16.DecodeLe | rdpy/mitm/virtual_channel/device_redirection.py:148 | the permissive UTF-16LE decoder yields at most one character per two bytes |
| Utf16.DecodeDropsLoneLow | rdpy/mitm/virtual_channel/device_redirection.py:148 | a low surrogate with no high surrogate before it is dropped and decoding goes on after it |
| Utf16.DecodeDropsUnpairedHigh | rdpy/mitm/virtual_channel/device_redirection.py:148 | a high surrogate followed by a unit that is not a low surrogate is dropped, and that unit is decoded afresh |
| Utf16.DecodeDropsFinalHigh | rdpy/mitm/virtual_channel/device_redirection.py:148 | a high surrogate with fewer than two bytes after it yields nothing |
| Utf16.DecodeDropsOddByte | rdpy/mitm/virtual_channel/device_redirection.py:148 | a trailing odd byte after an even number of bytes is dropped |
| Utf16.DecodeEncode | rdpy/mitm/virtual_channel/device_redirection.py:148 | the permissive UTF-16LE decoder returns exactly the string whose encoding it is given, supplementary characters included |
| Paths.BytesToPath | rdpy/mitm/virtual_channel/device_redirection.py:144-148 | the decoded path contains no NUL |
| Paths.RemoveNul | rdpy/mitm/virtual_channel/device_redirection.py:148 | the result has no NUL, a character other than NUL occurs in it exactly when it occurs in the input, and it is no longer than the input |
| Paths.RemoveNulKeepsNulFree | rdpy/mitm/virtual_channel/device_redirection.py:148 | a string without NUL passes unchanged |
| Paths.RemoveNulConcat | rdpy/mitm/virtual_channel/device_redirection.py:148 | NUL removal acts on each character on its own (it distributes over concatenation) |
| Paths.BytesToPathOfTerminated | rdpy/mitm/virtual_channel/device_redirection.py:148 | a path sent as a NUL-terminated wide string decodes to the path itself |
| Paths.ToForwardSlashes | rdpy/mitm/virtual_channel/device_redirection.py:138 | same length, no backslash left, each backslash became a slash and every other character is kept in place |
| Paths.StripDotDot | rdpy/mitm/virtual_channel/device_redirection.py:138 | the result has no two adjacent dots, uses only characters of the input, and starts like the input when the input does not start with a dot |
| Paths.Sanitize | rdpy/mitm/virtual_channel/device_redirection.py:138 | the sanitised path contains no backslash and no ".." |
| Paths.DiskPath | rdpy/mitm/virtual_channel/device_redirection.py:138 | the local path starts with "./saved_files/" and contains no backslash and no ".." |
| Paths.SanitizeIdempotent | rdpy/mitm/virtual_channel/device_redirection.py:138 | sanitising a sanitised path changes nothing |
| Paths.StripDotRun | rdpy/mitm/virtual_channel/device_redirection.py:138 | a run of n dots followed by a non-dot shrinks to n mod 2 dots |
| Paths.StripDotDotSplit | rdpy/mitm/virtual_channel/device_redirection.py:138 | the pass handles a prefix that does not end in a dot independently of what follows |
| Paths.StripDotDotKeepsClean | rdpy/mitm/virtual_channel/device_redirection.py:138 | a string without ".." passes unchanged |
| Relay.Receive | rdpy/mitm/virtual_channel/device_redirection.py:39-60 | a request received on a leg leaves that leg's observer unchanged and is recorded in the other leg's table; a response leaves the other leg unchanged; other messages change nothing and are forwarded as received |
| Relay.RequestResponseRoundTrip | rdpy/mitm/virtual_channel/device_redirection.py:55-91 | a request whose response changes no registry or buffer, once answered, leaves the connection exactly as it was, and both messages are forwarded |
| Relay.OpenExchange | rdpy/mitm/virtual_channel/device_redirection.py:106-115 | a read-open create, once answered, only binds the assigned file id to the path on the client leg |
| Relay.ReadAnswered | rdpy/mitm/virtual_channel/device_redirection.py:80-104 | the response to a pending read of a tracked file writes the payload into the path's buffer at the requested offset and retires the completion id; nothing else changes |
| Relay.ReadExchange | rdpy/mitm/virtual_channel/device_redirection.py:93-104 | a read of a tracked file, once answered, only writes the payload into the path's buffer at the offset |
| Relay.CloseExchange | rdpy/mitm/virtual_channel/device_redirection.py:117-125 | a close of a tracked, read file, once answered, saves the path's whole buffer and only forgets the file id |
| Scenarios.InOrder | rdpy/mitm/virtual_channel/device_redirection.py:39-125 | create for reading (file id 7), read a front piece at 0, read a back piece right after it, close: front followed by back is saved under the sanitised name; both tables and both registries end empty, and the buffer persists |
| Scenarios.HelloWorldInOrder | rdpy/mitm/virtual_channel/device_redirection.py:39-125 | the same run with "hello" and " world" saves "hello world" |
| Scenarios.TwoPiecesReversed | rdpy/mitm/virtual_channel/device_redirection.py:93-104 | a file read in two pieces, whose answers arrive back piece first, is saved as front followed by back |
| Scenarios.ReportDiskPath | rdpy/mitm/virtual_channel/device_redirection.py:138 | `\tsclient\c\report.txt` is saved at `./saved_files//tsclient/c/report.txt` |
| Scenarios.ReportScenario | rdpy/mitm/virtual_channel/device_redirection.py:39-142 | the concrete run for `\tsclient\c\report.txt` saves "hello world" at `./saved_files//tsclient/c/report.txt` |

## Left out

- Logging: every `mitm_log` call is diagnostics only. This includes the device-list announcement, which the model forwards unchanged and otherwise ignores.
- DeviceRedirection.DealWithCreateResponse: does not model the `UnicodeDecodeError` that the strict `decode('utf-16')` in the log line at line 114 can raise for a malformed path, because that decode only feeds a diagnostic.
- The parser (`parseReadResponse`, `parseDeviceCreateResponse`, `write`): the read payload and the assigned file id are fields of the response value. The forwarded message is the original one or the reinterpreted response. Parse failures are not modelled.
- Transport: `layer.send` becomes "forward this message to the peer".
- Filesystem: `os.makedirs` and `open`/`write` become the emitted `DiskWrite` (local path, contents). A failing disk write would also skip the registry removal at line 125. That case is not modelled, because disk I/O is outside the model.
- Integer widths: completion ids and file ids are `nat`. The code only compares them and uses them as dictionary keys, so their wire widths do not matter. Offsets are `nat` as well; their limits are the next line.
- DeviceRedirection.DealWithReadResponse: does not model the failures of the buffer write itself. A read request's offset is a 64-bit field, and `BytesIO.seek` at line 103 raises `OverflowError` for an offset of 2^63 or more. A write far past the end can also exhaust memory. In the code, either failure happens after line 101 has created the empty buffer: the new empty buffer and the pending completion id stay, and nothing is forwarded. The model instead writes the payload, retires the id and forwards. Memory and platform integer limits are outside the model.
- `Recorder`, the unused `reconstructedFilesTemp`, and the client/server subclasses (lines 151-164) add no logic. The subclasses only fix the leg, which is `Relay.Leg` here.
- Single-threaded, one-message-at-a-time processing is taken for granted. No concurrency is modelled.
